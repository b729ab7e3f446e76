/** pb_field_iter_t: walking over a descriptor and the struct it describes. */
module FieldIterator {
  import opened Descriptors

  /** Storage of a whole field: data_size is the size of one array entry. */
  function StorageSize(f: Field): nat {
    if f.htype.Repeated? then f.dataSize * f.arraySize else f.dataSize
  }

  function GapBytes(o: DataOffset): nat {
    match o
    case Gap(n) => n
    case InUnion => 0
  }

  /** Byte offset of a field in the struct: all gaps and fields before it, a union counted once. */
  function ByteOffset(fields: seq<Field>, i: nat): nat
    requires i < |fields|
  {
    if i == 0 then GapBytes(fields[0].offset)
    else if Continues(fields, i) then ByteOffset(fields, i - 1)
    else ByteOffset(fields, i - 1) + StorageSize(fields[i - 1]) + GapBytes(fields[i].offset)
  }

  /** Where the members of a struct lie and how much they take up, as offsetof and sizeof have it. */
  datatype Layout = Layout(offsets: seq<nat>, sizes: seq<nat>)

  /** A descriptor filled in for a struct: each field's gap is measured from the end of the member before it; an array's
      entries make up the member; and members of a union lie at one offset. */
  predicate Describes(fields: seq<Field>, layout: Layout) {
    && |layout.offsets| == |layout.sizes| == |fields|
    && (forall i | 0 <= i < |fields| ::
          var f := fields[i];
          layout.sizes[i] == if f.htype.Repeated? then f.arraySize * f.dataSize else f.dataSize)
    && (fields != [] ==> fields[0].offset == Gap(layout.offsets[0]))
    && (forall i | 0 < i < |fields| ::
          match fields[i].offset
          case Gap(n) => layout.offsets[i] == layout.offsets[i - 1] + layout.sizes[i - 1] + n
          case InUnion => Continues(fields, i) && layout.offsets[i] == layout.offsets[i - 1])
  }

  /** The iterator's sums give every field's offset back. */
  lemma {:induction false} OffsetsComeBack(fields: seq<Field>, layout: Layout, i: nat)
    requires Describes(fields, layout) && i < |fields|
    ensures ByteOffset(fields, i) == layout.offsets[i]
  {
    if i > 0 {
      OffsetsComeBack(fields, layout, i - 1);
      assert fields[i].offset.Gap? || Continues(fields, i);
      assert layout.sizes[i - 1] == StorageSize(fields[i - 1]);
    }
  }

  /** The tag at a position; the descriptor ends in a field with tag 0. */
  function TagAt(fields: seq<Field>, i: nat): nat
    requires i <= |fields|
  {
    if i < |fields| then fields[i].tag else 0
  }

  /** Members of one union lie at one offset; */
  lemma {:induction false} UnionMembersOverlay(fields: seq<Field>, i: nat, j: nat)
    requires i <= j < |fields| && SlotOf(fields, i) == SlotOf(fields, j)
    ensures ByteOffset(fields, i) == ByteOffset(fields, j)
    decreases j
  {
    if i < j {
      SlotOfMonotonic(fields, i, j - 1);
      UnionMembersOverlay(fields, i, j - 1);
    }
  }

  /** any other field ends before the next one starts. */
  lemma {:induction false} FieldsDoNotOverlap(fields: seq<Field>, i: nat, j: nat)
    requires i < j < |fields| && !fields[i].htype.OneOf?
    ensures ByteOffset(fields, i) + StorageSize(fields[i]) <= ByteOffset(fields, j)
    decreases j
  {
    if i < j - 1 {
      FieldsDoNotOverlap(fields, i, j - 1);
    }
  }

  class FieldIter {
    const fields: seq<Field>
    var pos: nat
    var requiredFieldIndex: nat
    // Offsets from the start of the struct, and the typed slot at pData.
    var pData: int
    var pSize: int
    var slot: nat

    ghost predicate Valid()
      reads this
    {
      && Navigable(fields)
      && (if fields == [] then pos == 0 else pos < |fields|)
      && (pos < |fields| ==>
            && requiredFieldIndex == RequiredBefore(fields, pos)
            && pData == ByteOffset(fields, pos)
            && pSize == pData + fields[pos].sizeOffset
            && slot == SlotOf(fields, pos))
      && (fields == [] ==> requiredFieldIndex == 0)
    }

    constructor (fields: seq<Field>)
      requires Navigable(fields)
      ensures this.fields == fields && pos == 0 && Valid()
    {
      this.fields := fields;
      new;
      var _ := Begin();
    }

    /** pb_field_iter_begin */
    method Begin() returns (more: bool)
      requires Navigable(fields)
      modifies this
      ensures Valid() && pos == 0
      ensures more <==> fields != []
    {
      pos := 0;
      requiredFieldIndex := 0;
      pData := if fields == [] then 0 else GapBytes(fields[0].offset);
      pSize := pData + (if fields == [] then 0 else fields[0].sizeOffset);
      slot := 0;
      more := TagAt(fields, pos) != 0;
    }

    /** pb_field_iter_next */
    method Next() returns (more: bool)
      requires Valid()
      modifies this
      ensures Valid()
      ensures more <==> old(pos) + 1 < |fields|
      ensures pos == (if more then old(pos) + 1 else 0)
    {
      assert fields != [] ==> NavigableField(fields[pos]);
      if TagAt(fields, pos) == 0 {
        return false;
      }
      var prev := fields[pos];
      pos := pos + 1;
      assert pos < |fields| ==> NavigableField(fields[pos]);
      if TagAt(fields, pos) == 0 {
        var _ := Begin();
        return false;
      }
      var prevSize := prev.dataSize;
      if prev.htype.OneOf? && fields[pos].htype.OneOf? && fields[pos].offset.InUnion? {
        return true;
      } else if prev.htype.Repeated? {
        prevSize := prevSize * prev.arraySize;
      }
      if prev.htype.Required? {
        requiredFieldIndex := requiredFieldIndex + 1;
      }
      pData := pData + prevSize + GapBytes(fields[pos].offset);
      pSize := pData + fields[pos].sizeOffset;
      slot := slot + 1;
      return true;
    }

    /** pb_field_iter_find: searches from the current field on, around the end of the descriptor. */
    method Find(tag: nat) returns (found: bool)
      requires Valid() && (tag != 0 || fields != [])
      modifies this
      ensures Valid()
      ensures found <==> exists i :: 0 <= i < |fields| && fields[i].tag == tag
      ensures found ==> pos < |fields| && fields[pos].tag == tag
      ensures !found ==> pos == old(pos)
    {
      var start := pos;
      ghost var steps := 0;
      while true
        invariant Valid()
        invariant steps <= |fields| && (steps == |fields| ==> fields == [])
        invariant pos == (if start + steps < |fields| then start + steps else start + steps - |fields|)
        invariant forall i :: start <= i < start + steps && i < |fields| ==> fields[i].tag != tag
        invariant forall i :: 0 <= i < start + steps - |fields| ==> fields[i].tag != tag
        decreases |fields| - steps
      {
        assert pos < |fields| ==> NavigableField(fields[pos]);
        if TagAt(fields, pos) == tag {
          return true;
        }
        var _ := Next();
        steps := steps + 1;
        if pos == start {
          break;
        }
      }
      return false;
    }
  }
}
