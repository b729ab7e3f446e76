/** Whatever bytes a decode accepts, it leaves a struct of the right shape, with every count and size in bounds. */
module Soundness {
  import opened Wrappers
  import opened Wire
  import opened Descriptors
  import opened Encoding
  import opened Decoding
  import opened Exactness

  /** The struct has the shape of its descriptor and, if strict, every count and size in it is within bounds,
      whether the field is present or not. */
  predicate Good(strict: bool, fields: seq<Field>, slots: seq<Slot>)
    decreases fields, 0
  {
    && |slots| == SlotsBefore(fields, |fields|)
    && forall i | 0 <= i < |fields| ::
         SlotOf(fields, i) < |slots| && GoodSlot(strict, fields[i], slots[SlotOf(fields, i)])
  }

  predicate GoodSlot(strict: bool, f: Field, s: Slot)
    decreases f, 1
  {
    match f.htype
    case Required => s.Plain? && GoodValue(strict, f, s.value)
    case Optional => (if f.Sized() then s.Tracked? else s.Plain?) && GoodValue(strict, f, s.value)
    case Repeated =>
      && (if f.Sized() then s.Counted? && (strict ==> |s.items| <= f.arraySize)
          else s.FixedCount? && |s.items| == f.arraySize)
      && forall k | 0 <= k < |s.items| :: GoodValue(strict, f, s.items[k])
    case OneOf => s.Union? && (s.which == f.tag ==> GoodValue(strict, f, s.value))
  }

  predicate GoodValue(strict: bool, f: Field, v: Value)
    decreases f, 0
  {
    match f.ltype
    case Bytes(header) => v.Blob? && (strict ==> |v.data| + header <= f.dataSize)
    case String => v.Blob? && |v.data| <= f.dataSize
    case FixedLengthBytes => v.Blob? && |v.data| == f.dataSize
    case Submessage => v.Sub? && Good(strict, f.sub, v.slots)
    case _ => v.Num? && NumberFits(f, v.n)
  }

  /** Without strictness this is the shape alone; with it, the encoder finds nothing to object to. */
  lemma {:induction false} GoodMeans(fields: seq<Field>, slots: seq<Slot>)
    ensures Good(false, fields, slots) <==> HasShape(fields, slots)
    ensures Good(true, fields, slots) ==> HasShape(fields, slots) && InBounds(fields, slots)
    decreases fields, 0
  {
    forall i | 0 <= i < |fields| && SlotOf(fields, i) < |slots|
      ensures var s := slots[SlotOf(fields, i)]; GoodSlot(false, fields[i], s) <==> SlotHasShape(fields[i], s)
      ensures var s := slots[SlotOf(fields, i)];
              GoodSlot(true, fields[i], s) ==> SlotHasShape(fields[i], s) && SlotInBounds(fields[i], s)
    {
      GoodSlotMeans(fields[i], slots[SlotOf(fields, i)]);
    }
  }

  lemma {:induction false} GoodSlotMeans(f: Field, s: Slot)
    ensures GoodSlot(false, f, s) <==> SlotHasShape(f, s)
    ensures GoodSlot(true, f, s) ==> SlotHasShape(f, s) && SlotInBounds(f, s)
    decreases f, 1
  {
    hide GoodValue, ValueHasShape, ValueInBounds;
    match s
    case Plain(v) => GoodValueMeans(f, v);
    case Tracked(_, v) => GoodValueMeans(f, v);
    case Union(_, v) => GoodValueMeans(f, v);
    case Counted(items) => forall k | 0 <= k < |items| { GoodValueMeans(f, items[k]); }
    case FixedCount(items) => forall k | 0 <= k < |items| { GoodValueMeans(f, items[k]); }
  }

  lemma {:induction false} GoodValueMeans(f: Field, v: Value)
    ensures GoodValue(false, f, v) <==> ValueHasShape(f, v)
    ensures GoodValue(true, f, v) ==> ValueHasShape(f, v) && ValueInBounds(f, v)
    decreases f, 0
  {
    hide Good, HasShape, InBounds;
    if f.ltype.Submessage? && v.Sub? {
      GoodMeans(f.sub, v.slots);
      if HasShape(f.sub, v.slots) {
        ShapeLength(f.sub, v.slots);
      }
    }
  }

  lemma {:induction false} GoodAt(strict: bool, fields: seq<Field>, slots: seq<Slot>, i: nat)
    requires Good(strict, fields, slots) && i < |fields|
    ensures SlotOf(fields, i) < |slots| && GoodSlot(strict, fields[i], slots[SlotOf(fields, i)])
  {
  }

  lemma {:induction false} InitValueGood(strict: bool, f: Field)
    requires WellFormedField(f)
    ensures GoodValue(strict, f, InitValue(f))
    decreases f, 0
  {
    if f.ltype.Submessage? {
      InitGood(strict, f.sub);
    }
  }

  lemma {:induction false} InitSlotGood(strict: bool, f: Field)
    requires WellFormedField(f) && GoodValue(strict, f, InitValue(f))
    ensures GoodSlot(strict, f, InitSlot(f))
  {
    hide InitValue, GoodValue;
  }

  /** The struct of defaults is good. */
  lemma {:induction false} InitGood(strict: bool, fields: seq<Field>)
    requires WellFormed(fields)
    ensures Good(strict, fields, InitMessage(fields))
    decreases fields, 0
  {
    InitLength(fields);
    forall i | 0 <= i < |fields|
      ensures SlotOf(fields, i) < |InitMessage(fields)|
      ensures GoodSlot(strict, fields[i], InitMessage(fields)[SlotOf(fields, i)])
    {
      hide InitMessage, InitSlot, InitValue, GoodValue, GoodSlot, WellFormedField;
      FieldsWellFormed(fields, i);
      InitMessageAt(fields, i);
      InitValueGood(strict, fields[i]);
      InitSlotGood(strict, fields[i]);
    }
    hide InitMessage, GoodSlot;
  }

  lemma {:induction false} NumberFitsField(f: Field, bs: seq<Byte>)
    requires f.ltype.Packable() && DecodeNumber(f, bs).Ok?
    ensures NumberFits(f, DecodeNumber(f, bs).value)
  {
    hide ReadVarint32, ReadVarint64, ToInt64, ToInt32, UnZigZag;
    match f.ltype
    case Fixed32 => FromLittleEndianBound(bs[..4]);
    case Fixed64 => FromLittleEndianBound(bs[..8]);
    case _ =>
  }

  lemma {:induction false} FromLittleEndianBound(bs: seq<Byte>)
    ensures FromLittleEndian(bs) < Pow2(8 * |bs|)
    ensures |bs| == 4 ==> FromLittleEndian(bs) < TWO_TO_32
    ensures |bs| == 8 ==> FromLittleEndian(bs) < TWO_TO_64
  {
    if bs != [] {
      FromLittleEndianBound(bs[1..]);
      Pow2Add(8, 8 * |bs[1..]|);
      assert Pow2(8) == 256;
    }
    PowerValues();
  }

  lemma {:induction false} PackedGood(strict: bool, f: Field, room: nat, payload: seq<Byte>)
    requires f.ltype.Packable() && DecodePacked(f, room, payload).Some?
    ensures var r := DecodePacked(f, room, payload).value;
            |r| <= room && forall k | 0 <= k < |r| :: GoodValue(strict, f, r[k])
    decreases |payload|
  {
    hide DecodeNumber, NumberFits;
    if payload != [] {
      NumberFitsField(f, payload);
      PackedGood(strict, f, room - 1, DecodeNumber(f, payload).rest);
    }
  }

  // ---------------------------------------------------------------------------------------------
  // Every step of a decode keeps the struct good
  // ---------------------------------------------------------------------------------------------

  lemma {:induction false} ValueGood(strict: bool, f: Field, prior: Value, bs: seq<Byte>)
    requires WellFormedField(f) && DecodeValue(f, prior, bs).Ok?
    requires f.ltype.Submessage? && !f.htype.Repeated? ==> GoodValue(strict, f, prior)
    ensures GoodValue(strict, f, DecodeValue(f, prior, bs).value)
    decreases |bs|, 0
  {
    hide ReadDelimited, ReadVarint32, DecodeNumber, DecodeNoinit, InitMessage, NumberFits, Good;
    match f.ltype
    case Submessage =>
      var payload := ReadDelimited(bs).value;
      var start := if f.htype.Repeated? then InitMessage(f.sub) else prior.slots;
      if f.htype.Repeated? {
        InitGood(strict, f.sub);
      }
      MessageGood(strict, f.sub, start, payload);
    case Bytes(_) =>
    case String =>
    case FixedLengthBytes =>
    case _ => NumberFitsField(f, bs);
  }

  lemma {:induction false} RepeatedGood(strict: bool, f: Field, wireType: nat, s: Slot, count: nat, bs: seq<Byte>)
    requires WellFormedField(f) && f.htype.Repeated? && GoodSlot(strict, f, s)
    requires DecodeRepeated(f, wireType, s, count, bs).Ok?
    ensures GoodSlot(strict, f, DecodeRepeated(f, wireType, s, count, bs).value.0)
    decreases |bs|, 1
  {
    hide ReadDelimited, DecodePacked, DecodeValue, GoodValue;
    var have := if s.Counted? then |s.items| else count;
    var more;
    if wireType == 2 && f.ltype.Packable() {
      var payload := ReadDelimited(bs).value;
      PackedGood(strict, f, Room(f, have), payload);
      more := DecodePacked(f, Room(f, have), payload).value;
    } else {
      ValueGood(strict, f, Num(0), bs);
      more := [DecodeValue(f, Num(0), bs).value];
    }
    assert DecodeRepeated(f, wireType, s, count, bs).value == Store(s, have, more);
    assert forall k | 0 <= k < |more| :: GoodValue(strict, f, more[k]);
  }

  lemma {:induction false} SlotGood(strict: bool, f: Field, wireType: nat, s: Slot, count: nat, bs: seq<Byte>)
    requires WellFormedField(f) && GoodSlot(strict, f, s) && DecodeSlot(f, wireType, s, count, bs).Ok?
    ensures GoodSlot(strict, f, DecodeSlot(f, wireType, s, count, bs).value.0)
    ensures f.htype.OneOf? ==> DecodeSlot(f, wireType, s, count, bs).value.0.which == f.tag
    decreases |bs|, 2
  {
    hide DecodeRepeated, DecodeValue, GoodValue, InitMessage;
    match f.htype
    case Repeated => RepeatedGood(strict, f, wireType, s, if f.Sized() then 0 else count, bs);
    case OneOf =>
      var prior := if f.ltype.Submessage? && s.which != f.tag then Sub(InitMessage(f.sub)) else s.value;
      assert InitValue(f) == Sub(InitMessage(f.sub)) || !f.ltype.Submessage?;
      InitValueGood(strict, f);
      ValueGood(strict, f, prior, bs);
    case _ => ValueGood(strict, f, s.value, bs);
  }

  lemma {:induction false} FieldGood(strict: bool, fields: seq<Field>, i: nat, wireType: nat, st: Progress, bs: seq<Byte>)
    requires WellFormed(fields) && i < |fields| && Good(strict, fields, st.slots)
    requires DecodeField(fields, i, wireType, st, bs).Ok?
    ensures Good(strict, fields, DecodeField(fields, i, wireType, st, bs).value.slots)
    decreases |bs|, 3
  {
    hide DecodeSlot, GoodSlot, WellFormedField;
    var f, s := fields[i], SlotOf(fields, i);
    var st1 := Enter(fields, i, st).value;
    FieldsWellFormed(fields, i);
    GoodAt(strict, fields, st.slots, i);
    SlotGood(strict, f, wireType, st.slots[s], st1.fixedCount, bs);
    var stored := DecodeSlot(f, wireType, st1.slots[s], st1.fixedCount, bs).value.0;
    forall k | 0 <= k < |fields|
      ensures SlotOf(fields, k) < |st.slots|
      ensures GoodSlot(strict, fields[k], st.slots[s := stored][SlotOf(fields, k)])
    {
      GoodAt(strict, fields, st.slots, k);
      if k != i && SlotOf(fields, k) == s {
        SharedSlot(fields, i, k);
        OtherMemberGood(strict, f, fields[k], stored);
      }
    }
  }

  lemma {:induction false} OtherMemberGood(strict: bool, f: Field, g: Field, s: Slot)
    requires f.htype.OneOf? && g.htype.OneOf? && f.tag != g.tag
    requires GoodSlot(strict, f, s) && s.which == f.tag
    ensures GoodSlot(strict, g, s)
  {
  }

  lemma {:induction false} LoopGood(strict: bool, fields: seq<Field>, st: Progress, bs: seq<Byte>)
    requires WellFormed(fields) && Good(strict, fields, st.slots) && DecodeLoop(fields, st, bs).Done?
    ensures Good(strict, fields, DecodeLoop(fields, st, bs).st.slots)
    decreases |bs|, 4
  {
    hide DecodeField, DecodeTag, SkipField, Good, WellFormed;
    if bs != [] && DecodeOne(fields, st, bs).Next? {
      var tag := DecodeTag(bs);
      var i := FindField(fields, tag.tag, |fields|);
      if i.Some? {
        FieldGood(strict, fields, i.value, tag.wireType, st, tag.rest);
      }
      LoopGood(strict, fields, DecodeOne(fields, st, bs).st, DecodeOne(fields, st, bs).rest);
    }
  }

  /** Decoding over a good struct leaves a good struct. */
  lemma {:induction false} MessageGood(strict: bool, fields: seq<Field>, slots: seq<Slot>, bs: seq<Byte>)
    requires WellFormed(fields) && Good(strict, fields, slots) && DecodeNoinit(fields, slots, bs).Ok?
    ensures Good(strict, fields, DecodeNoinit(fields, slots, bs).value)
    decreases |bs|, 5
  {
    hide DecodeLoop, Good, WellFormed;
    LoopGood(strict, fields, Start(slots), bs);
  }

  /** What pb_decode accepts can be encoded again: no input makes a count or size exceed its field. */
  lemma {:induction false} DecodedCanBeEncoded(fields: seq<Field>, bs: seq<Byte>)
    requires WellFormed(fields) && DecodeMessage(fields, bs).Ok?
    ensures HasShape(fields, DecodeMessage(fields, bs).value)
    ensures EncodeMessage(fields, DecodeMessage(fields, bs).value).Some?
  {
    hide DecodeNoinit, Good, WellFormed, HasShape, EncodeMessage, InBounds, InitMessage;
    var slots := DecodeMessage(fields, bs).value;
    InitGood(true, fields);
    MessageGood(true, fields, InitMessage(fields), bs);
    GoodMeans(fields, slots);
    EncodesIffInBounds(fields, slots);
  }
}
