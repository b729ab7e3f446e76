/** Message descriptors (pb_field_t arrays) and the structs they describe, with typed slots in place of raw memory. */
module Descriptors {
  import opened Wrappers
  import opened Wire

  /** PB_LTYPE. A bytes field is a pb_bytes_array_t, whose data starts `header` bytes into it: the width of pb_size_t. */
  datatype LType =
    | Bool | Varint | UVarint | SVarint | Fixed32 | Fixed64
    | Bytes(header: nat) | String | Submessage | FixedLengthBytes
  {
    /** Up to PB_LTYPE_LAST_PACKABLE. */
    predicate Packable() {
      Bool? || Varint? || UVarint? || SVarint? || Fixed32? || Fixed64?
    }
  }

  /** PB_HTYPE */
  datatype HType = Required | Optional | Repeated | OneOf

  /** data_offset: the gap after the previous field, or PB_SIZE_MAX for a further member of the same union. */
  datatype DataOffset = Gap(bytes: nat) | InUnion

  /** One pb_field_t with static allocation. `sub` is the descriptor of a submessage, `preset` the default of another type. */
  datatype Field = Field(
    tag: nat,
    ltype: LType,
    htype: HType,
    offset: DataOffset,
    sizeOffset: int,
    dataSize: nat,
    arraySize: nat,
    sub: seq<Field>,
    preset: Option<Value>)
  {
    /** Whether the struct has a has_, _count or which_ member for the field. */
    predicate Sized() {
      sizeOffset != 0
    }
  }

  /** A number, the bytes of a string or bytes field, or a nested struct. A string is its bytes before the one
      that is known to be a terminator; a string that fills its buffer may have none. */
  datatype Value = Num(n: int) | Blob(data: seq<Byte>) | Sub(slots: seq<Slot>)

  /** The storage of a field: the value alone, with has_, with _count, a fixed-count array, or a union with which_. */
  datatype Slot =
    | Plain(value: Value)
    | Tracked(has: bool, value: Value)
    | Counted(items: seq<Value>)
    | FixedCount(items: seq<Value>)
    | Union(which: nat, value: Value)

  // ---------------------------------------------------------------------------------------------
  // Which slot a field is stored in
  // ---------------------------------------------------------------------------------------------

  /** Whether field i shares the union of the field before it. */
  predicate Continues(fields: seq<Field>, i: nat)
    requires i < |fields|
  {
    i > 0 && fields[i - 1].htype.OneOf? && fields[i].htype.OneOf? && fields[i].offset.InUnion?
  }

  function SlotOf(fields: seq<Field>, i: nat): (s: nat)
    requires i < |fields|
    ensures s <= i
  {
    if i == 0 then 0 else SlotOf(fields, i - 1) + (if Continues(fields, i) then 0 else 1)
  }

  /** Slots of the first n fields. */
  function SlotsBefore(fields: seq<Field>, n: nat): (s: nat)
    requires n <= |fields|
    ensures s <= n
  {
    if n == 0 then 0 else SlotOf(fields, n - 1) + 1
  }

  lemma {:induction false} SlotOfMonotonic(fields: seq<Field>, i: nat, j: nat)
    requires i <= j < |fields|
    ensures SlotOf(fields, i) <= SlotOf(fields, j)
    ensures SlotOf(fields, i) == SlotOf(fields, j) && i < j ==> fields[i].htype.OneOf? && fields[j].htype.OneOf?
    decreases j
  {
    if i < j {
      SlotOfMonotonic(fields, i, j - 1);
    }
  }

  /** Only members of one union share a slot. */
  lemma {:induction false} SharedSlot(fields: seq<Field>, i: nat, j: nat)
    requires i < |fields| && j < |fields| && i != j && SlotOf(fields, i) == SlotOf(fields, j)
    ensures fields[i].htype.OneOf? && fields[j].htype.OneOf?
  {
    SlotOfMonotonic(fields, if i < j then i else j, if i < j then j else i);
  }

  lemma {:induction false} SlotInRange(fields: seq<Field>, i: nat, n: nat)
    requires i < n <= |fields|
    ensures SlotOf(fields, i) < SlotsBefore(fields, n)
  {
    SlotOfMonotonic(fields, i, n - 1);
  }

  function RequiredBefore(fields: seq<Field>, n: nat): (count: nat)
    requires n <= |fields|
    ensures count <= n
  {
    if n == 0 then 0 else RequiredBefore(fields, n - 1) + (if fields[n - 1].htype.Required? then 1 else 0)
  }

  // ---------------------------------------------------------------------------------------------
  // Default values
  // ---------------------------------------------------------------------------------------------

  function ZeroValue(f: Field): Value {
    match f.ltype
    case Bytes(_) => Blob([])
    case String => Blob([])
    case FixedLengthBytes => Blob(seq(f.dataSize, _ => 0))
    case _ => Num(0)
  }

  function InitValue(f: Field): Value
    decreases f, 0
  {
    if f.ltype.Submessage? then Sub(InitMessage(f.sub))
    else if f.preset.Some? then f.preset.value
    else ZeroValue(f)
  }

  function InitSlot(f: Field): Slot
    decreases f, 1
  {
    match f.htype
    case Required => Plain(InitValue(f))
    case Optional => if f.Sized() then Tracked(false, InitValue(f)) else Plain(InitValue(f))
    case Repeated => if f.Sized() then Counted([]) else FixedCount(seq(f.arraySize, _ => InitValue(f)))
    case OneOf => Union(0, Num(0))
  }

  /** The struct pb_message_set_to_defaults leaves. */
  function InitMessage(fields: seq<Field>): (slots: seq<Slot>)
    ensures |slots| == SlotsBefore(fields, |fields|)
    decreases fields, |fields|, 1
  {
    InitSlots(fields, |fields|)
  }

  function InitSlots(fields: seq<Field>, n: nat): (slots: seq<Slot>)
    requires n <= |fields|
    ensures |slots| == SlotsBefore(fields, n)
    decreases fields, n, 0
  {
    if n == 0 then []
    else if Continues(fields, n - 1) then InitSlots(fields, n - 1)
    else InitSlots(fields, n - 1) + [InitSlot(fields[n - 1])]
  }

  lemma {:induction false} InitSlotsAt(fields: seq<Field>, n: nat, i: nat)
    requires i < n <= |fields|
    ensures SlotOf(fields, i) < |InitSlots(fields, n)|
    ensures InitSlots(fields, n)[SlotOf(fields, i)] == InitSlot(fields[i])
    decreases n
  {
    SlotInRange(fields, i, n);
    if i < n - 1 {
      InitSlotsAt(fields, n - 1, i);
    } else if Continues(fields, i) {
      InitSlotsAt(fields, n - 1, i - 1);
      assert InitSlot(fields[i]) == InitSlot(fields[i - 1]);
    }
  }

  /** Every field starts from its own default. */
  lemma {:induction false} InitMessageAt(fields: seq<Field>, i: nat)
    requires i < |fields|
    ensures SlotOf(fields, i) < |InitMessage(fields)|
    ensures InitMessage(fields)[SlotOf(fields, i)] == InitSlot(fields[i])
  {
    InitSlotsAt(fields, |fields|, i);
  }

  // ---------------------------------------------------------------------------------------------
  // The proto3 zero check
  // ---------------------------------------------------------------------------------------------

  /** pb_check_proto3_default_value */
  predicate IsProto3Default(f: Field, s: Slot)
    decreases f, 1
  {
    match f.htype
    case Required => false
    case Repeated => f.Sized() && s.Counted? && s.items == []
    case OneOf => s.Union? && s.which == 0
    case Optional =>
      if f.Sized() then s.Tracked? && !s.has
      else s.Plain? && IsZero(f, s.value)
  }

  predicate IsZero(f: Field, v: Value)
    decreases f, 0
  {
    match f.ltype
    case Bytes(_) => v.Blob? && v.data == []
    case String => v.Blob? && (v.data == [] || v.data[0] == 0)
    case FixedLengthBytes => f.dataSize == 0
    case Submessage => v.Sub? && AllDefault(f.sub, v.slots, 0)
    case _ => v.Num? && v.n == 0
  }

  predicate AllDefault(fields: seq<Field>, slots: seq<Slot>, i: nat)
    requires i <= |fields|
    decreases fields, |fields| - i, 0
  {
    i < |fields| ==>
      && SlotOf(fields, i) < |slots|
      && IsProto3Default(fields[i], slots[SlotOf(fields, i)])
      && AllDefault(fields, slots, i + 1)
  }

  lemma {:induction false} AllDefaultAt(fields: seq<Field>, slots: seq<Slot>, i: nat, j: nat)
    requires i <= j < |fields| && AllDefault(fields, slots, i)
    ensures SlotOf(fields, j) < |slots| && IsProto3Default(fields[j], slots[SlotOf(fields, j)])
    decreases j - i
  {
    if i < j {
      AllDefaultAt(fields, slots, i + 1, j);
    }
  }

  // ---------------------------------------------------------------------------------------------
  // Structs that match their descriptor
  // ---------------------------------------------------------------------------------------------

  /** Widths pb_enc_varint and its siblings know. */
  predicate IntegerSize(size: nat) {
    size == 1 || size == 2 || size == 4 || size == 8
  }

  /** Two to the number of bits of an integer of the given size. */
  function Modulus(size: nat): (m: nat)
    requires IntegerSize(size)
    ensures m > 0 && m % 2 == 0
  {
    if size == 1 then 0x100 else if size == 2 then 0x1_0000 else if size == 4 then TWO_TO_32 else TWO_TO_64
  }

  /** The numbers the C type of a numeric field can hold. */
  predicate NumberFits(f: Field, n: int) {
    match f.ltype
    case Bool => 0 <= n < 256
    case Varint => IntegerSize(f.dataSize) ==> -(Modulus(f.dataSize) / 2) <= n < Modulus(f.dataSize) / 2
    case UVarint => IntegerSize(f.dataSize) ==> 0 <= n < Modulus(f.dataSize)
    case SVarint => IntegerSize(f.dataSize) ==> -(Modulus(f.dataSize) / 2) <= n < Modulus(f.dataSize) / 2
    case Fixed32 => 0 <= n < TWO_TO_32
    case Fixed64 => 0 <= n < TWO_TO_64
    case _ => false
  }

  predicate ValueHasShape(f: Field, v: Value)
    decreases f, 0
  {
    match f.ltype
    case Bytes(_) => v.Blob?
    case String => v.Blob? && |v.data| <= f.dataSize
    case FixedLengthBytes => v.Blob? && |v.data| == f.dataSize
    case Submessage => v.Sub? && HasShape(f.sub, v.slots)
    case _ => v.Num? && NumberFits(f, v.n)
  }

  predicate SlotHasShape(f: Field, s: Slot)
    decreases f, 1
  {
    match f.htype
    case Required => s.Plain? && ValueHasShape(f, s.value)
    case Optional =>
      if f.Sized() then s.Tracked? && ValueHasShape(f, s.value)
      else s.Plain? && ValueHasShape(f, s.value)
    case Repeated =>
      if f.Sized() then s.Counted? && forall k | 0 <= k < |s.items| :: ValueHasShape(f, s.items[k])
      else s.FixedCount? && |s.items| == f.arraySize && forall k | 0 <= k < |s.items| :: ValueHasShape(f, s.items[k])
    case OneOf => s.Union? && (s.which == f.tag ==> ValueHasShape(f, s.value))
  }

  /** The struct has the C types its descriptor says; counts, sizes and which_ may hold anything. */
  predicate HasShape(fields: seq<Field>, slots: seq<Slot>)
    decreases fields, 0
  {
    && |slots| == SlotsBefore(fields, |fields|)
    && forall i | 0 <= i < |fields| ::
         SlotOf(fields, i) < |slots| && SlotHasShape(fields[i], slots[SlotOf(fields, i)])
  }

  lemma {:induction false} ShapeAt(fields: seq<Field>, slots: seq<Slot>, i: nat)
    requires HasShape(fields, slots) && i < |fields|
    ensures SlotOf(fields, i) < |slots| && SlotHasShape(fields[i], slots[SlotOf(fields, i)])
  {
  }

  // ---------------------------------------------------------------------------------------------
  // Well-formed descriptors
  // ---------------------------------------------------------------------------------------------

  /** Further members of a union follow one, and share its which_. */
  predicate JoinsUnion(fields: seq<Field>, i: nat)
    requires i < |fields|
  {
    Continues(fields, i) && fields[i].sizeOffset == fields[i - 1].sizeOffset
  }

  /** What walking over a descriptor relies on: distinct nonzero tags, union members after a union member, numbers
      that fit pb_size_t. */
  predicate Navigable(fields: seq<Field>)
    decreases fields, 0
  {
    && (forall i | 0 <= i < |fields| :: NavigableField(fields[i]))
    && (forall i, j | 0 <= i < j < |fields| :: fields[i].tag != fields[j].tag)
    && (forall i | 0 <= i < |fields| :: fields[i].offset.InUnion? ==> JoinsUnion(fields, i))
  }

  predicate NavigableField(f: Field)
    decreases f, 0
  {
    && 0 < f.tag < TWO_TO_32 && f.dataSize < TWO_TO_32 && f.arraySize < TWO_TO_32
    && (f.ltype.Submessage? ==> Navigable(f.sub))
  }

  lemma {:induction false} NavigableAt(fields: seq<Field>, i: nat)
    requires Navigable(fields) && i < |fields|
    ensures NavigableField(fields[i])
  {
  }

  /** What the generator emits for static allocation: besides, has_ only where the rule allows it, tags of the
      protocol's range, known integer widths, room for the header of a bytes field. */
  predicate WellFormed(fields: seq<Field>)
    decreases fields, 0
  {
    && (forall i | 0 <= i < |fields| :: WellFormedField(fields[i]))
    && (forall i, j | 0 <= i < j < |fields| :: fields[i].tag != fields[j].tag)
    && (forall i | 0 <= i < |fields| :: fields[i].offset.InUnion? ==> JoinsUnion(fields, i))
  }

  predicate WellFormedField(f: Field)
    decreases f, 0
  {
    && 0 < f.tag < 0x2000_0000
    && f.dataSize < TWO_TO_32 && f.arraySize < TWO_TO_32
    && (f.htype.Required? ==> !f.Sized())
    && (f.htype.OneOf? ==> f.Sized())
    && (f.ltype.Varint? || f.ltype.UVarint? || f.ltype.SVarint? ==> IntegerSize(f.dataSize))
    && (f.ltype.Bytes? ==> f.ltype.header <= f.dataSize)
    && (f.ltype.Submessage? ==> WellFormed(f.sub) && f.preset.None?)
    && (f.preset.Some? ==> ValueHasShape(f, f.preset.value))
    && (f.preset.Some? && f.ltype.Bytes? ==> |f.preset.value.data| + f.ltype.header <= f.dataSize)
  }

  lemma {:induction false} WellFormedIsNavigable(fields: seq<Field>)
    requires WellFormed(fields)
    ensures Navigable(fields)
    decreases fields
  {
    forall i | 0 <= i < |fields|
      ensures NavigableField(fields[i])
    {
      if fields[i].ltype.Submessage? {
        WellFormedIsNavigable(fields[i].sub);
      }
    }
  }

  lemma {:induction false} WellFormedFieldIsNavigable(f: Field)
    requires WellFormedField(f)
    ensures NavigableField(f)
  {
    if f.ltype.Submessage? {
      WellFormedIsNavigable(f.sub);
    }
  }

  lemma {:induction false} FieldsWellFormed(fields: seq<Field>, i: nat)
    requires WellFormed(fields) && i < |fields|
    ensures WellFormedField(fields[i])
  {
  }

  // ---------------------------------------------------------------------------------------------
  // The struct of defaults matches its descriptor
  // ---------------------------------------------------------------------------------------------

  lemma {:induction false} ShapeLength(fields: seq<Field>, slots: seq<Slot>)
    requires HasShape(fields, slots)
    ensures |slots| == SlotsBefore(fields, |fields|)
  {
  }

  lemma {:induction false} InitHasShape(fields: seq<Field>)
    requires WellFormed(fields)
    ensures HasShape(fields, InitMessage(fields))
    decreases fields, 0
  {
    hide InitMessage, InitSlot, InitValue, ValueHasShape;
    forall i | 0 <= i < |fields|
      ensures SlotOf(fields, i) < |InitMessage(fields)|
      ensures SlotHasShape(fields[i], InitMessage(fields)[SlotOf(fields, i)])
    {
      InitMessageAt(fields, i);
      InitValueHasShape(fields[i]);
      InitSlotHasShape(fields[i]);
    }
    InitLength(fields);
  }

  lemma {:induction false} InitLength(fields: seq<Field>)
    ensures |InitMessage(fields)| == SlotsBefore(fields, |fields|)
  {
  }

  lemma {:induction false} InitSlotHasShape(f: Field)
    requires WellFormedField(f) && ValueHasShape(f, InitValue(f))
    ensures SlotHasShape(f, InitSlot(f))
  {
    hide InitValue, ValueHasShape;
  }

  lemma {:induction false} InitValueHasShape(f: Field)
    requires WellFormedField(f)
    ensures ValueHasShape(f, InitValue(f))
    decreases f, 0
  {
    if f.ltype.Submessage? {
      InitHasShape(f.sub);
    }
  }
}
