/** The bytes the encoder emits for a struct: what pb_encode writes to a stream with room for all of it.
    None stands for an encoding error. A struct that does not match its descriptor is undefined behaviour in C
    and counts as an error here. */
module Encoding {
  import opened Wrappers
  import opened Wire
  import opened Descriptors

  datatype WireType = WT_VARINT | WT_64BIT | WT_STRING | WT_32BIT
  {
    function Code(): nat {
      match this
      case WT_VARINT => 0
      case WT_64BIT => 1
      case WT_STRING => 2
      case WT_32BIT => 5
    }
  }

  function WireTypeOf(l: LType): WireType {
    match l
    case Bool => WT_VARINT
    case Varint => WT_VARINT
    case UVarint => WT_VARINT
    case SVarint => WT_VARINT
    case Fixed32 => WT_32BIT
    case Fixed64 => WT_64BIT
    case _ => WT_STRING
  }

  /** `((uint64_t)field_number << 3) | wiretype` as a varint */
  function Key(tag: nat, wt: WireType): seq<Byte> {
    VarintBytes(8 * tag + wt.Code())
  }

  /** A size_t length and the payload. */
  function Delimited(payload: seq<Byte>): seq<Byte> {
    VarintBytes(|payload| % TWO_TO_64) + payload
  }

  function Join(a: Option<seq<Byte>>, b: Option<seq<Byte>>): Option<seq<Byte>> {
    if a.Some? && b.Some? then Some(a.value + b.value) else None
  }

  function EncodeNumber(f: Field, n: int): Option<seq<Byte>> {
    match f.ltype
    case Bool => Some(VarintBytes(if n != 0 then 1 else 0))
    case Varint => if IntegerSize(f.dataSize) then Some(VarintBytes(ToUInt64(n))) else None
    case UVarint => if IntegerSize(f.dataSize) then Some(VarintBytes(ToUInt64(n))) else None
    case SVarint => if IntegerSize(f.dataSize) then Some(VarintBytes(ZigZag(n))) else None
    case Fixed32 => Some(LittleEndian(n % TWO_TO_32, 4))
    case Fixed64 => Some(LittleEndian(n % TWO_TO_64, 8))
    case _ => None
  }

  /** Bytes before the terminator, or all of a string that has none. */
  function CStringLength(s: seq<Byte>): (n: nat)
    ensures n <= |s|
    ensures forall k | 0 <= k < n :: s[k] != 0
    ensures n < |s| ==> s[n] == 0
  {
    if s == [] || s[0] == 0 then 0 else 1 + CStringLength(s[1..])
  }

  function EncodeValue(f: Field, v: Value): Option<seq<Byte>>
    decreases f, 0
  {
    match f.ltype
    case Bytes(header) =>
      if v.Blob? && |v.data| + header <= f.dataSize then Some(Delimited(v.data)) else None
    case String =>
      if v.Blob? then Some(Delimited(v.data[..CStringLength(v.data)])) else None
    case FixedLengthBytes =>
      if v.Blob? then Some(Delimited(v.data)) else None
    case Submessage =>
      if v.Sub? then
        var payload :- EncodeMessage(f.sub, v.slots);
        Some(Delimited(payload))
      else None
    case _ => if v.Num? then EncodeNumber(f, v.n) else None
  }

  /** Key and value. */
  function EncodeRecord(f: Field, v: Value): Option<seq<Byte>>
    decreases f, 1
  {
    var value :- EncodeValue(f, v);
    Some(Key(f.tag, WireTypeOf(f.ltype)) + value)
  }

  /** Items first..|items|, each as its own record; */
  function EncodeUnpacked(f: Field, items: seq<Value>, first: nat): Option<seq<Byte>>
    requires first <= |items|
    decreases f, 2, |items| - first
  {
    if first == |items| then Some([])
    else Join(EncodeRecord(f, items[first]), EncodeUnpacked(f, items, first + 1))
  }

  /** or the values alone, one after the other. */
  function EncodePacked(f: Field, items: seq<Value>, first: nat): Option<seq<Byte>>
    requires first <= |items|
    decreases f, 2, |items| - first
  {
    if first == |items| then Some([])
    else Join(EncodeValue(f, items[first]), EncodePacked(f, items, first + 1))
  }

  function EncodeArray(f: Field, items: seq<Value>): Option<seq<Byte>>
    decreases f, 3
  {
    if items == [] then Some([])
    else if |items| > f.arraySize then None
    else if f.ltype.Packable() then
      var payload :- EncodePacked(f, items, 0);
      Some(Key(f.tag, WT_STRING) + Delimited(payload))
    else EncodeUnpacked(f, items, 0)
  }

  function EncodeField(f: Field, s: Slot): Option<seq<Byte>>
    decreases f, 4
  {
    match f.htype
    case Required => if s.Plain? then EncodeRecord(f, s.value) else None
    case Optional =>
      if f.Sized() then
        if !s.Tracked? then None else if s.has then EncodeRecord(f, s.value) else Some([])
      else
        if !s.Plain? then None else if IsProto3Default(f, s) then Some([]) else EncodeRecord(f, s.value)
    case Repeated =>
      if f.Sized() then
        if s.Counted? then EncodeArray(f, s.items) else None
      else
        if s.FixedCount? && |s.items| == f.arraySize then EncodeArray(f, s.items) else None
    case OneOf =>
      if !s.Union? then None else if s.which == f.tag then EncodeRecord(f, s.value) else Some([])
  }

  /** Fields first..|fields| in descriptor order. */
  function EncodeFrom(fields: seq<Field>, slots: seq<Slot>, first: nat): Option<seq<Byte>>
    requires first <= |fields| && |slots| == SlotsBefore(fields, |fields|)
    decreases fields, |fields| - first
  {
    if first == |fields| then Some([])
    else
      SlotInRange(fields, first, |fields|);
      Join(EncodeField(fields[first], slots[SlotOf(fields, first)]), EncodeFrom(fields, slots, first + 1))
  }

  function EncodeMessage(fields: seq<Field>, slots: seq<Slot>): Option<seq<Byte>>
    decreases fields, |fields| + 1
  {
    if |slots| == SlotsBefore(fields, |fields|) then EncodeFrom(fields, slots, 0) else None
  }

  /** pb_encode_delimited: the bytes of a submessage. */
  function EncodeDelimited(fields: seq<Field>, slots: seq<Slot>): Option<seq<Byte>> {
    var payload :- EncodeMessage(fields, slots);
    Some(Delimited(payload))
  }

  /** pb_encode_nullterminated */
  function EncodeNullTerminated(fields: seq<Field>, slots: seq<Slot>): Option<seq<Byte>> {
    Join(EncodeMessage(fields, slots), Some([0]))
  }

  // ---------------------------------------------------------------------------------------------
  // When encoding succeeds
  // ---------------------------------------------------------------------------------------------

  /** The struct holds no corrupt count or size: arrays within array_size, bytes within their buffer. */
  predicate InBounds(fields: seq<Field>, slots: seq<Slot>)
    requires |slots| == SlotsBefore(fields, |fields|)
    decreases fields, 0
  {
    forall i | 0 <= i < |fields| ::
      SlotOf(fields, i) < |slots| && SlotInBounds(fields[i], slots[SlotOf(fields, i)])
  }

  /** Only what is present is looked at. */
  predicate SlotInBounds(f: Field, s: Slot)
    decreases f, 1
  {
    match s
    case Plain(v) => IsProto3Default(f, s) || ValueInBounds(f, v)
    case Tracked(has, v) => has ==> ValueInBounds(f, v)
    case Counted(items) => |items| <= f.arraySize && forall k | 0 <= k < |items| :: ValueInBounds(f, items[k])
    case FixedCount(items) => forall k | 0 <= k < |items| :: ValueInBounds(f, items[k])
    case Union(which, v) => which == f.tag ==> ValueInBounds(f, v)
  }

  predicate ValueInBounds(f: Field, v: Value)
    decreases f, 0
  {
    match f.ltype
    case Bytes(header) => v.Blob? && |v.data| + header <= f.dataSize
    case Submessage => v.Sub? && |v.slots| == SlotsBefore(f.sub, |f.sub|) && InBounds(f.sub, v.slots)
    case _ => true
  }

  /** pb_encode fails on a well-formed descriptor only for a corrupt count or size. */
  lemma {:induction false} EncodesIffInBounds(fields: seq<Field>, slots: seq<Slot>)
    requires WellFormed(fields) && HasShape(fields, slots)
    ensures EncodeMessage(fields, slots).Some? <==> InBounds(fields, slots)
    decreases fields, 0, 0
  {
    EncodesFrom(fields, slots, 0);
    hide EncodeField, SlotInBounds, SlotHasShape, EncodeFrom;
    forall i | 0 <= i < |fields|
      ensures SlotOf(fields, i) < |slots|
      ensures EncodesAt(fields, slots, i) <==> SlotInBounds(fields[i], slots[SlotOf(fields, i)])
    {
      FieldEncodesIffInBounds(fields[i], slots[SlotOf(fields, i)]);
    }
  }

  predicate EncodesAt(fields: seq<Field>, slots: seq<Slot>, i: nat)
    requires i < |fields|
  {
    SlotOf(fields, i) < |slots| && EncodeField(fields[i], slots[SlotOf(fields, i)]).Some?
  }

  lemma {:induction false} EncodesFrom(fields: seq<Field>, slots: seq<Slot>, first: nat)
    requires first <= |fields| && |slots| == SlotsBefore(fields, |fields|)
    ensures EncodeFrom(fields, slots, first).Some? <==> forall i | first <= i < |fields| :: EncodesAt(fields, slots, i)
    decreases |fields| - first
  {
    if first < |fields| {
      SlotInRange(fields, first, |fields|);
      EncodesFrom(fields, slots, first + 1);
      assert EncodeFrom(fields, slots, first).Some? <==>
             EncodesAt(fields, slots, first) && EncodeFrom(fields, slots, first + 1).Some? by {
        hide EncodeField;
      }
      hide EncodeFrom, EncodesAt;
      if EncodesAt(fields, slots, first) && forall i | first + 1 <= i < |fields| :: EncodesAt(fields, slots, i) {
        forall i | first <= i < |fields|
          ensures EncodesAt(fields, slots, i)
        {
        }
      }
    }
  }

  lemma {:induction false} FieldEncodesIffInBounds(f: Field, s: Slot)
    requires WellFormedField(f) && SlotHasShape(f, s)
    ensures EncodeField(f, s).Some? <==> SlotInBounds(f, s)
    decreases f, 2, 0
  {
    match s
    case Plain(v) => ValueEncodesIffInBounds(f, v);
    case Tracked(has, v) => ValueEncodesIffInBounds(f, v);
    case Union(which, v) => if which == f.tag { ValueEncodesIffInBounds(f, v); }
    case Counted(items) => ItemsEncodeIffInBounds(f, items, 0);
    case FixedCount(items) => ItemsEncodeIffInBounds(f, items, 0);
  }

  lemma {:induction false} PackableInBounds(f: Field, v: Value)
    requires f.ltype.Packable()
    ensures ValueInBounds(f, v)
  {
  }

  lemma {:induction false} ItemsEncodeIffInBounds(f: Field, items: seq<Value>, first: nat)
    requires WellFormedField(f) && first <= |items|
    requires forall k | 0 <= k < |items| :: ValueHasShape(f, items[k])
    ensures EncodeUnpacked(f, items, first).Some? <==> forall k | first <= k < |items| :: ValueInBounds(f, items[k])
    ensures f.ltype.Packable() ==> EncodePacked(f, items, first).Some?
    decreases f, 1, |items| - first
  {
    hide EncodeValue, ValueInBounds, ValueHasShape, WellFormedField;
    if first < |items| {
      if f.ltype.Packable() { PackableInBounds(f, items[first]); }
      ValueEncodesIffInBounds(f, items[first]);
      ItemsEncodeIffInBounds(f, items, first + 1);
    }
  }

  lemma {:induction false} ValueEncodesIffInBounds(f: Field, v: Value)
    requires WellFormedField(f) && ValueHasShape(f, v)
    ensures EncodeValue(f, v).Some? <==> ValueInBounds(f, v)
    decreases f, 0, 0
  {
    if f.ltype.Submessage? {
      EncodesIffInBounds(f.sub, v.slots);
    }
  }
}
