/** Decoding what was encoded: which struct comes back, and exactly when it is the one that was sent. */
module RoundTrip {
  import opened Wrappers
  import opened Wire
  import opened Descriptors
  import opened Encoding
  import opened Decoding
  import opened Merging

  // ---------------------------------------------------------------------------------------------
  // The struct that comes back
  // ---------------------------------------------------------------------------------------------

  /** Whether the encoder writes anything for the field. */
  predicate Present(f: Field, s: Slot) {
    match f.htype
    case Required => true
    case Optional => if f.Sized() then s.Tracked? && s.has else !IsProto3Default(f, s)
    case Repeated => (s.Counted? || s.FixedCount?) && s.items != []
    case OneOf => s.Union? && s.which == f.tag
  }

  function RestoredValue(f: Field, v: Value): Value
    decreases f, 0
  {
    match f.ltype
    case Bool => if v.Num? then Num(if v.n != 0 then 1 else 0) else v
    case String => if v.Blob? then Blob(v.data[..CStringLength(v.data)]) else v
    case Submessage =>
      if v.Sub? && |v.slots| == SlotsBefore(f.sub, |f.sub|) then Sub(Restored(f.sub, v.slots)) else v
    case _ => v
  }

  function RestoredItems(f: Field, items: seq<Value>): (r: seq<Value>)
    ensures |r| == |items|
    ensures forall k | 0 <= k < |items| :: r[k] == RestoredValue(f, items[k])
    decreases f, 1, |items|
  {
    if items == [] then [] else [RestoredValue(f, items[0])] + RestoredItems(f, items[1..])
  }

  function RestoredSlot(f: Field, s: Slot): Slot
    decreases f, 2
  {
    match s
    case Plain(v) => Plain(RestoredValue(f, v))
    case Tracked(has, v) => Tracked(has, RestoredValue(f, v))
    case Counted(items) => Counted(RestoredItems(f, items))
    case FixedCount(items) => FixedCount(RestoredItems(f, items))
    case Union(which, v) => Union(which, RestoredValue(f, v))
  }

  /** Present fields restored, the others at their defaults. */
  function Restored(fields: seq<Field>, slots: seq<Slot>): (r: seq<Slot>)
    requires |slots| == SlotsBefore(fields, |fields|)
    ensures |r| == |slots|
    decreases fields, |fields| + 1
  {
    RestoredUpTo(fields, slots, |fields|)
  }

  /** The struct once the first n fields have come back. */
  function RestoredUpTo(fields: seq<Field>, slots: seq<Slot>, n: nat): (r: seq<Slot>)
    requires |slots| == SlotsBefore(fields, |fields|) && n <= |fields|
    ensures |r| == |slots|
    decreases fields, n
  {
    if n == 0 then InitMessage(fields)
    else
      SlotInRange(fields, n - 1, |fields|);
      var s := SlotOf(fields, n - 1);
      var prior := RestoredUpTo(fields, slots, n - 1);
      if Present(fields[n - 1], slots[s]) then prior[s := RestoredSlot(fields[n - 1], slots[s])] else prior
  }

  /** A slot no present field among the first n is stored in still holds its default. */
  lemma {:induction false} StillInitial(fields: seq<Field>, slots: seq<Slot>, n: nat, i: nat)
    requires |slots| == SlotsBefore(fields, |fields|) && n <= |fields| && i < |fields|
    requires SlotOf(fields, i) < |slots|
    requires forall j | 0 <= j < n && SlotOf(fields, j) == SlotOf(fields, i) :: !Present(fields[j], slots[SlotOf(fields, i)])
    ensures RestoredUpTo(fields, slots, n)[SlotOf(fields, i)] == InitSlot(fields[i])
  {
    hide InitMessage, InitSlot, RestoredSlot, Present;
    if n == 0 {
      InitMessageAt(fields, i);
    } else {
      StillInitial(fields, slots, n - 1, i);
    }
  }

  /** A present field that no later one overwrites is restored. */
  lemma {:induction false} RestoredAt(fields: seq<Field>, slots: seq<Slot>, n: nat, i: nat)
    requires |slots| == SlotsBefore(fields, |fields|) && i < n <= |fields|
    requires SlotOf(fields, i) < |slots| && Present(fields[i], slots[SlotOf(fields, i)])
    requires forall j | i < j < n && SlotOf(fields, j) == SlotOf(fields, i) :: !Present(fields[j], slots[SlotOf(fields, i)])
    ensures RestoredUpTo(fields, slots, n)[SlotOf(fields, i)] == RestoredSlot(fields[i], slots[SlotOf(fields, i)])
    decreases n
  {
    hide InitMessage, InitSlot, RestoredSlot, Present;
    if i < n - 1 {
      RestoredAt(fields, slots, n - 1, i);
    }
  }

  /** At most one of the fields stored in a slot is present. */
  lemma {:induction false} OnePresent(fields: seq<Field>, slots: seq<Slot>, i: nat, j: nat)
    requires WellFormed(fields) && i < |fields| && j < |fields| && i != j
    requires SlotOf(fields, i) == SlotOf(fields, j) < |slots|
    requires Present(fields[i], slots[SlotOf(fields, i)])
    ensures !Present(fields[j], slots[SlotOf(fields, j)])
  {
    SharedSlot(fields, i, j);
  }

  // ---------------------------------------------------------------------------------------------
  // Structs that can be sent
  // ---------------------------------------------------------------------------------------------

  /** Counts and sizes within their limits, strings terminated inside their buffer, and lengths that fit the
      32 bits the decoder reads them in. Only what is present matters. */
  predicate Sendable(fields: seq<Field>, slots: seq<Slot>)
    decreases fields, 0
  {
    && |slots| == SlotsBefore(fields, |fields|)
    && forall i | 0 <= i < |fields| ::
         SlotOf(fields, i) < |slots| && SlotSendable(fields[i], slots[SlotOf(fields, i)])
  }

  predicate SlotSendable(f: Field, s: Slot)
    decreases f, 1
  {
    Present(f, s) ==>
      match s
      case Plain(v) => ValueSendable(f, v)
      case Tracked(_, v) => ValueSendable(f, v)
      case Counted(items) => ItemsSendable(f, items)
      case FixedCount(items) => ItemsSendable(f, items)
      case Union(_, v) => ValueSendable(f, v)
  }

  predicate ItemsSendable(f: Field, items: seq<Value>)
    decreases f, 1, 0
  {
    && |items| <= f.arraySize
    && (forall k | 0 <= k < |items| :: ValueSendable(f, items[k]))
    && (f.ltype.Packable() ==> PackedSize(EncodePacked(f, items, 0)))
  }

  predicate PackedSize(payload: Option<seq<Byte>>) {
    payload.Some? ==> |payload.value| < TWO_TO_32
  }

  predicate ValueSendable(f: Field, v: Value)
    decreases f, 0
  {
    match f.ltype
    case Bytes(header) => v.Blob? && |v.data| + header <= f.dataSize
    case String => v.Blob? && CStringLength(v.data) < f.dataSize
    case Submessage => v.Sub? && Sendable(f.sub, v.slots) && PackedSize(EncodeMessage(f.sub, v.slots))
    case _ => true
  }

  // ---------------------------------------------------------------------------------------------
  // Values
  // ---------------------------------------------------------------------------------------------

  /** Widening to 64 bits and narrowing back loses nothing that fits the field. */
  lemma {:induction false} NarrowsBack(n: int, size: nat)
    requires IntegerSize(size) && -(Modulus(size) / 2) <= n < Modulus(size) / 2
    ensures (if size == 8 then ToInt64(ToUInt64(n)) else ToInt32(ToUInt64(n))) == n
    ensures ToSigned(n, size) == n
    ensures -TWO_TO_63 <= n < TWO_TO_63
  {
    hide ToInt64, ToInt32, ToUInt64;
    WrapsBack(n, size);
    SignExtends(n);
  }

  lemma {:induction false} SignExtends(n: int)
    requires -TWO_TO_63 <= n < TWO_TO_63
    ensures ToInt64(ToUInt64(n)) == n
    ensures -TWO_TO_31 <= n < TWO_TO_31 ==> ToInt32(ToUInt64(n)) == n
  {
    if n < 0 {
      assert ToUInt64(n) == n + TWO_TO_64;
      assert n + TWO_TO_64 == n + TWO_TO_32 + TWO_TO_32 * (TWO_TO_32 - 1);
    }
  }

  lemma {:induction false} WrapsBack(n: int, size: nat)
    requires IntegerSize(size) && -(Modulus(size) / 2) <= n < Modulus(size) / 2
    ensures n % Modulus(size) == (if n < 0 then n + Modulus(size) else n)
  {
    if size == 1 {
      assert n % 0x100 == (if n < 0 then n + 0x100 else n);
    } else if size == 2 {
      assert n % 0x1_0000 == (if n < 0 then n + 0x1_0000 else n);
    } else if size == 4 {
      assert n % TWO_TO_32 == (if n < 0 then n + TWO_TO_32 else n);
    } else {
      assert n % TWO_TO_64 == (if n < 0 then n + TWO_TO_64 else n);
    }
  }

  lemma {:induction false} UnsignedFits(n: int, size: nat)
    requires IntegerSize(size) && 0 <= n < Modulus(size)
    ensures ToUInt64(n) == n && n % Modulus(size) == n
  {
  }

  lemma {:induction false} FixedNumberRoundTrip(v: nat, t: seq<Byte>)
    ensures v < TWO_TO_32 ==> ReadFixed(LittleEndian(v % TWO_TO_32, 4) + t, 4) == Ok(v, t)
    ensures v < TWO_TO_64 ==> ReadFixed(LittleEndian(v % TWO_TO_64, 8) + t, 8) == Ok(v, t)
  {
    hide Pow2, ReadFixed, LittleEndian;
    PowerValues();
    if v < TWO_TO_32 { FixedRoundTrip(v, 4, t); }
    if v < TWO_TO_64 { FixedRoundTrip(v, 8, t); }
  }

  lemma {:induction false} NumberRoundTrip(f: Field, n: int, t: seq<Byte>)
    requires f.ltype.Packable() && WellFormedField(f) && NumberFits(f, n)
    ensures EncodeNumber(f, n).Some? && EncodeNumber(f, n).value != []
    ensures DecodeNumber(f, EncodeNumber(f, n).value + t) == Ok(RestoredValue(f, Num(n)).n, t)
  {
    hide ReadVarint32, ReadVarint64, VarintBytes, LittleEndian, ReadFixed, ZigZag, UnZigZag, ToUInt64, ToInt64, ToInt32,
         ToSigned;
    match f.ltype
    case Bool => Varint32RoundTrip(if n != 0 then 1 else 0, t);
    case Varint =>
      NarrowsBack(n, f.dataSize);
      Varint64RoundTrip(ToUInt64(n), t);
    case UVarint =>
      assert ToUInt64(n) == n && n % Modulus(f.dataSize) == n by { UnsignedFits(n, f.dataSize); }
      Varint64RoundTrip(ToUInt64(n), t);
    case SVarint =>
      NarrowsBack(n, f.dataSize);
      ZigZagInverse(n);
      Varint64RoundTrip(ZigZag(n), t);
    case Fixed32 => FixedNumberRoundTrip(n, t);
    case Fixed64 => FixedNumberRoundTrip(n, t);
  }

  lemma {:induction false} BlobRoundTrip(f: Field, data: seq<Byte>, t: seq<Byte>)
    requires f.dataSize < TWO_TO_32
    requires match f.ltype
             case Bytes(header) => |data| + header <= f.dataSize
             case String => |data| < f.dataSize
             case FixedLengthBytes => |data| == f.dataSize
             case _ => false
    ensures DecodeBlob(f, Delimited(data) + t) == Ok(data, t)
  {
    hide ReadVarint32, VarintBytes;
    assert |data| % TWO_TO_64 == |data|;
    Varint32RoundTrip(|data|, data + t);
    assert Delimited(data) + t == VarintBytes(|data|) + (data + t);
    assert (data + t)[..|data|] == data && (data + t)[|data|..] == t;
    if |data| == 0 {
      assert data + t == t;
      assert seq(f.dataSize, _ => 0) == data || !f.ltype.FixedLengthBytes?;
    }
  }

  lemma {:induction false} PackedRoundTrip(f: Field, items: seq<Value>, first: nat, room: nat)
    requires f.ltype.Packable() && WellFormedField(f) && first <= |items| && room >= |items| - first
    requires forall k | 0 <= k < |items| :: ValueHasShape(f, items[k])
    ensures EncodePacked(f, items, first).Some?
    ensures DecodePacked(f, room, EncodePacked(f, items, first).value) == Some(RestoredItems(f, items[first..]))
    decreases |items| - first
  {
    hide DecodeNumber, EncodeNumber;
    if first < |items| {
      PackedRoundTrip(f, items, first + 1, room - 1);
      NumberRoundTrip(f, items[first].n, EncodePacked(f, items, first + 1).value);
      assert EncodeValue(f, items[first]) == EncodeNumber(f, items[first].n);
      assert items[first..][1..] == items[first + 1..];
      assert RestoredValue(f, items[first]) == Num(RestoredValue(f, items[first]).n);
    }
  }

  // ---------------------------------------------------------------------------------------------
  // The struct a message is merged into
  // ---------------------------------------------------------------------------------------------

  /** What decoding a value makes of the one in place: a submessage is merged, anything else replaced. */
  function MergedValue(f: Field, prior: Value, v: Value): Value
    decreases f, 0
  {
    if f.ltype.Submessage? && !f.htype.Repeated? then
      if prior.Sub? && v.Sub? && |prior.slots| == |v.slots| == SlotsBefore(f.sub, |f.sub|)
      then Sub(Merged(f.sub, prior.slots, v.slots))
      else v
    else RestoredValue(f, v)
  }

  /** What a union holds for one of its members: the member's own value, or its defaults. */
  function MemberValue(f: Field, which: nat, value: Value): Value {
    if f.ltype.Submessage? && which != f.tag then Sub(InitMessage(f.sub)) else value
  }

  /** Items of a repeated field are appended, a fixed-count array is replaced, a oneof switches to the member sent. */
  function MergedSlot(f: Field, p: Slot, s: Slot): Slot
    decreases f, 1
  {
    match (p, s)
    case (Plain(a), Plain(b)) => Plain(MergedValue(f, a, b))
    case (Tracked(_, a), Tracked(_, b)) => Tracked(true, MergedValue(f, a, b))
    case (Counted(a), Counted(b)) => Counted(a + RestoredItems(f, b))
    case (FixedCount(_), FixedCount(b)) => FixedCount(RestoredItems(f, b))
    case (Union(which, a), Union(_, b)) => Union(f.tag, MergedValue(f, MemberValue(f, which, a), b))
    case _ => s
  }

  /** Fields present in the message merged into the struct, the others as the struct has them. */
  function Merged(fields: seq<Field>, prior: seq<Slot>, slots: seq<Slot>): (r: seq<Slot>)
    requires |prior| == |slots| == SlotsBefore(fields, |fields|)
    ensures |r| == |slots|
    decreases fields, |fields| + 1
  {
    MergedUpTo(fields, prior, slots, |fields|)
  }

  function MergedUpTo(fields: seq<Field>, prior: seq<Slot>, slots: seq<Slot>, n: nat): (r: seq<Slot>)
    requires |prior| == |slots| == SlotsBefore(fields, |fields|) && n <= |fields|
    ensures |r| == |slots|
    decreases fields, n
  {
    if n == 0 then prior
    else
      SlotInRange(fields, n - 1, |fields|);
      var s := SlotOf(fields, n - 1);
      var before := MergedUpTo(fields, prior, slots, n - 1);
      if Present(fields[n - 1], slots[s]) then before[s := MergedSlot(fields[n - 1], before[s], slots[s])] else before
  }

  /** The arrays have room for the items of both. */
  predicate MergeFits(fields: seq<Field>, prior: seq<Slot>, slots: seq<Slot>)
    decreases fields, 1
  {
    && |prior| == |slots| == SlotsBefore(fields, |fields|)
    && forall i | 0 <= i < |fields| :: FitsAt(fields, prior, slots, i)
  }

  predicate FitsAt(fields: seq<Field>, prior: seq<Slot>, slots: seq<Slot>, i: nat)
    requires |prior| == |slots| && i < |fields|
    decreases fields, 0
  {
    SlotOf(fields, i) < |slots| && SlotMergeFits(fields[i], prior[SlotOf(fields, i)], slots[SlotOf(fields, i)])
  }

  predicate SlotMergeFits(f: Field, p: Slot, s: Slot)
    decreases f, 1
  {
    Present(f, s) ==>
      match (p, s)
      case (Plain(a), Plain(b)) => ValueMergeFits(f, a, b)
      case (Tracked(_, a), Tracked(_, b)) => ValueMergeFits(f, a, b)
      case (Counted(a), Counted(b)) => |a| + |b| <= f.arraySize
      case (Union(which, a), Union(_, b)) => ValueMergeFits(f, MemberValue(f, which, a), b)
      case _ => true
  }

  predicate ValueMergeFits(f: Field, prior: Value, v: Value)
    decreases f, 0
  {
    f.ltype.Submessage? && !f.htype.Repeated? && prior.Sub? && v.Sub? ==> MergeFits(f.sub, prior.slots, v.slots)
  }

  /** A slot no present field among the first n is stored in is as it was. */
  lemma {:induction false} StillPrior(fields: seq<Field>, prior: seq<Slot>, slots: seq<Slot>, n: nat, i: nat)
    requires |prior| == |slots| == SlotsBefore(fields, |fields|) && n <= |fields| && i < |fields|
    requires SlotOf(fields, i) < |slots|
    requires forall j | 0 <= j < n && SlotOf(fields, j) == SlotOf(fields, i) :: !Present(fields[j], slots[SlotOf(fields, i)])
    ensures MergedUpTo(fields, prior, slots, n)[SlotOf(fields, i)] == prior[SlotOf(fields, i)]
  {
    hide MergedSlot, Present;
    if n > 0 {
      StillPrior(fields, prior, slots, n - 1, i);
    }
  }

  lemma {:induction false} PriorWhenReached(fields: seq<Field>, prior: seq<Slot>, slots: seq<Slot>, i: nat)
    requires WellFormed(fields) && |prior| == |slots| == SlotsBefore(fields, |fields|) && i < |fields|
    requires SlotOf(fields, i) < |slots| && Present(fields[i], slots[SlotOf(fields, i)])
    ensures MergedUpTo(fields, prior, slots, i)[SlotOf(fields, i)] == prior[SlotOf(fields, i)]
  {
    hide Present, MergedUpTo;
    forall j | 0 <= j < i && SlotOf(fields, j) == SlotOf(fields, i)
      ensures !Present(fields[j], slots[SlotOf(fields, i)])
    {
      OnePresent(fields, slots, i, j);
    }
    StillPrior(fields, prior, slots, i, i);
  }

  lemma {:induction false} MergeOne(fields: seq<Field>, prior: seq<Slot>, slots: seq<Slot>, i: nat)
    requires WellFormed(fields) && |prior| == |slots| == SlotsBefore(fields, |fields|) && i < |fields|
    requires SlotOf(fields, i) < |slots| && Present(fields[i], slots[SlotOf(fields, i)])
    ensures var s := SlotOf(fields, i);
            MergedUpTo(fields, prior, slots, i + 1)
              == MergedUpTo(fields, prior, slots, i)[s := MergedSlot(fields[i], prior[s], slots[s])]
  {
    hide Present, MergedSlot;
    PriorWhenReached(fields, prior, slots, i);
  }

  /** Field by field: what is present is merged with what was there ... */
  lemma {:induction false} MergedAt(fields: seq<Field>, prior: seq<Slot>, slots: seq<Slot>, n: nat, i: nat)
    requires WellFormed(fields) && |prior| == |slots| == SlotsBefore(fields, |fields|) && i < n <= |fields|
    requires SlotOf(fields, i) < |slots| && Present(fields[i], slots[SlotOf(fields, i)])
    ensures var s := SlotOf(fields, i);
            MergedUpTo(fields, prior, slots, n)[s] == MergedSlot(fields[i], prior[s], slots[s])
    decreases n
  {
    hide Present, MergedSlot, WellFormed;
    if i < n - 1 {
      MergedAt(fields, prior, slots, n - 1, i);
      if SlotOf(fields, n - 1) == SlotOf(fields, i) {
        OnePresent(fields, slots, i, n - 1);
      }
    } else {
      MergeOne(fields, prior, slots, i);
    }
  }

  lemma {:induction false} UpToStep(fields: seq<Field>, slots: seq<Slot>, i: nat)
    requires WellFormed(fields) && i < |fields| && SlotOf(fields, i) < |slots|
    requires |slots| == |InitMessage(fields)| == SlotsBefore(fields, |fields|)
    requires MergedUpTo(fields, InitMessage(fields), slots, i) == RestoredUpTo(fields, slots, i)
    requires var f, slot := fields[i], slots[SlotOf(fields, i)];
             Present(f, slot) ==> MergedSlot(f, InitSlot(f), slot) == RestoredSlot(f, slot)
    ensures MergedUpTo(fields, InitMessage(fields), slots, i + 1) == RestoredUpTo(fields, slots, i + 1)
  {
    hide MergedSlot, RestoredSlot, InitMessage, Present, InitSlot, WellFormed, SlotOf;
    InitMessageAt(fields, i);
    if Present(fields[i], slots[SlotOf(fields, i)]) {
      MergeOne(fields, InitMessage(fields), slots, i);
    }
  }

  lemma {:induction false} MergedIntoDefaultAt(fields: seq<Field>, slots: seq<Slot>, i: nat)
    requires WellFormed(fields) && HasShape(fields, slots) && i < |fields|
    ensures SlotOf(fields, i) < |slots|
    ensures var f, slot := fields[i], slots[SlotOf(fields, i)];
            Present(f, slot) ==> MergedSlot(f, InitSlot(f), slot) == RestoredSlot(f, slot)
    decreases fields, 0, 0
  {
    ShapeAt(fields, slots, i);
    FieldsWellFormed(fields, i);
    hide MergedSlot, RestoredSlot, Present, InitSlot, WellFormed, WellFormedField, HasShape, SlotHasShape;
    if Present(fields[i], slots[SlotOf(fields, i)]) {
      SlotMergedIntoDefault(fields[i], slots[SlotOf(fields, i)]);
    }
  }

  /** ... and into the defaults, that is what comes back. */
  lemma {:induction false} MergedIntoDefaults(fields: seq<Field>, slots: seq<Slot>, n: nat)
    requires WellFormed(fields) && HasShape(fields, slots) && n <= |fields|
    requires |slots| == |InitMessage(fields)| == SlotsBefore(fields, |fields|)
    ensures MergedUpTo(fields, InitMessage(fields), slots, n) == RestoredUpTo(fields, slots, n)
    decreases fields, 1, n
  {
    if n > 0 {
      hide MergedSlot, RestoredSlot, InitMessage, Present, InitSlot, WellFormed, HasShape, SlotOf, MergedUpTo, RestoredUpTo;
      MergedIntoDefaultAt(fields, slots, n - 1);
      MergedIntoDefaults(fields, slots, n - 1);
      UpToStep(fields, slots, n - 1);
    } else {
      hide MergedSlot, RestoredSlot, InitMessage, Present, InitSlot, WellFormed, HasShape, SlotOf;
    }
  }

  lemma {:induction false} SlotMergedIntoDefault(f: Field, s: Slot)
    requires WellFormedField(f) && SlotHasShape(f, s) && Present(f, s)
    ensures MergedSlot(f, InitSlot(f), s) == RestoredSlot(f, s)
    decreases f, 1, 0
  {
    hide InitMessage, Merged, RestoredItems;
    match s
    case Plain(v) => ValueMergedIntoDefault(f, InitValue(f), v);
    case Tracked(_, v) => ValueMergedIntoDefault(f, InitValue(f), v);
    case Counted(items) => assert [] + RestoredItems(f, items) == RestoredItems(f, items);
    case FixedCount(_) =>
    case Union(_, v) => ValueMergedIntoDefault(f, MemberValue(f, 0, Num(0)), v);
  }

  lemma {:induction false} ValueMergedIntoDefault(f: Field, prior: Value, v: Value)
    requires WellFormedField(f) && ValueHasShape(f, v)
    requires f.ltype.Submessage? ==> prior == Sub(InitMessage(f.sub))
    ensures MergedValue(f, prior, v) == RestoredValue(f, v)
    decreases f, 0, 0
  {
    hide InitMessage, MergedUpTo, RestoredUpTo;
    if f.ltype.Submessage? && !f.htype.Repeated? {
      ShapeLength(f.sub, v.slots);
      InitLength(f.sub);
      MergedIntoDefaults(f.sub, v.slots, |f.sub|);
    }
  }

  /** The defaults have room for anything that can be sent. */
  lemma {:induction false} DefaultsFit(fields: seq<Field>, slots: seq<Slot>)
    requires WellFormed(fields) && HasShape(fields, slots) && Sendable(fields, slots)
    ensures |InitMessage(fields)| == SlotsBefore(fields, |fields|) && MergeFits(fields, InitMessage(fields), slots)
    decreases fields, 1
  {
    hide InitMessage, SlotSendable, SlotHasShape, SlotMergeFits, InitSlot;
    forall i | 0 <= i < |fields|
      ensures SlotOf(fields, i) < |slots|
      ensures SlotMergeFits(fields[i], InitMessage(fields)[SlotOf(fields, i)], slots[SlotOf(fields, i)])
    {
      InitMessageAt(fields, i);
      DefaultSlotFits(fields[i], slots[SlotOf(fields, i)]);
    }
  }

  lemma {:induction false} DefaultSlotFits(f: Field, s: Slot)
    requires WellFormedField(f) && SlotHasShape(f, s) && SlotSendable(f, s)
    ensures SlotMergeFits(f, InitSlot(f), s)
    decreases f, 1
  {
    hide InitMessage, MergeFits;
    if Present(f, s) && f.ltype.Submessage? && !f.htype.Repeated? {
      DefaultsFit(f.sub, s.value.slots);
    }
  }

  // ---------------------------------------------------------------------------------------------
  // Decoding an encoded field over a struct
  // ---------------------------------------------------------------------------------------------

  /** The value in place of a field that is not repeated has the field's shape. */
  predicate Ready(f: Field, prior: Value) {
    f.ltype.Submessage? && !f.htype.Repeated? ==> ValueHasShape(f, prior)
  }

  lemma {:induction false} ValueMerges(f: Field, prior: Value, v: Value, t: seq<Byte>)
    requires WellFormedField(f) && ValueHasShape(f, v) && ValueSendable(f, v)
    requires Ready(f, prior) && ValueMergeFits(f, prior, v)
    ensures EncodeValue(f, v).Some?
    ensures DecodeValue(f, prior, EncodeValue(f, v).value + t) == Ok(MergedValue(f, prior, v), t)
    decreases f, 0, 0
  {
    hide DecodeNumber, DecodeBlob, EncodeNumber, ReadDelimited, Delimited, DecodeNoinit, DecodeMessage, EncodeMessage,
         Restored, Merged, CStringLength, MergeFits, Sendable, HasShape, WellFormed;
    match f.ltype
    case Bytes(_) => BlobRoundTrip(f, v.data, t);
    case String => BlobRoundTrip(f, v.data[..CStringLength(v.data)], t);
    case FixedLengthBytes => BlobRoundTrip(f, v.data, t);
    case Submessage =>
      ShapeLength(f.sub, v.slots);
      if f.htype.Repeated? {
        MessageRoundTrip(f.sub, v.slots);
      } else {
        ShapeLength(f.sub, prior.slots);
        MessageMerges(f.sub, prior.slots, v.slots);
      }
      DelimitedRoundTrip(EncodeMessage(f.sub, v.slots).value, t);
    case _ => NumberRoundTrip(f, v.n, t);
  }

  /** A field that is not repeated reads its one record over what is there. */
  lemma {:induction false} SingularMerges(f: Field, p: Slot, s: Slot, count: nat, t: seq<Byte>)
    requires WellFormedField(f) && !f.htype.Repeated? && SlotHasShape(f, p) && SlotHasShape(f, s)
    requires SlotSendable(f, s) && Present(f, s) && SlotMergeFits(f, p, s)
    ensures EncodeValue(f, s.value).Some?
    ensures EncodeField(f, s) == Some(Key(f.tag, WireTypeOf(f.ltype)) + EncodeValue(f, s.value).value)
    ensures DecodeSlot(f, WireTypeOf(f.ltype).Code(), p, count, EncodeValue(f, s.value).value + t)
              == Ok((MergedSlot(f, p, s), count), t)
    decreases f, 1, 0
  {
    var prior := if f.htype.OneOf? then MemberValue(f, p.which, p.value) else p.value;
    assert Ready(f, prior) by {
      if f.ltype.Submessage? && f.htype.OneOf? {
        InitHasShape(f.sub);
      }
    }
    hide DecodeValue, EncodeValue, InitMessage, MergedValue, Key;
    ValueMerges(f, prior, s.value, t);
  }

  /** The items of a packable repeated field come from one packed record. */
  lemma {:induction false} PackedArrayMerges(f: Field, p: Slot, s: Slot, count: nat, t: seq<Byte>)
    requires WellFormedField(f) && f.htype.Repeated? && f.ltype.Packable() && SlotHasShape(f, p)
    requires SlotHasShape(f, s) && SlotSendable(f, s) && Present(f, s) && SlotMergeFits(f, p, s)
    requires f.Sized() || count == 0
    ensures EncodePacked(f, s.items, 0).Some?
    ensures EncodeField(f, s) == Some(Key(f.tag, WT_STRING) + Delimited(EncodePacked(f, s.items, 0).value))
    ensures DecodeSlot(f, WT_STRING.Code(), p, count, Delimited(EncodePacked(f, s.items, 0).value) + t)
              == Ok((MergedSlot(f, p, s), if f.Sized() then count else f.arraySize), t)
  {
    hide DecodePacked, EncodePacked, ReadDelimited, Key, Delimited, RestoredItems;
    PackedRoundTrip(f, s.items, 0, Room(f, if f.Sized() then |p.items| else count));
    assert s.items[0..] == s.items;
    DelimitedRoundTrip(EncodePacked(f, s.items, 0).value, t);
    var r := RestoredItems(f, s.items);
    assert |r| == |s.items| by { RestoredLength(f, s.items); }
    if !f.Sized() {
      assert p.items[..0] + r + p.items[f.arraySize..] == r;
    }
  }

  lemma {:induction false} RestoredLength(f: Field, items: seq<Value>)
    ensures |RestoredItems(f, items)| == |items|
  {
  }

  /** A repeated field of which the first k items have been read. */
  function PartialSlot(f: Field, p: Slot, items: seq<Value>, k: nat): Slot
    requires k <= |items| && (p.Counted? || (p.FixedCount? && |items| <= |p.items|))
  {
    if p.Counted? then Counted(p.items + RestoredItems(f, items[..k]))
    else FixedCount(RestoredItems(f, items[..k]) + p.items[k..])
  }

  /** What is there when the items of a repeated field arrive, and whether there is room for the first n. */
  predicate RoomFor(f: Field, p: Slot, items: seq<Value>, n: nat) {
    if f.Sized() then p.Counted? && (n > 0 ==> |p.items| + n <= f.arraySize)
    else p.FixedCount? && |p.items| == |items| == f.arraySize
  }

  /** One more item, from a record of its own. */
  lemma {:induction false} ItemMerges(f: Field, p: Slot, items: seq<Value>, k: nat, count: nat, t: seq<Byte>)
    requires WellFormedField(f) && f.htype.Repeated?
    requires k < |items| && RoomFor(f, p, items, k + 1)
    requires ValueHasShape(f, items[k]) && ValueSendable(f, items[k])
    requires f.Sized() || count == k
    ensures EncodeValue(f, items[k]).Some?
    ensures DecodeSlot(f, WireTypeOf(f.ltype).Code(), PartialSlot(f, p, items, k), count, EncodeValue(f, items[k]).value + t)
              == Ok((PartialSlot(f, p, items, k + 1), if f.Sized() then count else k + 1), t)
    decreases f, 1, 0
  {
    hide DecodeValue, EncodeValue, InitMessage, RestoredValue, InitValue, RestoredItems;
    ValueMerges(f, Num(0), items[k], t);
    OneMoreItem(f, p, items, k);
    RestoredLength(f, items[..k]);
  }

  lemma {:induction false} RestoredStep(f: Field, items: seq<Value>, k: nat)
    requires k < |items|
    ensures |RestoredItems(f, items[..k])| == k
    ensures RestoredItems(f, items[..k + 1]) == RestoredItems(f, items[..k]) + [RestoredValue(f, items[k])]
  {
    hide RestoredValue;
  }

  lemma {:induction false} OverwriteNext(before: seq<Value>, rest: seq<Value>, v: Value)
    requires rest != []
    ensures Overwrite(before + rest, |before|, [v]) == before + [v] + rest[1..]
  {
    assert (before + rest)[..|before|] == before && (before + rest)[|before| + 1..] == rest[1..];
  }

  lemma {:induction false} OneMoreItem(f: Field, p: Slot, items: seq<Value>, k: nat)
    requires k < |items| && RoomFor(f, p, items, k)
    ensures var before, v := PartialSlot(f, p, items, k), RestoredValue(f, items[k]);
            && |RestoredItems(f, items[..k])| == k
            && PartialSlot(f, p, items, k + 1)
                 == (if p.Counted? then Counted(before.items + [v]) else FixedCount(Overwrite(before.items, k, [v])))
  {
    RestoredStep(f, items, k);
    hide RestoredItems, RestoredValue, Overwrite;
    if p.FixedCount? {
      OverwriteNext(RestoredItems(f, items[..k]), p.items[k..], RestoredValue(f, items[k]));
      assert p.items[k..][1..] == p.items[k + 1..];
    } else {
      var done, v := RestoredItems(f, items[..k]), RestoredValue(f, items[k]);
      assert p.items + (done + [v]) == p.items + done + [v];
    }
  }

  // ---------------------------------------------------------------------------------------------
  // Fields
  // ---------------------------------------------------------------------------------------------

  predicate FixedArray(f: Field) {
    f.htype.Repeated? && !f.Sized()
  }

  /** Where the decoder stands after the bytes of the first n fields, from where it stood before. */
  function StateAfter(fields: seq<Field>, start: Progress, slots: seq<Slot>, n: nat): (st: Progress)
    requires |start.slots| == |slots| == SlotsBefore(fields, |fields|) && n <= |fields| && FixedComplete(fields, start)
    ensures st.slots == MergedUpTo(fields, start.slots, slots, n)
    ensures FixedComplete(fields, st)
    ensures st.fixedField == start.fixedField || (st.fixedField.Some? && st.fixedField.value < n)
  {
    if n == 0 then start
    else
      SlotInRange(fields, n - 1, |fields|);
      var st := StateAfter(fields, start, slots, n - 1);
      var f, s := fields[n - 1], SlotOf(fields, n - 1);
      if !Present(f, slots[s]) then st
      else
        var entered := Enter(fields, n - 1, st).value;
        entered.(slots := MergedUpTo(fields, start.slots, slots, n),
                 fixedCount := if FixedArray(f) then f.arraySize else st.fixedCount)
  }

  /** What field i needs to be merged: room, and for a fixed-count array, not to be the one last filled. */
  predicate Merges(fields: seq<Field>, start: Progress, slots: seq<Slot>, i: nat)
    requires |start.slots| == |slots| == SlotsBefore(fields, |fields|) && i < |fields| && FixedComplete(fields, start)
  {
    && SlotOf(fields, i) < |slots|
    && var p, s := start.slots[SlotOf(fields, i)], slots[SlotOf(fields, i)];
       Present(fields[i], s) ==>
         && SlotMergeFits(fields[i], p, s)
         && (FixedArray(fields[i]) ==> StateAfter(fields, start, slots, i).fixedField != Some(i))
  }

  lemma {:induction false} FindsField(fields: seq<Field>, i: nat)
    requires WellFormed(fields) && i < |fields|
    ensures FindField(fields, fields[i].tag, |fields|) == Some(i)
  {
  }

  /** One record of field i: key, then the payload its decoder turns into `stored`. */
  lemma {:induction false} RecordDecodes(
      fields: seq<Field>, i: nat, wt: WireType, st: Progress, payload: seq<Byte>, stored: Stored, t: seq<Byte>)
    requires WellFormed(fields) && i < |fields|
    requires Enter(fields, i, st).Some? && SlotOf(fields, i) < |st.slots|
    requires var st1 := Enter(fields, i, st).value;
             st1.slots == st.slots &&
             DecodeSlot(fields[i], wt.Code(), st.slots[SlotOf(fields, i)], st1.fixedCount, payload + t) == Ok(stored, t)
    ensures var st1 := Enter(fields, i, st).value;
            DecodeLoop(fields, st, Key(fields[i].tag, wt) + payload + t)
              == DecodeLoop(fields, st1.(slots := st.slots[SlotOf(fields, i) := stored.0], fixedCount := stored.1), t)
  {
    hide DecodeTag, DecodeSlot, Enter, VarintBytes, SkipField;
    var bs := Key(fields[i].tag, wt) + payload + t;
    assert bs == Key(fields[i].tag, wt) + (payload + t);
    RecordKey(fields[i].tag, wt.Code(), payload + t);
    FindsField(fields, i);
    assert bs != [];
    var st1 := Enter(fields, i, st).value;
    var next := st1.(slots := st.slots[SlotOf(fields, i) := stored.0], fixedCount := stored.1);
    assert DecodeField(fields, i, wt.Code(), st, payload + t) == Ok(next, t);
    assert DecodeOne(fields, st, bs) == Next(next, t);
  }

  /** The decoder after the first k of the records of an unpacked field. */
  function ItemsState(fields: seq<Field>, i: nat, st: Progress, items: seq<Value>, k: nat): Progress
    requires i < |fields| && SlotOf(fields, i) < |st.slots| && k <= |items| && Enter(fields, i, st).Some?
    requires RoomFor(fields[i], st.slots[SlotOf(fields, i)], items, 0)
  {
    if k == 0 then st
    else
      var entered, s := Enter(fields, i, st).value, SlotOf(fields, i);
      entered.(slots := st.slots[s := PartialSlot(fields[i], st.slots[s], items, k)],
               fixedCount := if fields[i].Sized() then st.fixedCount else k)
  }

  lemma {:induction false} EntersItems(fields: seq<Field>, i: nat, st: Progress, items: seq<Value>, k: nat)
    requires i < |fields| && SlotOf(fields, i) < |st.slots| && k <= |items|
    requires RoomFor(fields[i], st.slots[SlotOf(fields, i)], items, 0)
    requires fields[i].htype.Repeated? && FixedComplete(fields, st)
    requires FixedArray(fields[i]) ==> st.fixedField != Some(i)
    ensures Enter(fields, i, st).Some? && Enter(fields, i, ItemsState(fields, i, st, items, k)).Some?
    ensures var entered := Enter(fields, i, ItemsState(fields, i, st, items, k)).value;
            && entered.slots == ItemsState(fields, i, st, items, k).slots
            && entered.seen == st.seen
            && entered.fixedField == Enter(fields, i, st).value.fixedField
            && entered.fixedCount == (if fields[i].Sized() then st.fixedCount else k)
  {
    hide PartialSlot;
  }

  lemma {:induction false} UnpackedEnd(f: Field, items: seq<Value>)
    ensures EncodeUnpacked(f, items, |items|) == Some([])
  {
  }

  lemma {:induction false} UnpackedStep(f: Field, items: seq<Value>, k: nat)
    requires k < |items| && EncodeValue(f, items[k]).Some? && EncodeUnpacked(f, items, k + 1).Some?
    ensures EncodeUnpacked(f, items, k)
              == Some(Key(f.tag, WireTypeOf(f.ltype)) + EncodeValue(f, items[k]).value + EncodeUnpacked(f, items, k + 1).value)
  {
    hide EncodeValue, Key;
  }

  /** The items of any array, packable or not, are taken from records of their own. */
  lemma {:induction false} UnpackedMerges(
      fields: seq<Field>, i: nat, st: Progress, items: seq<Value>, k: nat, t: seq<Byte>)
    requires WellFormed(fields) && i < |fields| && SlotOf(fields, i) < |st.slots| && k <= |items|
    requires fields[i].htype.Repeated?
    requires RoomFor(fields[i], st.slots[SlotOf(fields, i)], items, |items|)
    requires forall j | 0 <= j < |items| :: ValueHasShape(fields[i], items[j]) && ValueSendable(fields[i], items[j])
    requires FixedComplete(fields, st) && (FixedArray(fields[i]) ==> st.fixedField != Some(i))
    ensures Enter(fields, i, st).Some?
    ensures EncodeUnpacked(fields[i], items, k).Some?
    ensures DecodeLoop(fields, ItemsState(fields, i, st, items, k), EncodeUnpacked(fields[i], items, k).value + t)
              == DecodeLoop(fields, ItemsState(fields, i, st, items, |items|), t)
    decreases fields[i], 2, |items| - k
  {
    hide DecodeLoop, EncodeValue, DecodeSlot, PartialSlot, Key, WellFormed, WellFormedField, ValueHasShape, ValueSendable,
         Enter, EncodeUnpacked;
    EntersItems(fields, i, st, items, k);
    if k == |items| {
      UnpackedEnd(fields[i], items);
      assert [] + t == t;
    } else {
      UnpackedMerges(fields, i, st, items, k + 1, t);
      var rest := EncodeUnpacked(fields[i], items, k + 1).value + t;
      ItemRecord(fields, i, st, items, k, rest);
      UnpackedStep(fields[i], items, k);
      var payload := EncodeValue(fields[i], items[k]).value;
      assert EncodeUnpacked(fields[i], items, k).value + t
          == Key(fields[i].tag, WireTypeOf(fields[i].ltype)) + payload + rest;
    }
  }

  /** The record of item k. */
  lemma {:induction false} ItemRecord(
      fields: seq<Field>, i: nat, st: Progress, items: seq<Value>, k: nat, rest: seq<Byte>)
    requires WellFormed(fields) && i < |fields| && SlotOf(fields, i) < |st.slots| && k < |items|
    requires fields[i].htype.Repeated?
    requires RoomFor(fields[i], st.slots[SlotOf(fields, i)], items, k + 1)
    requires ValueHasShape(fields[i], items[k]) && ValueSendable(fields[i], items[k])
    requires FixedComplete(fields, st) && (FixedArray(fields[i]) ==> st.fixedField != Some(i))
    ensures Enter(fields, i, st).Some? && EncodeValue(fields[i], items[k]).Some?
    ensures var f := fields[i];
            DecodeLoop(fields, ItemsState(fields, i, st, items, k),
                       Key(f.tag, WireTypeOf(f.ltype)) + EncodeValue(f, items[k]).value + rest)
              == DecodeLoop(fields, ItemsState(fields, i, st, items, k + 1), rest)
    decreases fields[i], 2, 0
  {
    hide DecodeLoop, EncodeValue, DecodeSlot, PartialSlot, Key, WellFormed, WellFormedField, ValueHasShape, ValueSendable,
         Enter;
    EntersItems(fields, i, st, items, 0);
    EntersItems(fields, i, st, items, k);
    var f, p, stK := fields[i], st.slots[SlotOf(fields, i)], ItemsState(fields, i, st, items, k);
    FieldsWellFormed(fields, i);
    PartialStart(f, p, items);
    assert stK.slots[SlotOf(fields, i)] == PartialSlot(f, p, items, k);
    ItemMerges(f, p, items, k, Enter(fields, i, stK).value.fixedCount, rest);
    RecordDecodes(fields, i, WireTypeOf(f.ltype), stK, EncodeValue(f, items[k]).value,
                  (PartialSlot(f, p, items, k + 1), if f.Sized() then st.fixedCount else k + 1), rest);
    assert Enter(fields, i, stK).value.(
        slots := stK.slots[SlotOf(fields, i) := PartialSlot(f, p, items, k + 1)],
        fixedCount := if f.Sized() then st.fixedCount else k + 1)
      == ItemsState(fields, i, st, items, k + 1);
  }

  lemma {:induction false} PartialStart(f: Field, p: Slot, items: seq<Value>)
    requires RoomFor(f, p, items, 0)
    ensures PartialSlot(f, p, items, 0) == p
  {
    assert RestoredItems(f, items[..0]) == [];
    assert p.items + [] == p.items && [] + p.items[0..] == p.items;
  }

  lemma {:induction false} PartialEnd(f: Field, p: Slot, items: seq<Value>)
    requires RoomFor(f, p, items, 0)
    ensures PartialSlot(f, p, items, |items|) == MergedSlot(f, p, if f.Sized() then Counted(items) else FixedCount(items))
  {
    assert items[..|items|] == items;
    assert RestoredItems(f, items) + [] == RestoredItems(f, items);
  }

  /** The bytes of field i take the decoder from the state after i fields to the state after i + 1. */
  lemma {:induction false} FieldMerges(fields: seq<Field>, start: Progress, slots: seq<Slot>, i: nat, t: seq<Byte>)
    requires WellFormed(fields) && HasShape(fields, start.slots) && HasShape(fields, slots) && i < |fields|
    requires Sendable(fields, slots) && FixedComplete(fields, start) && Merges(fields, start, slots, i)
    ensures EncodeField(fields[i], slots[SlotOf(fields, i)]).Some?
    ensures DecodeLoop(fields, StateAfter(fields, start, slots, i), EncodeField(fields[i], slots[SlotOf(fields, i)]).value + t)
              == DecodeLoop(fields, StateAfter(fields, start, slots, i + 1), t)
    decreases fields[i], 3, 0
  {
    hide DecodeLoop, EncodeValue, DecodeSlot, Key, SlotSendable, SlotHasShape, SlotMergeFits, WellFormed, WellFormedField,
         MergedSlot, EncodePacked, Delimited, ItemsState, MergedUpTo;
    var f, s := fields[i], SlotOf(fields, i);
    var slot, st := slots[s], StateAfter(fields, start, slots, i);
    FieldsWellFormed(fields, i);
    if !Present(f, slot) {
      AbsentWritesNothing(f, slot);
      assert [] + t == t;
    } else {
      PriorWhenReached(fields, start.slots, slots, i);
      MergeOne(fields, start.slots, slots, i);
      var p := start.slots[s];
      if !f.htype.Repeated? {
        SingularMerges(f, p, slot, st.fixedCount, t);
        RecordDecodes(fields, i, WireTypeOf(f.ltype), st, EncodeValue(f, slot.value).value,
                      (MergedSlot(f, p, slot), st.fixedCount), t);
      } else if f.ltype.Packable() {
        var count := if f.Sized() then st.fixedCount else 0;
        PackedArrayMerges(f, p, slot, count, t);
        RecordDecodes(fields, i, WT_STRING, st, Delimited(EncodePacked(f, slot.items, 0).value),
                      (MergedSlot(f, p, slot), if f.Sized() then st.fixedCount else f.arraySize), t);
      } else {
        UnpackedFieldMerges(fields, start, slots, i, t);
      }
    }
  }

  lemma {:induction false} ItemsReady(f: Field, s: Slot)
    requires f.htype.Repeated? && SlotHasShape(f, s) && SlotSendable(f, s) && Present(f, s)
    ensures s.Counted? || s.FixedCount?
    ensures forall k | 0 <= k < |s.items| :: ValueHasShape(f, s.items[k]) && ValueSendable(f, s.items[k])
  {
    hide ValueHasShape, ValueSendable;
    if s.Counted? || s.FixedCount? {
      forall k | 0 <= k < |s.items|
        ensures ValueHasShape(f, s.items[k]) && ValueSendable(f, s.items[k])
      {
        assert ValueHasShape(f, s.items[k]);
        assert ValueSendable(f, s.items[k]);
      }
    }
  }

  lemma {:induction false} UnpackedFieldMerges(fields: seq<Field>, start: Progress, slots: seq<Slot>, i: nat, t: seq<Byte>)
    requires WellFormed(fields) && HasShape(fields, start.slots) && HasShape(fields, slots) && i < |fields|
    requires Sendable(fields, slots) && FixedComplete(fields, start) && Merges(fields, start, slots, i)
    requires fields[i].htype.Repeated? && !fields[i].ltype.Packable()
    requires SlotOf(fields, i) < |slots| && Present(fields[i], slots[SlotOf(fields, i)])
    ensures EncodeField(fields[i], slots[SlotOf(fields, i)]).Some?
    ensures DecodeLoop(fields, StateAfter(fields, start, slots, i), EncodeField(fields[i], slots[SlotOf(fields, i)]).value + t)
              == DecodeLoop(fields, StateAfter(fields, start, slots, i + 1), t)
    decreases fields[i], 2, |slots[SlotOf(fields, i)].items| + 1
  {
    hide DecodeLoop, EncodeValue, EncodeUnpacked, Key, WellFormed, WellFormedField, MergedUpTo, PartialSlot, MergedSlot;
    var f, s := fields[i], SlotOf(fields, i);
    var slot, st, p := slots[s], StateAfter(fields, start, slots, i), start.slots[s];
    assert SlotHasShape(f, slot) && SlotSendable(f, slot) && SlotHasShape(f, p) && SlotMergeFits(f, p, slot);
    ItemsReady(f, slot);
    PriorWhenReached(fields, start.slots, slots, i);
    MergeOne(fields, start.slots, slots, i);
    UnpackedMerges(fields, i, st, slot.items, 0, t);
    PartialEnd(f, p, slot.items);
  }

  lemma {:induction false} AbsentWritesNothing(f: Field, s: Slot)
    requires SlotHasShape(f, s) && !Present(f, s)
    ensures EncodeField(f, s) == Some([])
  {
  }

  // ---------------------------------------------------------------------------------------------
  // Messages
  // ---------------------------------------------------------------------------------------------

  lemma {:induction false} FieldsMerge(fields: seq<Field>, start: Progress, slots: seq<Slot>, i: nat)
    requires WellFormed(fields) && HasShape(fields, start.slots) && HasShape(fields, slots) && i <= |fields|
    requires Sendable(fields, slots) && FixedComplete(fields, start)
    requires forall j | i <= j < |fields| :: Merges(fields, start, slots, j)
    ensures EncodeFrom(fields, slots, i).Some?
    ensures DecodeLoop(fields, StateAfter(fields, start, slots, i), EncodeFrom(fields, slots, i).value)
              == Done(StateAfter(fields, start, slots, |fields|), [], false)
    decreases fields, 0, |fields| - i
  {
    hide DecodeOne, StateAfter, EncodeField, WellFormed, Sendable, HasShape, Merges;
    ShapeLength(fields, slots);
    ShapeLength(fields, start.slots);
    if i < |fields| {
      SlotInRange(fields, i, |fields|);
      FieldsMerge(fields, start, slots, i + 1);
      FieldMerges(fields, start, slots, i, EncodeFrom(fields, slots, i + 1).value);
      FirstField(fields, slots, i);
    }
  }

  lemma {:induction false} FirstField(fields: seq<Field>, slots: seq<Slot>, i: nat)
    requires |slots| == SlotsBefore(fields, |fields|) && i < |fields| && SlotOf(fields, i) < |slots|
    ensures EncodeFrom(fields, slots, i)
            == Join(EncodeField(fields[i], slots[SlotOf(fields, i)]), EncodeFrom(fields, slots, i + 1))
  {
    hide EncodeField;
  }

  /** With room, everything is merged by a decode that has just started. */
  lemma {:induction false} AllMerge(fields: seq<Field>, prior: seq<Slot>, slots: seq<Slot>)
    requires MergeFits(fields, prior, slots)
    ensures forall j | 0 <= j < |fields| :: Merges(fields, Start(prior), slots, j)
  {
    hide SlotMergeFits, Present, StateAfter;
    forall j | 0 <= j < |fields|
      ensures Merges(fields, Start(prior), slots, j)
    {
      assert FitsAt(fields, prior, slots, j);
    }
  }

  lemma {:induction false} RequiredSeen(fields: seq<Field>, start: Progress, slots: seq<Slot>, n: nat)
    requires |start.slots| == |slots| == SlotsBefore(fields, |fields|) && n <= |fields| && FixedComplete(fields, start)
    ensures start.seen <= StateAfter(fields, start, slots, n).seen
    ensures forall k: nat | k < RequiredBefore(fields, n) && k < MAX_REQUIRED_FIELDS ::
              k in StateAfter(fields, start, slots, n).seen
  {
    hide MergedUpTo, SlotOf;
    if n > 0 {
      RequiredSeen(fields, start, slots, n - 1);
    }
  }

  /** pb_decode_noinit of what pb_encode wrote succeeds, consumes every byte and merges the message into the struct, as
      long as the arrays have room. */
  lemma {:induction false} MessageMerges(fields: seq<Field>, prior: seq<Slot>, slots: seq<Slot>)
    requires WellFormed(fields) && HasShape(fields, prior) && HasShape(fields, slots)
    requires Sendable(fields, slots) && MergeFits(fields, prior, slots)
    ensures EncodeMessage(fields, slots).Some? && |prior| == |slots| == SlotsBefore(fields, |fields|)
    ensures DecodeNoinit(fields, prior, EncodeMessage(fields, slots).value) == Ok(Merged(fields, prior, slots), [])
    decreases fields, 1, 0
  {
    hide DecodeLoop, WellFormed, HasShape, Sendable, MergeFits, MergedUpTo, EncodeFrom;
    ShapeLength(fields, slots);
    ShapeLength(fields, prior);
    AllMerge(fields, prior, slots);
    FieldsMerge(fields, Start(prior), slots, 0);
    RequiredSeen(fields, Start(prior), slots, |fields|);
  }

  /** pb_decode of what pb_encode wrote succeeds, consumes every byte and yields the restored struct. */
  lemma {:induction false} MessageRoundTrip(fields: seq<Field>, slots: seq<Slot>)
    requires WellFormed(fields) && HasShape(fields, slots) && Sendable(fields, slots)
    ensures EncodeMessage(fields, slots).Some?
    ensures DecodeMessage(fields, EncodeMessage(fields, slots).value) == Ok(Restored(fields, slots), [])
    decreases fields, 2, 0
  {
    hide DecodeNoinit, WellFormed, HasShape, Sendable, MergeFits, RestoredUpTo, MergedUpTo, EncodeMessage, InitMessage;
    InitHasShape(fields);
    DefaultsFit(fields, slots);
    MessageMerges(fields, InitMessage(fields), slots);
    MergedIntoDefaults(fields, slots, |fields|);
  }

  // ---------------------------------------------------------------------------------------------
  // Messages inside longer streams
  // ---------------------------------------------------------------------------------------------

  /** A delimited message comes back from the front of a longer stream, and the rest is untouched. */
  lemma {:induction false} DelimitedMessageRoundTrip(fields: seq<Field>, slots: seq<Slot>, t: seq<Byte>)
    requires WellFormed(fields) && HasShape(fields, slots) && Sendable(fields, slots)
    requires EncodeMessage(fields, slots).Some? ==> |EncodeMessage(fields, slots).value| < TWO_TO_32
    ensures EncodeDelimited(fields, slots).Some?
    ensures DecodeDelimited(fields, EncodeDelimited(fields, slots).value + t) == Ok(Restored(fields, slots), t)
  {
    hide WellFormed, HasShape, Sendable, EncodeMessage, DecodeMessage, ReadDelimited, Delimited;
    MessageRoundTrip(fields, slots);
    DelimitedRoundTrip(EncodeMessage(fields, slots).value, t);
  }

  lemma {:induction false} ZeroKeyEnds(fields: seq<Field>, st: Progress, t: seq<Byte>)
    ensures DecodeLoop(fields, st, [0] + t) == Done(st, t, true)
  {
    Varint32RoundTrip(0, t);
    assert VarintBytes(0) == [0];
    assert DecodeTag([0] + t) == Zero(t);
  }

  /** So does a null-terminated one, at any length. */
  lemma {:induction false} NullTerminatedRoundTrip(fields: seq<Field>, slots: seq<Slot>, t: seq<Byte>)
    requires WellFormed(fields) && HasShape(fields, slots) && Sendable(fields, slots)
    ensures EncodeNullTerminated(fields, slots).Some?
    ensures DecodeMessage(fields, EncodeNullTerminated(fields, slots).value + t) == Ok(Restored(fields, slots), t)
  {
    hide DecodeLoop, WellFormed, HasShape, Sendable, MergeFits, RestoredUpTo, MergedUpTo, EncodeFrom, InitMessage;
    var start := Start(InitMessage(fields));
    ShapeLength(fields, slots);
    InitHasShape(fields);
    DefaultsFit(fields, slots);
    AllMerge(fields, InitMessage(fields), slots);
    FieldsMerge(fields, start, slots, 0);
    RequiredSeen(fields, start, slots, |fields|);
    MergedIntoDefaults(fields, slots, |fields|);
    var bytes, st := EncodeMessage(fields, slots).value, StateAfter(fields, start, slots, |fields|);
    ZeroKeyEnds(fields, st, t);
    LoopConcatenates(fields, start, bytes, [0] + t);
    assert bytes + [0] + t == bytes + ([0] + t);
  }

  lemma {:induction false} EndsAtZero(fields: seq<Field>, slots: seq<Slot>, a: seq<Byte>, junk: seq<Byte>)
    requires Accepts(fields, Start(slots), a)
    ensures DecodeNoinit(fields, slots, a + [0] + junk)
            == match DecodeNoinit(fields, slots, a) case Fail => Fail case Ok(r, _) => Ok(r, junk)
  {
    hide DecodeLoop, RequiredPresent, FixedComplete;
    LoopConcatenates(fields, Start(slots), a, [0] + junk);
    ZeroKeyEnds(fields, DecodeLoop(fields, Start(slots), a).st, junk);
    assert a + [0] + junk == a + ([0] + junk);
  }

  /** Inside a submessage whatever follows a zero key is skipped along with it. */
  lemma {:induction false} SubmessageEndsAtZero(f: Field, prior: seq<Slot>, a: seq<Byte>, junk: seq<Byte>, t: seq<Byte>)
    requires f.ltype.Submessage? && |a| + 1 + |junk| < TWO_TO_32
    requires Accepts(f.sub, Start(if f.htype.Repeated? then InitMessage(f.sub) else prior), a)
    ensures DecodeValue(f, Sub(prior), Delimited(a + [0] + junk) + t) == DecodeValue(f, Sub(prior), Delimited(a) + t)
  {
    hide Delimited, ReadDelimited, DecodeLoop, DecodeNoinit, InitMessage;
    DelimitedRoundTrip(a + [0] + junk, t);
    DelimitedRoundTrip(a, t);
    EndsAtZero(f.sub, if f.htype.Repeated? then InitMessage(f.sub) else prior, a, junk);
  }
}
