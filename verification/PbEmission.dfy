/** What the encoder writes, record by record: which records, under which keys, with whole payloads. So any decoder gets
    through it, whatever fields it knows. */
module Emission {
  import opened Wrappers
  import opened Wire
  import opened Descriptors
  import opened Encoding
  import opened Decoding
  import opened Merging
  import opened RoundTrip
  import opened Numbers
  import opened Records

  /** A record under the shortest key of its tag and wire type. */
  function OneRecord(f: Field, wireType: nat, payload: seq<Byte>): Record {
    Record(f.tag, wireType, VarintBytes(8 * f.tag + wireType), payload)
  }

  function BytesOf(payload: Option<seq<Byte>>): seq<Byte> {
    match payload
    case None => []
    case Some(bs) => bs
  }

  /** A record for each item. */
  function ItemRecords(f: Field, items: seq<Value>, first: nat): (rs: seq<Record>)
    requires first <= |items|
    ensures |rs| == |items| - first
    ensures forall r | r in rs :: r.tag == f.tag && r.wireType == StandardWireType(f.ltype)
    decreases |items| - first
  {
    if first == |items| then []
    else
      [OneRecord(f, StandardWireType(f.ltype), BytesOf(EncodeValue(f, items[first])))] + ItemRecords(f, items, first + 1)
  }

  /** None for a field left out; one for a single value, by the type's wire type, or for a whole packed array, by wire
      type 2; one for each item of any other array. */
  function FieldRecords(f: Field, s: Slot): (rs: seq<Record>)
    ensures forall r | r in rs ::
              && r.tag == f.tag
              && r.wireType == if f.htype.Repeated? && f.ltype.Packable() then 2 else StandardWireType(f.ltype)
    ensures |rs| == if !Present(f, s) then 0 else if f.htype.Repeated? && !f.ltype.Packable() then |s.items| else 1
  {
    if !Present(f, s) then []
    else if !f.htype.Repeated? then [OneRecord(f, StandardWireType(f.ltype), BytesOf(EncodeValue(f, SoleValue(s))))]
    else if f.ltype.Packable() then [OneRecord(f, 2, Delimited(BytesOf(EncodePacked(f, s.items, 0))))]
    else ItemRecords(f, s.items, 0)
  }

  function SoleValue(s: Slot): Value {
    match s
    case Plain(v) => v
    case Tracked(_, v) => v
    case Union(_, v) => v
    case _ => Num(0)
  }

  /** The records of the fields from the first-th on, in descriptor order. */
  function MessageRecords(fields: seq<Field>, slots: seq<Slot>, first: nat): seq<Record>
    requires first <= |fields| && |slots| == SlotsBefore(fields, |fields|)
    decreases |fields| - first
  {
    if first == |fields| then []
    else
      SlotInRange(fields, first, |fields|);
      FieldRecords(fields[first], slots[SlotOf(fields, first)]) + MessageRecords(fields, slots, first + 1)
  }

  lemma {:induction false} FlatAppend(a: seq<Record>, b: seq<Record>)
    ensures Flat(a + b) == Flat(a) + Flat(b)
  {
    if a == [] {
      assert a + b == b;
    } else {
      assert (a + b)[1..] == a[1..] + b;
      FlatAppend(a[1..], b);
    }
  }

  lemma {:induction false} FlatOne(r: Record)
    ensures Flat([r]) == r.key + r.payload
  {
    assert [r][1..] == [];
  }

  lemma {:induction false} KeyIsStandard(f: Field)
    ensures Key(f.tag, WireTypeOf(f.ltype)) == VarintBytes(8 * f.tag + StandardWireType(f.ltype))
    ensures Key(f.tag, WT_STRING) == VarintBytes(8 * f.tag + 2)
  {
    hide VarintBytes;
  }

  // ---------------------------------------------------------------------------------------------
  // The records are whole
  // ---------------------------------------------------------------------------------------------

  lemma {:induction false} ValueIsComplete(f: Field, v: Value)
    requires WellFormedField(f) && ValueHasShape(f, v) && ValueSendable(f, v) && EncodeValue(f, v).Some?
    ensures CompletePayload(StandardWireType(f.ltype), EncodeValue(f, v).value)
  {
    hide EncodeNumber, CompletePayload, Delimited, EncodeMessage, Sendable, HasShape, WellFormed;
    match f.ltype
    case Bytes(_) => DelimitedIsComplete(v.data);
    case String => DelimitedIsComplete(v.data[..CStringLength(v.data)]);
    case FixedLengthBytes => DelimitedIsComplete(v.data);
    case Submessage => DelimitedIsComplete(EncodeMessage(f.sub, v.slots).value);
    case _ =>
      EncodesStandard(f, v.n);
      WholeIsComplete(f.ltype, EncodeNumber(f, v.n).value);
  }

  lemma {:induction false} RecordIsWhole(f: Field, wireType: nat, payload: seq<Byte>)
    requires WellFormedField(f) && wireType < 8 && CompletePayload(wireType, payload)
    ensures Whole([], OneRecord(f, wireType, payload))
  {
    hide ReadVarint32, VarintBytes, CompletePayload;
    Varint32RoundTrip(8 * f.tag + wireType, []);
    assert VarintBytes(8 * f.tag + wireType) + [] == VarintBytes(8 * f.tag + wireType);
  }

  /** The bytes of an array's records. */
  lemma {:induction false} ItemsAreRecords(f: Field, items: seq<Value>, first: nat)
    requires WellFormedField(f) && first <= |items|
    requires forall k | 0 <= k < |items| :: ValueHasShape(f, items[k]) && ValueSendable(f, items[k])
    requires EncodeUnpacked(f, items, first).Some?
    ensures EncodeUnpacked(f, items, first) == Some(Flat(ItemRecords(f, items, first)))
    ensures AllWhole([], ItemRecords(f, items, first))
    decreases |items| - first
  {
    hide EncodeValue, ValueHasShape, ValueSendable, Whole, Key, WellFormedField, StandardWireType;
    if first < |items| {
      var payload := EncodeValue(f, items[first]).value;
      ValueIsComplete(f, items[first]);
      WireTypeInRange(f.ltype);
      RecordIsWhole(f, StandardWireType(f.ltype), payload);
      KeyIsStandard(f);
      ItemsAreRecords(f, items, first + 1);
      assert ItemRecords(f, items, first)[1..] == ItemRecords(f, items, first + 1);
    }
  }

  lemma {:induction false} WireTypeInRange(l: LType)
    ensures StandardWireType(l) < 8
  {
  }

  lemma {:induction false} SingleIsRecord(f: Field, s: Slot)
    requires WellFormedField(f) && !f.htype.Repeated? && Present(f, s)
    requires SlotHasShape(f, s) && SlotSendable(f, s) && EncodeField(f, s).Some?
    ensures EncodeField(f, s) == Some(Flat(FieldRecords(f, s))) && AllWhole([], FieldRecords(f, s))
  {
    hide EncodeValue, ValueHasShape, ValueSendable, CompletePayload, Whole, Key, WellFormedField, StandardWireType;
    ValueIsComplete(f, SoleValue(s));
    WireTypeInRange(f.ltype);
    KeyIsStandard(f);
    RecordIsWhole(f, StandardWireType(f.ltype), EncodeValue(f, SoleValue(s)).value);
    FlatOne(OneRecord(f, StandardWireType(f.ltype), EncodeValue(f, SoleValue(s)).value));
  }

  lemma {:induction false} ArrayIsRecords(f: Field, s: Slot)
    requires WellFormedField(f) && f.htype.Repeated? && Present(f, s)
    requires SlotHasShape(f, s) && SlotSendable(f, s) && EncodeField(f, s).Some?
    ensures EncodeField(f, s) == Some(Flat(FieldRecords(f, s))) && AllWhole([], FieldRecords(f, s))
  {
    hide EncodeValue, ValueHasShape, ValueSendable, CompletePayload, Whole, Key, WellFormedField, StandardWireType,
         EncodePacked, EncodeUnpacked, Delimited, VarintBytes;
    if f.ltype.Packable() {
      var payload := EncodePacked(f, s.items, 0).value;
      KeyIsStandard(f);
      DelimitedIsComplete(payload);
      RecordIsWhole(f, 2, Delimited(payload));
      FlatOne(OneRecord(f, 2, Delimited(payload)));
    } else {
      ItemsReady(f, s);
      ItemsAreRecords(f, s.items, 0);
    }
  }

  lemma {:induction false} FieldIsRecords(f: Field, s: Slot)
    requires WellFormedField(f) && SlotHasShape(f, s) && SlotSendable(f, s) && EncodeField(f, s).Some?
    ensures EncodeField(f, s) == Some(Flat(FieldRecords(f, s))) && AllWhole([], FieldRecords(f, s))
  {
    hide EncodeField, Whole, WellFormedField, SlotHasShape, SlotSendable, Present;
    if !Present(f, s) {
      AbsentWritesNothing(f, s);
    } else if f.htype.Repeated? {
      ArrayIsRecords(f, s);
    } else {
      SingleIsRecord(f, s);
    }
  }

  lemma {:induction false} RestIsRecords(fields: seq<Field>, slots: seq<Slot>, first: nat)
    requires WellFormed(fields) && HasShape(fields, slots) && Sendable(fields, slots)
    requires |slots| == SlotsBefore(fields, |fields|) && first <= |fields| && EncodeFrom(fields, slots, first).Some?
    ensures EncodeFrom(fields, slots, first) == Some(Flat(MessageRecords(fields, slots, first)))
    ensures AllWhole([], MessageRecords(fields, slots, first))
    decreases |fields| - first
  {
    hide EncodeField, AllWhole, WellFormed, HasShape, Sendable, FieldRecords, Flat;
    if first == |fields| {
      NoRecords();
    } else {
      SlotInRange(fields, first, |fields|);
      var f, s := fields[first], slots[SlotOf(fields, first)];
      FieldsWellFormed(fields, first);
      ShapeAt(fields, slots, first);
      SendableAt(fields, slots, first);
      FieldIsRecords(f, s);
      RestIsRecords(fields, slots, first + 1);
      FlatAppend(FieldRecords(f, s), MessageRecords(fields, slots, first + 1));
      WholeAppend(FieldRecords(f, s), MessageRecords(fields, slots, first + 1));
    }
  }

  lemma {:induction false} NoRecords()
    ensures Flat([]) == [] && AllWhole([], [])
  {
  }

  lemma {:induction false} WholeAppend(a: seq<Record>, b: seq<Record>)
    requires AllWhole([], a) && AllWhole([], b)
    ensures AllWhole([], a + b)
  {
    hide Whole;
  }

  lemma {:induction false} SendableAt(fields: seq<Field>, slots: seq<Slot>, i: nat)
    requires Sendable(fields, slots) && i < |fields|
    ensures SlotOf(fields, i) < |slots| && SlotSendable(fields[i], slots[SlotOf(fields, i)])
  {
  }

  /** An encoded message is its records one after the other, each a whole one by the wire type in its key. */
  lemma {:induction false} EncodingIsRecords(fields: seq<Field>, slots: seq<Slot>)
    requires WellFormed(fields) && HasShape(fields, slots) && Sendable(fields, slots)
    ensures |slots| == SlotsBefore(fields, |fields|)
    ensures EncodeMessage(fields, slots) == Some(Flat(MessageRecords(fields, slots, 0)))
    ensures AllWhole([], MessageRecords(fields, slots, 0))
  {
    hide EncodeFrom, WellFormed, HasShape, Sendable, DecodeMessage, Restored, Whole;
    ShapeLength(fields, slots);
    MessageRoundTrip(fields, slots);
    RestIsRecords(fields, slots, 0);
  }

  // ---------------------------------------------------------------------------------------------
  // Decoders that do not know the fields
  // ---------------------------------------------------------------------------------------------

  /** No record has a tag the descriptor knows. */
  predicate NoneKnown(known: seq<Field>, rs: seq<Record>) {
    forall r | r in rs :: FindField(known, r.tag, |known|).None?
  }

  lemma {:induction false} WholeIsUnknown(known: seq<Field>, r: Record)
    requires Whole([], r) && FindField(known, r.tag, |known|).None?
    ensures UnknownRecord(known, r.key + r.payload)
  {
    hide ReadVarint32, CompletePayload, SkipField;
    Varint32Extends(r.key, r.payload);
    assert [] + r.payload == r.payload;
    SkipsPayload(r.wireType, r.payload, []);
    assert r.payload + [] == r.payload;
  }

  lemma {:induction false} RecordsSkipped(known: seq<Field>, st: Progress, rs: seq<Record>, t: seq<Byte>)
    requires AllWhole([], rs) && NoneKnown(known, rs)
    ensures DecodeLoop(known, st, Flat(rs) + t) == DecodeLoop(known, st, t)
    decreases |rs|
  {
    hide DecodeLoop, Whole, UnknownRecord, FindField;
    if rs == [] {
      assert Flat(rs) + t == t;
    } else {
      var u := rs[0].key + rs[0].payload;
      WholeIsUnknown(known, rs[0]);
      UnknownRecordSkipped(known, st, u, Flat(rs[1..]) + t);
      assert Flat(rs) + t == u + (Flat(rs[1..]) + t);
      RecordsSkipped(known, st, rs[1..], t);
    }
  }

  lemma {:induction false} TagsOfRest(fields: seq<Field>, slots: seq<Slot>, first: nat)
    requires first <= |fields| && |slots| == SlotsBefore(fields, |fields|)
    ensures forall r | r in MessageRecords(fields, slots, first) :: exists i :: 0 <= i < |fields| && fields[i].tag == r.tag
    decreases |fields| - first
  {
    hide FieldRecords;
    if first < |fields| {
      SlotInRange(fields, first, |fields|);
      TagsOfRest(fields, slots, first + 1);
      forall r | r in FieldRecords(fields[first], slots[SlotOf(fields, first)])
        ensures exists i :: 0 <= i < |fields| && fields[i].tag == r.tag
      {
        assert fields[first].tag == r.tag;
      }
    }
  }

  /** Descriptors without a tag in common. */
  predicate Apart(known: seq<Field>, fields: seq<Field>) {
    forall i | 0 <= i < |fields| :: FindField(known, fields[i].tag, |known|).None?
  }

  lemma {:induction false} RecordsUnknown(known: seq<Field>, fields: seq<Field>, slots: seq<Slot>)
    requires |slots| == SlotsBefore(fields, |fields|) && Apart(known, fields)
    ensures NoneKnown(known, MessageRecords(fields, slots, 0))
  {
    hide FindField, MessageRecords;
    TagsOfRest(fields, slots, 0);
    forall r | r in MessageRecords(fields, slots, 0)
      ensures FindField(known, r.tag, |known|).None?
    {
      var i :| 0 <= i < |fields| && fields[i].tag == r.tag;
    }
  }

  lemma {:induction false} MessageSkipped(known: seq<Field>, st: Progress, fields: seq<Field>, slots: seq<Slot>, b: seq<Byte>)
    requires WellFormed(fields) && HasShape(fields, slots) && Sendable(fields, slots) && Apart(known, fields)
    ensures EncodeMessage(fields, slots).Some?
    ensures DecodeLoop(known, st, EncodeMessage(fields, slots).value + b) == DecodeLoop(known, st, b)
  {
    hide DecodeLoop, EncodeMessage, WellFormed, HasShape, Sendable, AllWhole, NoneKnown, Flat, MessageRecords, Apart;
    EncodingIsRecords(fields, slots);
    RecordsUnknown(known, fields, slots);
    RecordsSkipped(known, st, MessageRecords(fields, slots, 0), b);
  }

  /** Wherever a whole message of other fields stands in an input, a decoder skips it: it changes neither the outcome nor
      the struct nor what is left unread. */
  lemma {:induction false} ForeignMessageSkipped(
      known: seq<Field>, prior: seq<Slot>, a: seq<Byte>, fields: seq<Field>, slots: seq<Slot>, b: seq<Byte>)
    requires WellFormed(fields) && HasShape(fields, slots) && Sendable(fields, slots) && Apart(known, fields)
    requires Accepts(known, Start(prior), a)
    ensures EncodeMessage(fields, slots).Some?
    ensures DecodeNoinit(known, prior, a + EncodeMessage(fields, slots).value + b) == DecodeNoinit(known, prior, a + b)
  {
    hide DecodeLoop, EncodeMessage, WellFormed, HasShape, Sendable, Apart, Finish;
    MessageSkipped(known, DecodeLoop(known, Start(prior), a).st, fields, slots, b);
    var e := EncodeMessage(fields, slots).value;
    LoopConcatenates(known, Start(prior), a, e + b);
    LoopConcatenates(known, Start(prior), a, b);
    assert a + e + b == a + (e + b);
  }

  /** Even one that knows no field at all reads every encoded message to its end. */
  lemma {:induction false} EmptyDescriptorReads(fields: seq<Field>, slots: seq<Slot>)
    requires WellFormed(fields) && HasShape(fields, slots) && Sendable(fields, slots)
    ensures EncodeMessage(fields, slots).Some?
    ensures DecodeMessage([], EncodeMessage(fields, slots).value) == Ok([], [])
  {
    hide EncodeMessage, WellFormed, HasShape, Sendable;
    ForeignMessageSkipped([], [], [], fields, slots, []);
    var e := EncodeMessage(fields, slots).value;
    assert [] + e + [] == e;
    var none: seq<Byte> := [];
    assert none + none == none;
  }
}
