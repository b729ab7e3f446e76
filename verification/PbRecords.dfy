/** Messages as sequences of records: the decoder accepts whole records only, of which each tracked required field needs
    one, and the encoder writes whole records, under keys of the wire type their payloads have. */
module Records {
  import opened Wrappers
  import opened Wire
  import opened Descriptors
  import opened Encoding
  import opened Decoding
  import opened Merging
  import opened RoundTrip
  import opened Numbers

  /** A key and a payload, each in its own bytes. */
  datatype Record = Record(tag: nat, wireType: nat, key: seq<Byte>, payload: seq<Byte>)

  function Flat(rs: seq<Record>): seq<Byte> {
    if rs == [] then [] else rs[0].key + rs[0].payload + Flat(rs[1..])
  }

  /** How the payload of a record is read: a packed array as what it is, any other value of a known field by the type of
      the field, whatever the key says; and only an unknown field by its key. */
  function ReadAs(fields: seq<Field>, r: Record): nat {
    match FindField(fields, r.tag, |fields|)
    case None => r.wireType
    case Some(i) => FieldReadAs(fields[i], r.wireType)
  }

  function FieldReadAs(f: Field, wireType: nat): nat {
    if f.htype.Repeated? && f.ltype.Packable() && wireType == 2 then 2 else StandardWireType(f.ltype)
  }

  predicate KeyReads(r: Record) {
    r.wireType < 8 && 0 < 8 * r.tag + r.wireType && ReadVarint32(r.key) == Ok(8 * r.tag + r.wireType, [])
  }

  ghost predicate Whole(fields: seq<Field>, r: Record) {
    KeyReads(r) && CompletePayload(ReadAs(fields, r), r.payload)
  }

  ghost predicate AllWhole(fields: seq<Field>, rs: seq<Record>) {
    forall r | r in rs :: Whole(fields, r)
  }

  // ---------------------------------------------------------------------------------------------
  // Values
  // ---------------------------------------------------------------------------------------------

  /** Which byte strings a field takes, and as what. */
  function TakenBlob(f: Field, data: seq<Byte>): Option<seq<Byte>> {
    match f.ltype
    case Bytes(header) => if header + |data| <= f.dataSize then Some(data) else None
    case String => if |data| < f.dataSize then Some(data) else None
    case FixedLengthBytes =>
      if data == [] then Some(seq(f.dataSize, _ => 0)) else if |data| == f.dataSize then Some(data) else None
    case _ => None
  }

  /** Bytes and strings: the decoder accepts what the buffer has room for, a string with its terminator; fixed-length
      bytes have exactly their length, or none, which stands for zeros. */
  lemma {:induction false} BlobDecodesIff(f: Field, payload: seq<Byte>, n: nat, t: seq<Byte>)
    requires n <= |payload| && Announces(payload, n)
    ensures DecodeBlob(f, payload + t)
            == match TakenBlob(f, payload[n..]) case None => Fail case Some(data) => Ok(data, t)
  {
    hide ReadVarint32;
    var data := payload[n..];
    AnnouncedIsRead(payload, n, t);
    assert (data + t)[..|data|] == data && (data + t)[|data|..] == t;
    assert data == [] ==> data + t == t;
  }

  /** What the decoder of a value consumes is a complete payload of the type. */
  lemma {:induction false} ValueIsWhole(f: Field, prior: Value, bs: seq<Byte>)
    requires DecodeValue(f, prior, bs).Ok?
    ensures var rest := DecodeValue(f, prior, bs).rest;
            CompletePayload(StandardWireType(f.ltype), bs[..|bs| - |rest|]) && bs == bs[..|bs| - |rest|] + rest
  {
    hide ReadVarint32, DecodeNumber, DecodeMessage, DecodeNoinit, CompletePayload;
    match f.ltype
    case Bytes(_) => BlobIsWhole(f, bs);
    case String => BlobIsWhole(f, bs);
    case FixedLengthBytes => BlobIsWhole(f, bs);
    case Submessage => DelimitedFromPrefix(bs, ReadVarint32(bs).value);
    case _ =>
      NumberIsWhole(f, bs);
      WholeIsComplete(f.ltype, bs[..|bs| - |DecodeValue(f, prior, bs).rest|]);
  }

  lemma {:induction false} WholeIsComplete(l: LType, payload: seq<Byte>)
    requires l.Packable()
    ensures WholeNumber(l, payload) <==> CompletePayload(StandardWireType(l), payload)
  {
  }

  lemma {:induction false} BlobIsWhole(f: Field, bs: seq<Byte>)
    requires DecodeBlob(f, bs).Ok?
    ensures var rest := DecodeBlob(f, bs).rest;
            CompletePayload(2, bs[..|bs| - |rest|]) && bs == bs[..|bs| - |rest|] + rest
  {
    hide ReadVarint32, CompletePayload;
    DelimitedFromPrefix(bs, ReadVarint32(bs).value);
  }

  /** And nothing after a complete payload matters to it. */
  lemma {:induction false} ValueReads(f: Field, prior: Value, payload: seq<Byte>, t: seq<Byte>)
    requires WellFormedField(f) && CompletePayload(StandardWireType(f.ltype), payload)
    ensures DecodeValue(f, prior, payload + t)
            == match DecodeValue(f, prior, payload) case Fail => Fail case Ok(v, _) => Ok(v, t)
  {
    hide DecodeNumber, DecodeBlob, ReadDelimited, DecodeMessage, DecodeNoinit, WellFormed;
    assert payload + [] == payload;
    if StandardWireType(f.ltype) == 2 {
      var n: nat :| n <= |payload| && Announces(payload, n);
      AnnouncedIsRead(payload, n, t);
      AnnouncedIsRead(payload, n, []);
      BlobDecodesIff(f, payload, n, t);
      BlobDecodesIff(f, payload, n, []);
    } else {
      NumberReads(f, payload, t);
    }
  }

  lemma {:induction false} NumberReads(f: Field, payload: seq<Byte>, t: seq<Byte>)
    requires Numeric(f) && CompletePayload(StandardWireType(f.ltype), payload)
    ensures DecodeNumber(f, payload + t)
            == match DecodeNumber(f, payload) case Fail => Fail case Ok(v, _) => Ok(v, t)
  {
    hide DecodeNumber, CompletePayload, Denotes, WholeNumber;
    assert payload + [] == payload;
    WholeIsComplete(f.ltype, payload);
    var long, short := DecodeNumber(f, payload + t), DecodeNumber(f, payload);
    if long.Ok? {
      NumberDecodesIff(f, payload, long.value, t);
      NumberDecodesIff(f, payload, long.value, []);
    }
    if short.Ok? {
      NumberDecodesIff(f, payload, short.value, []);
      NumberDecodesIff(f, payload, short.value, t);
    }
  }

  // ---------------------------------------------------------------------------------------------
  // Fields
  // ---------------------------------------------------------------------------------------------

  /** All that matters of a wire type is whether it makes a packed array. */
  lemma {:induction false} WireTypeIgnored(
      fields: seq<Field>, i: nat, wt: nat, wt': nat, st: Progress, bs: seq<Byte>)
    requires i < |fields|
    requires fields[i].htype.Repeated? && fields[i].ltype.Packable() ==> (wt == 2 <==> wt' == 2)
    ensures DecodeField(fields, i, wt, st, bs) == DecodeField(fields, i, wt', st, bs)
  {
    hide DecodeValue, DecodeRepeated, Enter;
    var f, entered := fields[i], Enter(fields, i, st);
    if entered.Some? && SlotOf(fields, i) < |entered.value.slots| {
      var s := entered.value.slots[SlotOf(fields, i)];
      if f.htype.Repeated? && (s.Counted? || s.FixedCount?) {
        RepeatedIgnores(f, wt, wt', s, 0, bs);
        RepeatedIgnores(f, wt, wt', s, entered.value.fixedCount, bs);
      }
    }
  }

  lemma {:induction false} RepeatedIgnores(f: Field, wt: nat, wt': nat, s: Slot, count: nat, bs: seq<Byte>)
    requires (s.Counted? || s.FixedCount?) && (f.ltype.Packable() ==> (wt == 2 <==> wt' == 2))
    ensures DecodeRepeated(f, wt, s, count, bs) == DecodeRepeated(f, wt', s, count, bs)
  {
    hide DecodeValue, DecodePacked, ReadDelimited;
  }

  lemma {:induction false} RepeatedIsWhole(f: Field, wireType: nat, s: Slot, count: nat, bs: seq<Byte>)
    requires (s.Counted? || s.FixedCount?) && f.htype.Repeated? && DecodeRepeated(f, wireType, s, count, bs).Ok?
    ensures var rest := DecodeRepeated(f, wireType, s, count, bs).rest;
            CompletePayload(FieldReadAs(f, wireType), bs[..|bs| - |rest|]) && bs == bs[..|bs| - |rest|] + rest
  {
    hide DecodeValue, DecodePacked, ReadVarint32, CompletePayload;
    if wireType == 2 && f.ltype.Packable() {
      DelimitedFromPrefix(bs, ReadVarint32(bs).value);
    } else {
      ValueIsWhole(f, Num(0), bs);
    }
  }

  lemma {:induction false} FieldIsWhole(fields: seq<Field>, i: nat, wireType: nat, st: Progress, bs: seq<Byte>)
    requires i < |fields| && DecodeField(fields, i, wireType, st, bs).Ok?
    ensures var rest := DecodeField(fields, i, wireType, st, bs).rest;
            CompletePayload(FieldReadAs(fields[i], wireType), bs[..|bs| - |rest|]) && bs == bs[..|bs| - |rest|] + rest
  {
    hide DecodeValue, DecodeRepeated, CompletePayload;
    var f, st1 := fields[i], Enter(fields, i, st).value;
    var s := st1.slots[SlotOf(fields, i)];
    if f.htype.Repeated? {
      RepeatedIsWhole(f, wireType, s, if f.Sized() then 0 else st1.fixedCount, bs);
    } else {
      ValueIsWhole(f, PriorOf(f, s), bs);
    }
  }

  /** What the value of a field that is not repeated is read over. */
  function PriorOf(f: Field, s: Slot): Value {
    match s
    case Plain(v) => v
    case Tracked(_, v) => v
    case Union(which, v) => MemberValue(f, which, v)
    case _ => Num(0)
  }

  lemma {:induction false} RepeatedReads(f: Field, wireType: nat, s: Slot, count: nat, payload: seq<Byte>, t: seq<Byte>)
    requires (s.Counted? || s.FixedCount?) && f.htype.Repeated? && WellFormedField(f)
    requires CompletePayload(FieldReadAs(f, wireType), payload)
    ensures DecodeRepeated(f, wireType, s, count, payload + t)
            == match DecodeRepeated(f, wireType, s, count, payload) case Fail => Fail case Ok(v, _) => Ok(v, t)
  {
    hide DecodeValue, DecodePacked, ReadDelimited, WellFormedField;
    if wireType == 2 && f.ltype.Packable() {
      var n: nat :| n <= |payload| && Announces(payload, n);
      AnnouncedIsRead(payload, n, t);
      AnnouncedIsRead(payload, n, []);
      assert payload + [] == payload;
    } else {
      ValueReads(f, Num(0), payload, t);
    }
  }

  lemma {:induction false} FieldReads(
      fields: seq<Field>, i: nat, wireType: nat, st: Progress, payload: seq<Byte>, t: seq<Byte>)
    requires WellFormed(fields) && i < |fields| && CompletePayload(FieldReadAs(fields[i], wireType), payload)
    ensures DecodeField(fields, i, wireType, st, payload + t)
            == match DecodeField(fields, i, wireType, st, payload) case Fail => Fail case Ok(v, _) => Ok(v, t)
  {
    FieldsWellFormed(fields, i);
    hide DecodeValue, DecodeRepeated, CompletePayload, WellFormedField, WellFormed;
    var f, entered := fields[i], Enter(fields, i, st);
    if entered.Some? && SlotOf(fields, i) < |entered.value.slots| {
      var s := entered.value.slots[SlotOf(fields, i)];
      if !f.htype.Repeated? {
        ValueReads(f, PriorOf(f, s), payload, t);
      } else if s.Counted? || s.FixedCount? {
        RepeatedReads(f, wireType, s, if f.Sized() then 0 else entered.value.fixedCount, payload, t);
      }
    }
  }

  // ---------------------------------------------------------------------------------------------
  // What the decoder accepts
  // ---------------------------------------------------------------------------------------------

  /** The records a decode takes off its input, one a turn. */
  function Taken(fields: seq<Field>, st: Progress, bs: seq<Byte>): seq<Record>
    decreases |bs|
  {
    if bs == [] then []
    else
      match DecodeOne(fields, st, bs)
      case Stop(_) => []
      case Next(st', rest) => [FirstRecord(bs, rest)] + Taken(fields, st', rest)
  }

  /** The record between bs and what is left after it. */
  function FirstRecord(bs: seq<Byte>, rest: seq<Byte>): Record {
    match DecodeTag(bs)
    case Tag(wireType, tag, payload) =>
      Record(tag, wireType, bs[..|bs| - |payload|], if |rest| <= |payload| then payload[..|payload| - |rest|] else [])
    case _ => Record(0, 0, [], [])
  }

  lemma {:induction false} TurnTakesRecord(fields: seq<Field>, st: Progress, bs: seq<Byte>)
    requires DecodeOne(fields, st, bs).Next?
    ensures var rest := DecodeOne(fields, st, bs).rest;
            var r := FirstRecord(bs, rest);
            Whole(fields, r) && bs == r.key + r.payload + rest
  {
    hide ReadVarint32, DecodeField, SkipField, CompletePayload;
    ReadFromPrefix(bs);
    var tag := DecodeTag(bs);
    match FindField(fields, tag.tag, |fields|)
    case None => SkippedIsComplete(tag.wireType, tag.rest);
    case Some(i) => FieldIsWhole(fields, i, tag.wireType, st, tag.rest);
  }

  /** How an accepted input ends: after its last record, or with a zero key. */
  predicate Ends(terminated: bool, z: seq<Byte>) {
    if terminated then ReadVarint32(z) == Ok(0, []) else z == []
  }

  /** An input is accepted only as a sequence of whole records, up to its end or a zero key. */
  lemma {:induction false} AcceptedIsRecords(fields: seq<Field>, st: Progress, bs: seq<Byte>)
    requires DecodeLoop(fields, st, bs).Done?
    ensures var out, rs := DecodeLoop(fields, st, bs), Taken(fields, st, bs);
            && AllWhole(fields, rs)
            && |Flat(rs)| + |out.rest| <= |bs|
            && Ends(out.terminated, bs[|Flat(rs)|..|bs| - |out.rest|])
            && bs == Flat(rs) + bs[|Flat(rs)|..|bs| - |out.rest|] + out.rest
            && (!out.terminated ==> out.rest == [])
    decreases |bs|
  {
    hide DecodeOne, Whole, ReadVarint32, FirstRecord;
    if bs != [] {
      var turn := DecodeOne(fields, st, bs);
      match turn
      case Next(st', rest) =>
        TurnTakesRecord(fields, st, bs);
        AcceptedIsRecords(fields, st', rest);
        OneMoreRecord(FirstRecord(bs, rest), Taken(fields, st', rest), bs, rest, DecodeLoop(fields, st', rest).rest);
      case Stop(_) => ZeroKeyStops(fields, st, bs);
    }
  }

  lemma {:induction false} ZeroKeyStops(fields: seq<Field>, st: Progress, bs: seq<Byte>)
    requires DecodeOne(fields, st, bs).Stop? && DecodeOne(fields, st, bs).out.Done?
    ensures var out := DecodeOne(fields, st, bs).out;
            out.terminated && out.st == st && |out.rest| <= |bs|
            && ReadVarint32(bs[..|bs| - |out.rest|]) == Ok(0, []) && bs == bs[..|bs| - |out.rest|] + out.rest
  {
    hide ReadVarint32, DecodeField, SkipField;
    ReadFromPrefix(bs);
  }

  lemma {:induction false} OneMoreRecord(r: Record, rs: seq<Record>, bs: seq<Byte>, rest: seq<Byte>, end: seq<Byte>)
    requires bs == r.key + r.payload + rest && |Flat(rs)| + |end| <= |rest|
    requires rest == Flat(rs) + rest[|Flat(rs)|..|rest| - |end|] + end
    ensures Flat([r] + rs) == r.key + r.payload + Flat(rs)
    ensures |Flat([r] + rs)| + |end| <= |bs|
    ensures bs[|Flat([r] + rs)|..|bs| - |end|] == rest[|Flat(rs)|..|rest| - |end|]
    ensures bs == Flat([r] + rs) + bs[|Flat([r] + rs)|..|bs| - |end|] + end
  {
    assert ([r] + rs)[1..] == rs;
    var head, mid := r.key + r.payload, rest[|Flat(rs)|..|rest| - |end|];
    assert bs[|head|..] == rest;
    assert bs[|head| + |Flat(rs)|..|bs| - |end|] == mid;
    assert bs == head + Flat(rs) + mid + end;
  }

  /** An input cut off inside a record is refused. */
  lemma {:induction false} TruncatedFails(fields: seq<Field>, st: Progress, a: seq<Byte>, p: seq<Byte>, q: seq<Byte>)
    requires Accepts(fields, st, a) && p != [] && q != []
    requires DecodeOne(fields, DecodeLoop(fields, st, a).st, p + q).Next?
    requires DecodeOne(fields, DecodeLoop(fields, st, a).st, p + q).rest == []
    ensures DecodeLoop(fields, st, a + p) == Failed
  {
    hide DecodeTag, DecodeField, SkipField;
    var st' := DecodeLoop(fields, st, a).st;
    LoopConcatenates(fields, st, a, p);
    match DecodeOne(fields, st', p)
    case Next(_, _) => TurnExtends(fields, st', p, q);
    case Stop(out) =>
      if out.Done? {
        ZeroExtends(p, q);
      }
  }

  lemma {:induction false} ZeroExtends(bs: seq<Byte>, t: seq<Byte>)
    requires DecodeTag(bs).Zero?
    ensures DecodeTag(bs + t).Zero?
  {
    hide ReadVarint32;
    Varint32Extends(bs, t);
  }

  lemma {:induction false} KeyIsRead(r: Record, t: seq<Byte>)
    requires KeyReads(r)
    ensures r.key != [] && DecodeTag(r.key + r.payload + t) == Tag(r.wireType, r.tag, r.payload + t)
  {
    hide ReadVarint32;
    assert r.key + r.payload + t == r.key + (r.payload + t);
    Varint32Extends(r.key, r.payload + t);
    assert [] + (r.payload + t) == r.payload + t;
  }

  lemma {:induction false} RecordSlices(r: Record, t: seq<Byte>)
    ensures (r.key + r.payload + t)[..|r.key|] == r.key && (r.payload + t)[..|r.payload|] == r.payload
  {
  }

  /** Whole records are taken as they are. */
  lemma {:induction false} TakesWhole(fields: seq<Field>, st: Progress, r: Record, t: seq<Byte>)
    requires WellFormed(fields) && Whole(fields, r) && DecodeOne(fields, st, r.key + r.payload + t).Next?
    ensures DecodeOne(fields, st, r.key + r.payload + t).rest == t
    ensures FirstRecord(r.key + r.payload + t, t) == r
  {
    hide ReadVarint32, DecodeTag, DecodeField, SkipField, CompletePayload, WellFormed;
    KeyIsRead(r, t);
    RecordSlices(r, t);
    match FindField(fields, r.tag, |fields|)
    case None => SkipsPayload(r.wireType, r.payload, t);
    case Some(i) => FieldReads(fields, i, r.wireType, st, r.payload, t);
  }

  lemma {:induction false} TakenOfWhole(fields: seq<Field>, st: Progress, rs: seq<Record>)
    requires WellFormed(fields) && AllWhole(fields, rs) && DecodeLoop(fields, st, Flat(rs)).Done?
    ensures Taken(fields, st, Flat(rs)) == rs && !DecodeLoop(fields, st, Flat(rs)).terminated
    decreases |rs|
  {
    hide DecodeOne, Whole, FirstRecord, WellFormed;
    if rs != [] {
      var r, t := rs[0], Flat(rs[1..]);
      assert Whole(fields, r);
      WholeIsNotZero(fields, st, r, t);
      TakesWhole(fields, st, r, t);
      TakenOfWhole(fields, DecodeOne(fields, st, Flat(rs)).st, rs[1..]);
    }
  }

  lemma {:induction false} WholeIsNotZero(fields: seq<Field>, st: Progress, r: Record, t: seq<Byte>)
    requires Whole(fields, r)
    ensures r.key != []
    ensures var turn := DecodeOne(fields, st, r.key + r.payload + t); turn.Next? || turn.out.Failed?
  {
    hide DecodeTag, DecodeField, SkipField, CompletePayload;
    KeyIsRead(r, t);
  }
}
