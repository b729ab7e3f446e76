/** When a decode that has read its whole input succeeds: exactly when each tracked required field had a record, and the
    fixed-count array last filled got all its items. Both are read off the records, not off the decoder's bookkeeping. */
module Acceptance {
  import opened Wrappers
  import opened Wire
  import opened Descriptors
  import opened Encoding
  import opened Decoding
  import opened Merging
  import opened RoundTrip
  import opened Numbers
  import opened Records

  ghost predicate HasTag(rs: seq<Record>, tag: nat) {
    exists r :: r in rs && r.tag == tag
  }

  lemma {:induction false} HasTagCons(r: Record, rs: seq<Record>, tag: nat)
    ensures HasTag([r] + rs, tag) <==> r.tag == tag || HasTag(rs, tag)
  {
    if HasTag(rs, tag) {
      var x :| x in rs && x.tag == tag;
      assert x in [r] + rs;
    }
    if r.tag == tag {
      assert r in [r] + rs;
    }
  }

  // ---------------------------------------------------------------------------------------------
  // Required fields
  // ---------------------------------------------------------------------------------------------

  /** A required field the decoder keeps track of: one of the first 64. */
  predicate MustBeSeen(fields: seq<Field>, i: nat)
    requires i < |fields|
  {
    fields[i].htype.Required? && RequiredBefore(fields, i) < 64
  }

  lemma {:induction false} NumbersIncrease(fields: seq<Field>, i: nat, n: nat)
    requires i < n <= |fields| && fields[i].htype.Required?
    ensures RequiredBefore(fields, i) < RequiredBefore(fields, n)
    decreases n
  {
    if i < n - 1 {
      NumbersIncrease(fields, i, n - 1);
    }
  }

  lemma {:induction false} SameNumber(fields: seq<Field>, i: nat, j: nat)
    requires i < |fields| && j < |fields| && fields[i].htype.Required? && fields[j].htype.Required?
    requires RequiredBefore(fields, i) == RequiredBefore(fields, j)
    ensures i == j
  {
    if i < j {
      NumbersIncrease(fields, i, j);
    } else if j < i {
      NumbersIncrease(fields, j, i);
    }
  }

  /** Every number below the count is that of some required field. */
  lemma {:induction false} Numbered(fields: seq<Field>, n: nat, k: nat) returns (i: nat)
    requires n <= |fields| && k < RequiredBefore(fields, n)
    ensures i < n && fields[i].htype.Required? && RequiredBefore(fields, i) == k
  {
    if fields[n - 1].htype.Required? && RequiredBefore(fields, n - 1) == k {
      i := n - 1;
    } else {
      i := Numbered(fields, n - 1, k);
    }
  }

  lemma {:induction false} TurnSees(fields: seq<Field>, st: Progress, bs: seq<Byte>, i: nat)
    requires WellFormed(fields) && i < |fields| && MustBeSeen(fields, i) && DecodeOne(fields, st, bs).Next?
    ensures var turn := DecodeOne(fields, st, bs);
            RequiredBefore(fields, i) in turn.st.seen
            <==> RequiredBefore(fields, i) in st.seen || FirstRecord(bs, turn.rest).tag == fields[i].tag
  {
    FindsField(fields, i);
    hide DecodeTag, DecodeSlot, SkipField, WellFormed, RequiredBefore;
    var found := FindField(fields, DecodeTag(bs).tag, |fields|);
    if found.Some? && fields[found.value].htype.Required?
       && RequiredBefore(fields, found.value) == RequiredBefore(fields, i) {
      SameNumber(fields, i, found.value);
    }
  }

  /** A required field is seen exactly when one of the records taken has its tag. */
  lemma {:induction false} SeenIffTaken(fields: seq<Field>, st: Progress, bs: seq<Byte>, i: nat)
    requires WellFormed(fields) && i < |fields| && MustBeSeen(fields, i) && DecodeLoop(fields, st, bs).Done?
    ensures RequiredBefore(fields, i) in DecodeLoop(fields, st, bs).st.seen
            <==> RequiredBefore(fields, i) in st.seen || HasTag(Taken(fields, st, bs), fields[i].tag)
    decreases |bs|
  {
    hide DecodeOne, FirstRecord, WellFormed, RequiredBefore, HasTag, MustBeSeen;
    NoTag(fields[i].tag);
    if bs != [] {
      match DecodeOne(fields, st, bs)
      case Stop(out) => StopKeeps(fields, st, bs);
      case Next(st', rest) =>
        TurnSees(fields, st, bs, i);
        SeenIffTaken(fields, st', rest, i);
        HasTagCons(FirstRecord(bs, rest), Taken(fields, st', rest), fields[i].tag);
    }
  }

  lemma {:induction false} NoTag(tag: nat)
    ensures !HasTag([], tag)
  {
  }

  lemma {:induction false} StopKeeps(fields: seq<Field>, st: Progress, bs: seq<Byte>)
    ensures var turn := DecodeOne(fields, st, bs); turn.Stop? && turn.out.Done? ==> turn.out.st == st
  {
    hide DecodeTag, DecodeField, SkipField;
  }

  /** All that must be seen is seen exactly when each tracked required field has a record. */
  lemma {:induction false} PresentIffTagged(fields: seq<Field>, slots: seq<Slot>, bs: seq<Byte>)
    requires WellFormed(fields) && DecodeLoop(fields, Start(slots), bs).Done?
    ensures RequiredPresent(fields, DecodeLoop(fields, Start(slots), bs).st.seen)
            <==> forall i | 0 <= i < |fields| && MustBeSeen(fields, i) ::
                   HasTag(Taken(fields, Start(slots), bs), fields[i].tag)
  {
    hide DecodeLoop, Taken, WellFormed, HasTag;
    var seen, rs := DecodeLoop(fields, Start(slots), bs).st.seen, Taken(fields, Start(slots), bs);
    if RequiredPresent(fields, seen) {
      forall i | 0 <= i < |fields| && MustBeSeen(fields, i)
        ensures HasTag(rs, fields[i].tag)
      {
        NumbersIncrease(fields, i, |fields|);
        assert RequiredBefore(fields, i) in seen;
        SeenIffTaken(fields, Start(slots), bs, i);
      }
    } else {
      var k: nat :| k < TrackedRequired(fields) && k !in seen;
      var i := Numbered(fields, |fields|, k);
      SeenIffTaken(fields, Start(slots), bs, i);
      assert MustBeSeen(fields, i) && !HasTag(rs, fields[i].tag);
    }
  }

  // ---------------------------------------------------------------------------------------------
  // Fixed-count arrays
  // ---------------------------------------------------------------------------------------------

  /** Bytes that end a varint. */
  function Stops(data: seq<Byte>): nat {
    if data == [] then 0 else (if data[0] < 0x80 then 1 else 0) + Stops(data[1..])
  }

  /** How many numbers are packed into some bytes. */
  function PackedItems(l: LType, data: seq<Byte>): nat {
    match l
    case Fixed32 => |data| / 4
    case Fixed64 => |data| / 8
    case _ => Stops(data)
  }

  /** How many items a record of a repeated field has. */
  function ItemsOf(f: Field, r: Record): nat {
    if r.wireType == 2 && f.ltype.Packable() then PackedItems(f.ltype, r.payload[VarintLength(r.payload)..]) else 1
  }

  lemma {:induction false} StopsAppend(a: seq<Byte>, b: seq<Byte>)
    ensures Stops(a + b) == Stops(a) + Stops(b)
  {
    if a == [] {
      assert a + b == b;
    } else {
      assert (a + b)[1..] == a[1..] + b;
      StopsAppend(a[1..], b);
    }
  }

  lemma {:induction false} OneStop(payload: seq<Byte>)
    requires VarintLength(payload) == |payload| > 0
    ensures Stops(payload) == 1
  {
    if payload[0] >= 0x80 {
      OneStop(payload[1..]);
    } else {
      assert payload[1..] == [];
    }
  }

  lemma {:induction false} OneMoreNumber(l: LType, payload: seq<Byte>, rest: seq<Byte>)
    requires l.Packable() && WholeNumber(l, payload)
    ensures PackedItems(l, payload + rest) == 1 + PackedItems(l, rest)
  {
    hide Stops, VarintLength;
    if !l.Fixed32? && !l.Fixed64? {
      StopsAppend(payload, rest);
      OneStop(payload);
    }
  }

  /** A packed array has as many items as numbers are packed into it. */
  lemma {:induction false} PackedLength(f: Field, room: nat, data: seq<Byte>)
    requires f.ltype.Packable() && DecodePacked(f, room, data).Some?
    ensures |DecodePacked(f, room, data).value| == PackedItems(f.ltype, data)
    decreases |data|
  {
    hide DecodeNumber, WholeNumber;
    if data != [] {
      hide PackedItems;
      NumberIsWhole(f, data);
      var rest := DecodeNumber(f, data).rest;
      OneMoreNumber(f.ltype, data[..|data| - |rest|], rest);
      PackedLength(f, room - 1, rest);
    }
  }

  /** The fixed-count array being filled, and how many items it has got. */
  type Run = Option<(nat, nat)>

  function NextRun(fields: seq<Field>, run: Run, r: Record): Run {
    match FindField(fields, r.tag, |fields|)
    case None => run
    case Some(i) =>
      if !FixedArray(fields[i]) then run
      else Some((i, (if run.Some? && run.value.0 == i then run.value.1 else 0) + ItemsOf(fields[i], r)))
  }

  function RunAfter(fields: seq<Field>, run: Run, rs: seq<Record>): Run
    decreases |rs|
  {
    if rs == [] then run else RunAfter(fields, NextRun(fields, run, rs[0]), rs[1..])
  }

  predicate Full(fields: seq<Field>, run: Run) {
    run.Some? ==> run.value.0 < |fields| && run.value.1 == fields[run.value.0].arraySize
  }

  /** An array is full whenever another is begun. */
  predicate FullBetween(fields: seq<Field>, run: Run, rs: seq<Record>)
    decreases |rs|
  {
    rs == []
    || var next := NextRun(fields, run, rs[0]);
       && (run.Some? && next.Some? && next.value.0 != run.value.0 ==> Full(fields, run))
       && FullBetween(fields, next, rs[1..])
  }

  function RunOf(st: Progress): Run {
    match st.fixedField
    case None => None
    case Some(i) => Some((i, st.fixedCount))
  }

  lemma {:induction false} RepeatedCounts(f: Field, wireType: nat, s: Slot, count: nat, bs: seq<Byte>)
    requires s.FixedCount? && DecodeRepeated(f, wireType, s, count, bs).Ok?
    ensures var r := DecodeRepeated(f, wireType, s, count, bs);
            |r.rest| <= |bs|
            && r.value.1 == count + ItemsOf(f, Record(f.tag, wireType, [], bs[..|bs| - |r.rest|]))
  {
    hide DecodeValue, ReadVarint32, PackedItems, VarintLength;
    if wireType == 2 && f.ltype.Packable() {
      hide DecodePacked;
      var data, rest := ReadDelimited(bs).value, ReadDelimited(bs).rest;
      PackedLength(f, Room(f, count), data);
      Length32(bs);
      var n := VarintLength(bs);
      var payload := bs[..|bs| - |rest|];
      assert bs == payload + rest;
      PrefixVarint(bs, |payload|);
      assert payload[n..] == data;
    }
  }

  lemma {:induction false} PrefixVarint(bs: seq<Byte>, k: nat)
    requires 0 < VarintLength(bs) <= k <= |bs|
    ensures VarintLength(bs[..k]) == VarintLength(bs)
  {
    if bs[0] >= 0x80 {
      assert bs[..k][1..] == bs[1..][..k - 1];
      PrefixVarint(bs[1..], k - 1);
    }
  }

  lemma {:induction false} FieldRuns(fields: seq<Field>, i: nat, wireType: nat, st: Progress, bs: seq<Byte>)
    requires i < |fields| && DecodeField(fields, i, wireType, st, bs).Ok?
    ensures var r := DecodeField(fields, i, wireType, st, bs);
            && |r.rest| <= |bs|
            && (!FixedArray(fields[i]) ==> RunOf(r.value) == RunOf(st))
            && (FixedArray(fields[i]) ==>
                  var items := ItemsOf(fields[i], Record(fields[i].tag, wireType, [], bs[..|bs| - |r.rest|]));
                  RunOf(r.value)
                    == Some((i, (if RunOf(st).Some? && RunOf(st).value.0 == i then RunOf(st).value.1 else 0) + items)))
            && (FixedArray(fields[i]) && RunOf(st).Some? && RunOf(st).value.0 != i ==> Full(fields, RunOf(st)))
  {
    hide DecodeValue, DecodeRepeated, ItemsOf;
    var f, entered := fields[i], Enter(fields, i, st).value;
    if FixedArray(f) {
      RepeatedCounts(f, wireType, entered.slots[SlotOf(fields, i)], entered.fixedCount, bs);
    }
  }

  lemma {:induction false} TurnRuns(fields: seq<Field>, st: Progress, bs: seq<Byte>)
    requires DecodeOne(fields, st, bs).Next?
    ensures var turn := DecodeOne(fields, st, bs);
            var next := NextRun(fields, RunOf(st), FirstRecord(bs, turn.rest));
            && RunOf(turn.st) == next
            && (RunOf(st).Some? && next.Some? && next.value.0 != RunOf(st).value.0 ==> Full(fields, RunOf(st)))
  {
    hide DecodeTag, DecodeField, SkipField, PackedItems, VarintLength, RunOf, Full, FixedArray;
    var tag := DecodeTag(bs);
    match FindField(fields, tag.tag, |fields|)
    case None =>
    case Some(i) => FieldRuns(fields, i, tag.wireType, st, tag.rest);
  }

  /** What the decoder remembers of fixed-count arrays is what the records say; and it takes no record of another one
      before an array is full. */
  lemma {:induction false} RunsOfRecords(fields: seq<Field>, st: Progress, bs: seq<Byte>)
    requires DecodeLoop(fields, st, bs).Done?
    ensures RunOf(DecodeLoop(fields, st, bs).st) == RunAfter(fields, RunOf(st), Taken(fields, st, bs))
    ensures FullBetween(fields, RunOf(st), Taken(fields, st, bs))
    decreases |bs|
  {
    hide DecodeOne, FirstRecord, NextRun, RunOf, Full;
    if bs != [] {
      match DecodeOne(fields, st, bs)
      case Stop(out) => StopKeeps(fields, st, bs);
      case Next(st', rest) =>
        TurnRuns(fields, st, bs);
        RunsOfRecords(fields, st', rest);
        assert Taken(fields, st, bs)[1..] == Taken(fields, st', rest);
    }
  }

  // ---------------------------------------------------------------------------------------------
  // Acceptance
  // ---------------------------------------------------------------------------------------------

  lemma {:induction false} FinishIff(fields: seq<Field>, slots: seq<Slot>, bs: seq<Byte>)
    ensures var out := DecodeLoop(fields, Start(slots), bs);
            DecodeNoinit(fields, slots, bs).Ok?
            <==> out.Done? && Full(fields, RunOf(out.st)) && RequiredPresent(fields, out.st.seen)
  {
    hide DecodeLoop, RequiredPresent;
  }

  /** pb_decode_noinit accepts an input its loop gets through exactly when each of the first 64 required fields has a
      record, and the fixed-count array last filled got all its items; every other one has got them anyway. */
  lemma {:induction false} AcceptedIff(fields: seq<Field>, slots: seq<Slot>, bs: seq<Byte>)
    requires WellFormed(fields) && DecodeLoop(fields, Start(slots), bs).Done?
    ensures var rs := Taken(fields, Start(slots), bs);
            && FullBetween(fields, None, rs)
            && (DecodeNoinit(fields, slots, bs).Ok?
                <==> && (forall i | 0 <= i < |fields| && MustBeSeen(fields, i) :: HasTag(rs, fields[i].tag))
                     && Full(fields, RunAfter(fields, None, rs)))
  {
    hide DecodeLoop, DecodeNoinit, RequiredPresent, WellFormed, Taken, Full, FullBetween, HasTag, MustBeSeen;
    FinishIff(fields, slots, bs);
    PresentIffTagged(fields, slots, bs);
    RunsOfRecords(fields, Start(slots), bs);
  }

  /** Without a record of a tracked required field a decode fails, */
  lemma {:induction false} MissingRequiredFails(fields: seq<Field>, slots: seq<Slot>, bs: seq<Byte>, i: nat)
    requires WellFormed(fields) && i < |fields| && MustBeSeen(fields, i)
    requires !HasTag(Taken(fields, Start(slots), bs), fields[i].tag)
    ensures DecodeNoinit(fields, slots, bs).Fail?
  {
    hide DecodeLoop, DecodeNoinit, WellFormed, Taken, Full, FullBetween, HasTag, MustBeSeen;
    FinishIff(fields, slots, bs);
    if DecodeLoop(fields, Start(slots), bs).Done? {
      AcceptedIff(fields, slots, bs);
    }
  }

  /** whatever whole records there are instead. */
  lemma {:induction false} MissingRecordFails(fields: seq<Field>, slots: seq<Slot>, rs: seq<Record>, i: nat)
    requires WellFormed(fields) && i < |fields| && MustBeSeen(fields, i)
    requires AllWhole(fields, rs) && !HasTag(rs, fields[i].tag)
    ensures DecodeNoinit(fields, slots, Flat(rs)).Fail?
  {
    hide DecodeLoop, DecodeNoinit, WellFormed, Taken, AllWhole, Full, HasTag, MustBeSeen;
    FinishIff(fields, slots, Flat(rs));
    if DecodeLoop(fields, Start(slots), Flat(rs)).Done? {
      TakenOfWhole(fields, Start(slots), rs);
      MissingRequiredFails(fields, slots, Flat(rs), i);
    }
  }

  // ---------------------------------------------------------------------------------------------
  // Whole by the key is not whole by the field
  // ---------------------------------------------------------------------------------------------

  function NumberField(tag: nat, htype: HType): Field {
    Field(tag, UVarint, htype, Gap(0), 0, 4, 0, [], None)
  }

  function OptionalAndRequired(): seq<Field> {
    [NumberField(1, Optional), NumberField(2, Required)]
  }

  function TwoNumbers(a: int, b: int): seq<Slot> {
    [Plain(Num(a)), Plain(Num(b))]
  }

  lemma {:induction false} OneByteVarint(b: Byte, t: seq<Byte>)
    requires b < 0x80
    ensures ReadVarint32([b] + t) == Ok(b, t)
    ensures ReadVarint64([b] + t) == Ok(b, t)
  {
    assert ([b] + t)[1..] == t && ([b] + t)[..1] == [b];
    assert Base128([b]) == b;
  }

  lemma {:induction false} ShortNumber(f: Field, wireType: nat, s: Slot, count: nat, n: Byte, t: seq<Byte>)
    requires (f == NumberField(1, Optional) || f == NumberField(2, Required)) && s.Plain? && n < 0x80
    ensures DecodeSlot(f, wireType, s, count, [n] + t) == Ok((Plain(Num(n)), count), t)
  {
    OneByteVarint(n, t);
    assert DecodeValue(f, s.value, [n] + t) == Ok(Num(n), t) by {
      hide ReadVarint64;
    }
    hide DecodeValue;
  }

  /** A key and a number of one byte each. */
  lemma {:induction false} ShortRecord(
      fields: seq<Field>, i: nat, wireType: nat, key: Byte, n: Byte, st: Progress, t: seq<Byte>)
    requires fields == OptionalAndRequired() && i < 2 && |st.slots| == 2 && st.slots[i].Plain?
    requires wireType < 8 && key == 8 * (i + 1) + wireType && n < 0x80
    ensures DecodeOne(fields, st, [key] + ([n] + t))
            == Next(st.(slots := st.slots[i := Plain(Num(n))], seen := if i == 1 then st.seen + {0} else st.seen), t)
  {
    var f, seen := fields[i], if i == 1 then st.seen + {0} else st.seen;
    ShortNumber(f, wireType, st.slots[i], st.fixedCount, n, t);
    OneByteVarint(key, [n] + t);
    assert SlotOf(fields, i) == i && FindField(fields, i + 1, 2) == Some(i);
    assert DecodeTag([key] + ([n] + t)) == Tag(wireType, i + 1, [n] + t);
    assert Enter(fields, i, st) == Some(st.(seen := seen)) by {
      assert i == 1 ==> RequiredBefore(fields, 1) == 0;
    }
    hide DecodeSlot, DecodeTag, Enter, ReadVarint32;
    assert DecodeField(fields, i, wireType, st, [n] + t)
        == Ok(st.(slots := st.slots[i := Plain(Num(n))], seen := seen), t);
  }

  lemma {:induction false} LoopNext(fields: seq<Field>, st: Progress, bs: seq<Byte>)
    requires bs != [] && DecodeOne(fields, st, bs).Next?
    ensures DecodeLoop(fields, st, bs) == DecodeLoop(fields, DecodeOne(fields, st, bs).st, DecodeOne(fields, st, bs).rest)
  {
    hide DecodeOne;
  }

  lemma {:induction false} BothWellFormed()
    ensures WellFormed(OptionalAndRequired()) && InitMessage(OptionalAndRequired()) == TwoNumbers(0, 0)
    ensures TrackedRequired(OptionalAndRequired()) == 1
  {
    var fields := OptionalAndRequired();
    assert InitSlots(fields, 1) == [Plain(Num(0))];
    assert RequiredBefore(fields, 1) == 0;
  }

  lemma {:induction false} ThreeTurns(fields: seq<Field>, st: Progress)
    requires fields == OptionalAndRequired() && st.slots == TwoNumbers(0, 0)
    ensures DecodeLoop(fields, st, [0x0D] + ([5] + ([0x10] + ([7] + ([0] + [])))))
            == Done(st.(slots := TwoNumbers(5, 7), seen := st.seen + {0}), [], true)
  {
    hide DecodeOne, DecodeLoop, OptionalAndRequired;
    var st1 := st.(slots := TwoNumbers(5, 0));
    assert TwoNumbers(0, 0)[0 := Plain(Num(5))] == TwoNumbers(5, 0);
    assert TwoNumbers(5, 0)[1 := Plain(Num(7))] == TwoNumbers(5, 7);
    var end: seq<Byte> := [0] + [];
    var last: seq<Byte> := [0x10] + ([7] + end);
    ShortRecord(fields, 0, 5, 0x0D, 5, st, last);
    LoopNext(fields, st, [0x0D] + ([5] + last));
    ShortRecord(fields, 1, 0, 0x10, 7, st1, end);
    LoopNext(fields, st1, last);
    ZeroKeyEnds(fields, st1.(slots := TwoNumbers(5, 7), seen := st.seen + {0}), []);
  }

  lemma {:induction false} AcceptsBoth(bs: seq<Byte>)
    requires DecodeLoop(OptionalAndRequired(), Start(TwoNumbers(0, 0)), bs)
             == Done(Start(TwoNumbers(5, 7)).(seen := {0}), [], true)
    ensures DecodeMessage(OptionalAndRequired(), bs) == Ok(TwoNumbers(5, 7), [])
  {
    BothWellFormed();
    hide DecodeLoop, InitMessage, OptionalAndRequired, TrackedRequired;
  }

  /** A record of a known field may be whole by the wire type of its key, without being one to the decoder, which reads it
      by the type of the field: here the decoder finds the required field, which no record has, inside another's payload. */
  lemma {:induction false} WireTypeHidesRecord()
    ensures var fields, payload: seq<Byte> := OptionalAndRequired(), [5, 0x10, 7, 0];
            && WellFormed(fields) && KeyReads(Record(1, 5, [0x0D], payload)) && CompletePayload(5, payload)
            && DecodeMessage(fields, [0x0D] + payload) == Ok(TwoNumbers(5, 7), [])
  {
    BothWellFormed();
    OneByteVarint(0x0D, []);
    assert [0x0D] + [] == [0x0D];
    hide InitMessage, WellFormed, ReadVarint32, TrackedRequired, DecodeLoop, DecodeMessage, OptionalAndRequired;
    var payload: seq<Byte> := [5, 0x10, 7, 0];
    assert [5] + ([0x10] + ([7] + ([0] + []))) == payload;
    ThreeTurns(OptionalAndRequired(), Start(TwoNumbers(0, 0)));
    AcceptsBoth([0x0D] + payload);
  }
}
