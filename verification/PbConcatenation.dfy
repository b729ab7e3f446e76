/** What decoding an encoded message over a struct comes to, in every case; and so what two encoded messages, one after
    the other, decode to. */
module Concatenation {
  import opened Wrappers
  import opened Wire
  import opened Descriptors
  import opened Encoding
  import opened Decoding
  import opened Merging
  import opened RoundTrip
  import opened Soundness

  // ---------------------------------------------------------------------------------------------
  // Fields that cannot be merged
  // ---------------------------------------------------------------------------------------------

  /** A record whose field is refused ends the decode. */
  lemma {:induction false} RecordFails(
      fields: seq<Field>, i: nat, wt: WireType, st: Progress, payload: seq<Byte>, t: seq<Byte>)
    requires WellFormed(fields) && i < |fields| && Enter(fields, i, st).Some?
    requires var st1 := Enter(fields, i, st).value;
             SlotOf(fields, i) < |st1.slots| &&
             DecodeSlot(fields[i], wt.Code(), st1.slots[SlotOf(fields, i)], st1.fixedCount, payload + t).Fail?
    ensures DecodeLoop(fields, st, Key(fields[i].tag, wt) + payload + t) == Failed
  {
    hide DecodeTag, DecodeSlot, Enter, VarintBytes, SkipField;
    var bs := Key(fields[i].tag, wt) + payload + t;
    assert bs == Key(fields[i].tag, wt) + (payload + t);
    RecordKey(fields[i].tag, wt.Code(), payload + t);
    FindsField(fields, i);
    assert bs != [];
    assert DecodeField(fields, i, wt.Code(), st, payload + t).Fail?;
    assert DecodeOne(fields, st, bs) == Stop(Failed);
  }

  lemma {:induction false} PackedRefused(f: Field, items: seq<Value>, first: nat, room: nat)
    requires f.ltype.Packable() && WellFormedField(f) && first <= |items| && room < |items| - first
    requires forall k | 0 <= k < |items| :: ValueHasShape(f, items[k])
    ensures EncodePacked(f, items, first).Some?
    ensures DecodePacked(f, room, EncodePacked(f, items, first).value).None?
    decreases |items| - first
  {
    hide DecodeNumber, EncodeNumber;
    PackedRoundTrip(f, items, first + 1, |items|);
    var more := EncodePacked(f, items, first + 1).value;
    NumberRoundTrip(f, items[first].n, more);
    assert EncodeValue(f, items[first]) == EncodeNumber(f, items[first].n);
    if room > 0 {
      PackedRefused(f, items, first + 1, room - 1);
    }
  }

  lemma {:induction false} ValueRefused(f: Field, prior: Value, v: Value, t: seq<Byte>)
    requires WellFormedField(f) && ValueHasShape(f, v) && ValueSendable(f, v)
    requires Ready(f, prior) && !ValueMergeFits(f, prior, v)
    ensures EncodeValue(f, v).Some? && DecodeValue(f, prior, EncodeValue(f, v).value + t).Fail?
    decreases f, 0, 0
  {
    hide ReadDelimited, Delimited, DecodeLoop, EncodeMessage, MergeFits, Sendable, HasShape, WellFormed;
    MessageRoundTrip(f.sub, v.slots);
    MessageRefused(f.sub, prior.slots, v.slots);
    DelimitedRoundTrip(EncodeMessage(f.sub, v.slots).value, t);
  }

  lemma {:induction false} SingularRefused(f: Field, p: Slot, s: Slot, count: nat, t: seq<Byte>)
    requires WellFormedField(f) && !f.htype.Repeated? && SlotHasShape(f, p) && SlotHasShape(f, s)
    requires SlotSendable(f, s) && Present(f, s) && !SlotMergeFits(f, p, s)
    ensures EncodeValue(f, s.value).Some?
    ensures EncodeField(f, s) == Some(Key(f.tag, WireTypeOf(f.ltype)) + EncodeValue(f, s.value).value)
    ensures DecodeSlot(f, WireTypeOf(f.ltype).Code(), p, count, EncodeValue(f, s.value).value + t).Fail?
    decreases f, 1, 0
  {
    var prior := if f.htype.OneOf? then MemberValue(f, p.which, p.value) else p.value;
    assert Ready(f, prior) by {
      if f.ltype.Submessage? && f.htype.OneOf? {
        InitHasShape(f.sub);
      }
    }
    hide DecodeValue, EncodeValue, InitMessage, Key;
    ValueRefused(f, prior, s.value, t);
  }

  /** A packed array too long for the room that is left. */
  lemma {:induction false} PackedArrayRefused(f: Field, p: Slot, s: Slot, count: nat, t: seq<Byte>)
    requires WellFormedField(f) && f.htype.Repeated? && f.ltype.Packable() && SlotHasShape(f, p)
    requires SlotHasShape(f, s) && SlotSendable(f, s) && Present(f, s)
    requires Room(f, if f.Sized() then |p.items| else count) < |s.items|
    ensures EncodePacked(f, s.items, 0).Some?
    ensures EncodeField(f, s) == Some(Key(f.tag, WT_STRING) + Delimited(EncodePacked(f, s.items, 0).value))
    ensures DecodeSlot(f, WT_STRING.Code(), p, count, Delimited(EncodePacked(f, s.items, 0).value) + t).Fail?
  {
    hide DecodePacked, EncodePacked, ReadDelimited, Key, Delimited;
    PackedRefused(f, s.items, 0, Room(f, if f.Sized() then |p.items| else count));
    DelimitedRoundTrip(EncodePacked(f, s.items, 0).value, t);
  }

  /** An item for which there is no room. */
  lemma {:induction false} ItemRefused(f: Field, wireType: nat, p: Slot, count: nat, bs: seq<Byte>)
    requires f.htype.Repeated? && !f.ltype.Packable() && (if f.Sized() then p.Counted? else p.FixedCount?)
    requires (if p.Counted? then |p.items| else count) >= f.arraySize
    ensures DecodeSlot(f, wireType, p, count, bs).Fail?
  {
    hide DecodeValue, ReadDelimited;
  }

  lemma {:induction false} UnpackedParts(f: Field, items: seq<Value>, k: nat)
    requires k < |items| && EncodeUnpacked(f, items, k).Some?
    ensures EncodeValue(f, items[k]).Some? && EncodeUnpacked(f, items, k + 1).Some?
    ensures EncodeUnpacked(f, items, k).value
            == Key(f.tag, WireTypeOf(f.ltype)) + EncodeValue(f, items[k]).value + EncodeUnpacked(f, items, k + 1).value
  {
    hide EncodeValue, Key;
  }

  /** Records of items that run out of room. */
  lemma {:induction false} UnpackedRefused(
      fields: seq<Field>, i: nat, st: Progress, items: seq<Value>, k: nat, t: seq<Byte>)
    requires WellFormed(fields) && i < |fields| && SlotOf(fields, i) < |st.slots| && k < |items|
    requires fields[i].htype.Repeated? && !fields[i].ltype.Packable() && fields[i].Sized()
    requires RoomFor(fields[i], st.slots[SlotOf(fields, i)], items, k)
    requires |st.slots[SlotOf(fields, i)].items| + |items| > fields[i].arraySize
    requires forall j | 0 <= j < |items| :: ValueHasShape(fields[i], items[j]) && ValueSendable(fields[i], items[j])
    requires FixedComplete(fields, st) && EncodeUnpacked(fields[i], items, k).Some?
    ensures Enter(fields, i, st).Some?
    ensures DecodeLoop(fields, ItemsState(fields, i, st, items, k), EncodeUnpacked(fields[i], items, k).value + t) == Failed
    decreases |items| - k
  {
    hide DecodeLoop, EncodeValue, DecodeSlot, Key, WellFormed, WellFormedField, ValueHasShape, ValueSendable, Enter,
         EncodeUnpacked, PartialSlot;
    var f, s := fields[i], SlotOf(fields, i);
    var p := st.slots[s];
    EntersItems(fields, i, st, items, 0);
    EntersItems(fields, i, st, items, k);
    UnpackedParts(f, items, k);
    var payload, rest := EncodeValue(f, items[k]).value, EncodeUnpacked(f, items, k + 1).value + t;
    assert EncodeUnpacked(f, items, k).value + t == Key(f.tag, WireTypeOf(f.ltype)) + payload + rest;
    if |p.items| + k + 1 <= f.arraySize {
      ItemRecord(fields, i, st, items, k, rest);
      UnpackedRefused(fields, i, st, items, k + 1, t);
    } else {
      var stK := ItemsState(fields, i, st, items, k);
      PartialStart(f, p, items);
      PartialLength(f, p, items, k);
      ItemRefused(f, WireTypeOf(f.ltype).Code(), PartialSlot(f, p, items, k), Enter(fields, i, stK).value.fixedCount,
                  payload + rest);
      RecordFails(fields, i, WireTypeOf(f.ltype), stK, payload, rest);
    }
  }

  lemma {:induction false} PartialLength(f: Field, p: Slot, items: seq<Value>, k: nat)
    requires k <= |items| && p.Counted?
    ensures PartialSlot(f, p, items, k).Counted? && |PartialSlot(f, p, items, k).items| == |p.items| + k
  {
    RestoredLength(f, items[..k]);
  }

  // ---------------------------------------------------------------------------------------------
  // Decoding an encoded message over a struct
  // ---------------------------------------------------------------------------------------------

  /** A field that cannot be merged ends the decode. */
  lemma {:induction false} FieldRefused(fields: seq<Field>, start: Progress, slots: seq<Slot>, i: nat, t: seq<Byte>)
    requires WellFormed(fields) && HasShape(fields, start.slots) && HasShape(fields, slots) && i < |fields|
    requires Sendable(fields, slots) && FixedComplete(fields, start) && !Merges(fields, start, slots, i)
    requires EncodeField(fields[i], slots[SlotOf(fields, i)]).Some?
    ensures DecodeLoop(fields, StateAfter(fields, start, slots, i), EncodeField(fields[i], slots[SlotOf(fields, i)]).value + t)
            == Failed
    decreases fields[i], 3, 0
  {
    hide DecodeLoop, EncodeValue, DecodeSlot, Key, SlotSendable, SlotHasShape, WellFormed, WellFormedField, MergedSlot,
         EncodePacked, Delimited, ItemsState, MergedUpTo, EncodeUnpacked;
    var f, s := fields[i], SlotOf(fields, i);
    var slot, st, p := slots[s], StateAfter(fields, start, slots, i), start.slots[s];
    FieldsWellFormed(fields, i);
    ShapeAt(fields, slots, i);
    ShapeAt(fields, start.slots, i);
    PriorWhenReached(fields, start.slots, slots, i);
    if !f.htype.Repeated? {
      SingularRefused(f, p, slot, st.fixedCount, t);
      RecordFails(fields, i, WireTypeOf(f.ltype), st, EncodeValue(f, slot.value).value, t);
    } else if !f.Sized() {
      FixedRefused(fields, st, slot, p, i, t);
    } else {
      CountedRefused(fields, st, slot, p, i, t);
    }
  }

  /** A packed field refused. */
  lemma {:induction false} PackedFieldFails(fields: seq<Field>, st: Progress, slot: Slot, p: Slot, i: nat, t: seq<Byte>)
    requires WellFormed(fields) && i < |fields| && SlotOf(fields, i) < |st.slots| && st.slots[SlotOf(fields, i)] == p
    requires SlotHasShape(fields[i], p) && SlotHasShape(fields[i], slot) && SlotSendable(fields[i], slot)
    requires fields[i].htype.Repeated? && fields[i].ltype.Packable() && Present(fields[i], slot)
    requires Enter(fields, i, st) == Some(st)
    requires Room(fields[i], if fields[i].Sized() then |p.items| else st.fixedCount) < |slot.items|
    ensures EncodeField(fields[i], slot).Some?
    ensures DecodeLoop(fields, st, EncodeField(fields[i], slot).value + t) == Failed
  {
    FieldsWellFormed(fields, i);
    hide DecodeLoop, DecodeSlot, EncodeField, Key, Delimited, WellFormed, WellFormedField, EncodePacked, SlotHasShape,
         SlotSendable, Present, Enter;
    PackedArrayRefused(fields[i], p, slot, st.fixedCount, t);
    RecordFails(fields, i, WT_STRING, st, Delimited(EncodePacked(fields[i], slot.items, 0).value), t);
  }

  /** A first item refused. */
  lemma {:induction false} FirstItemFails(fields: seq<Field>, st: Progress, slot: Slot, p: Slot, i: nat, t: seq<Byte>)
    requires WellFormed(fields) && i < |fields| && SlotOf(fields, i) < |st.slots| && st.slots[SlotOf(fields, i)] == p
    requires FixedArray(fields[i]) && !fields[i].ltype.Packable() && p.FixedCount?
    requires slot.FixedCount? && slot.items != [] && EncodeUnpacked(fields[i], slot.items, 0).Some?
    requires Enter(fields, i, st) == Some(st) && st.fixedCount >= fields[i].arraySize
    ensures DecodeLoop(fields, st, EncodeUnpacked(fields[i], slot.items, 0).value + t) == Failed
  {
    var f := fields[i];
    hide DecodeLoop, DecodeSlot, Key, WellFormed, EncodeUnpacked, EncodeValue, Enter;
    UnpackedParts(f, slot.items, 0);
    var payload, rest := EncodeValue(f, slot.items[0]).value, EncodeUnpacked(f, slot.items, 1).value + t;
    ItemRefused(f, WireTypeOf(f.ltype).Code(), p, st.fixedCount, payload + rest);
    RecordFails(fields, i, WireTypeOf(f.ltype), st, payload, rest);
    assert EncodeUnpacked(f, slot.items, 0).value + t == Key(f.tag, WireTypeOf(f.ltype)) + payload + rest;
  }

  /** A fixed-count array that was the last one filled cannot be filled again. */
  lemma {:induction false} FixedRefused(fields: seq<Field>, st: Progress, slot: Slot, p: Slot, i: nat, t: seq<Byte>)
    requires WellFormed(fields) && i < |fields| && SlotOf(fields, i) < |st.slots| && st.slots[SlotOf(fields, i)] == p
    requires SlotHasShape(fields[i], p) && SlotHasShape(fields[i], slot) && SlotSendable(fields[i], slot)
    requires FixedArray(fields[i]) && Present(fields[i], slot)
    requires FixedComplete(fields, st) && st.fixedField == Some(i) && EncodeField(fields[i], slot).Some?
    ensures DecodeLoop(fields, st, EncodeField(fields[i], slot).value + t) == Failed
  {
    assert Enter(fields, i, st) == Some(st);
    assert !fields[i].ltype.Packable() ==> EncodeField(fields[i], slot) == EncodeUnpacked(fields[i], slot.items, 0);
    hide DecodeLoop, EncodeField, EncodeUnpacked, WellFormed, Enter;
    if fields[i].ltype.Packable() {
      PackedFieldFails(fields, st, slot, p, i, t);
    } else {
      FirstItemFails(fields, st, slot, p, i, t);
    }
  }

  lemma {:induction false} CountedRefused(fields: seq<Field>, st: Progress, slot: Slot, p: Slot, i: nat, t: seq<Byte>)
    requires WellFormed(fields) && i < |fields| && SlotOf(fields, i) < |st.slots| && st.slots[SlotOf(fields, i)] == p
    requires SlotHasShape(fields[i], p) && SlotHasShape(fields[i], slot) && SlotSendable(fields[i], slot)
    requires fields[i].htype.Repeated? && fields[i].Sized() && Present(fields[i], slot)
    requires !SlotMergeFits(fields[i], p, slot)
    requires FixedComplete(fields, st) && EncodeField(fields[i], slot).Some?
    ensures DecodeLoop(fields, st, EncodeField(fields[i], slot).value + t) == Failed
  {
    assert Enter(fields, i, st) == Some(st);
    assert !fields[i].ltype.Packable() ==> EncodeField(fields[i], slot) == EncodeUnpacked(fields[i], slot.items, 0);
    hide DecodeLoop, WellFormed, EncodeUnpacked, EncodeField, Enter;
    if fields[i].ltype.Packable() {
      PackedFieldFails(fields, st, slot, p, i, t);
    } else {
      UnpackedRefused(fields, i, st, slot.items, 0, t);
    }
  }

  lemma {:induction false} FieldsRefused(fields: seq<Field>, start: Progress, slots: seq<Slot>, i: nat)
    requires WellFormed(fields) && HasShape(fields, start.slots) && HasShape(fields, slots) && i <= |fields|
    requires Sendable(fields, slots) && FixedComplete(fields, start)
    requires exists j :: i <= j < |fields| && !Merges(fields, start, slots, j)
    requires EncodeFrom(fields, slots, i).Some?
    ensures DecodeLoop(fields, StateAfter(fields, start, slots, i), EncodeFrom(fields, slots, i).value) == Failed
    decreases fields, 0, |fields| - i
  {
    hide DecodeOne, DecodeLoop, StateAfter, EncodeField, WellFormed, Sendable, HasShape, Merges;
    ShapeLength(fields, slots);
    ShapeLength(fields, start.slots);
    SlotInRange(fields, i, |fields|);
    FirstField(fields, slots, i);
    var rest := EncodeFrom(fields, slots, i + 1).value;
    if Merges(fields, start, slots, i) {
      FieldMerges(fields, start, slots, i, rest);
      FieldsRefused(fields, start, slots, i + 1);
    } else {
      FieldRefused(fields, start, slots, i, rest);
    }
  }

  lemma {:induction false} MessageRefused(fields: seq<Field>, prior: seq<Slot>, slots: seq<Slot>)
    requires WellFormed(fields) && HasShape(fields, prior) && HasShape(fields, slots)
    requires Sendable(fields, slots) && !MergeFits(fields, prior, slots)
    ensures EncodeMessage(fields, slots).Some?
    ensures DecodeNoinit(fields, prior, EncodeMessage(fields, slots).value).Fail?
    decreases fields, 1, 0
  {
    hide DecodeLoop, WellFormed, HasShape, Sendable, EncodeFrom, SlotMergeFits, Present;
    ShapeLength(fields, slots);
    ShapeLength(fields, prior);
    MessageRoundTrip(fields, slots);
    var i :| 0 <= i < |fields| && !FitsAt(fields, prior, slots, i);
    NotMerged(fields, Start(prior), slots, i);
    FieldsRefused(fields, Start(prior), slots, 0);
  }

  lemma {:induction false} NotMerged(fields: seq<Field>, start: Progress, slots: seq<Slot>, i: nat)
    requires |start.slots| == |slots| == SlotsBefore(fields, |fields|) && i < |fields| && FixedComplete(fields, start)
    requires !FitsAt(fields, start.slots, slots, i)
    ensures !Merges(fields, start, slots, i)
  {
  }

  /** Decoding an encoded message over a struct merges it, if the arrays have room for the items of both, and fails
      otherwise. */
  lemma {:induction false} MergesIff(fields: seq<Field>, prior: seq<Slot>, slots: seq<Slot>)
    requires WellFormed(fields) && HasShape(fields, prior) && HasShape(fields, slots) && Sendable(fields, slots)
    ensures EncodeMessage(fields, slots).Some? && |prior| == |slots| == SlotsBefore(fields, |fields|)
    ensures DecodeNoinit(fields, prior, EncodeMessage(fields, slots).value)
            == if MergeFits(fields, prior, slots) then Ok(Merged(fields, prior, slots), []) else Fail
  {
    hide DecodeNoinit, EncodeMessage, WellFormed, HasShape, Sendable, MergeFits, Merged;
    ShapeLength(fields, slots);
    ShapeLength(fields, prior);
    if MergeFits(fields, prior, slots) {
      MessageMerges(fields, prior, slots);
    } else {
      MessageRefused(fields, prior, slots);
    }
  }

  // ---------------------------------------------------------------------------------------------
  // Two messages, one after the other
  // ---------------------------------------------------------------------------------------------

  /** A fixed-count array with at least one item: every encoding of the message fills it. */
  predicate FilledArray(f: Field) {
    FixedArray(f) && f.arraySize > 0
  }

  /** The only such array there is. */
  predicate OnlyArray(fields: seq<Field>, j: nat)
    requires j < |fields|
  {
    FilledArray(fields[j]) && forall k | 0 <= k < |fields| && FilledArray(fields[k]) :: k == j
  }

  predicate OneFixedArray(fields: seq<Field>) {
    exists j :: 0 <= j < |fields| && OnlyArray(fields, j)
  }

  /** The array last filled after n fields is the last one among them, or was filled before if there is none. */
  lemma {:induction false} LastFilled(fields: seq<Field>, start: Progress, slots: seq<Slot>, n: nat)
    requires |start.slots| == |slots| == SlotsBefore(fields, |fields|) && n <= |fields| && FixedComplete(fields, start)
    requires HasShape(fields, slots)
    ensures var last := StateAfter(fields, start, slots, n).fixedField;
            && (forall j | 0 <= j < n && FilledArray(fields[j]) :: last.Some? && j <= last.value < n)
            && (last == start.fixedField || (last.Some? && last.value < n && FilledArray(fields[last.value])))
            && ((forall j | 0 <= j < n :: !FilledArray(fields[j])) ==> last == start.fixedField)
  {
    hide MergedUpTo, HasShape;
    if n > 0 {
      LastFilled(fields, start, slots, n - 1);
      var i := n - 1;
      SlotInRange(fields, i, |fields|);
      if FixedArray(fields[i]) {
        FilledIsPresent(fields, slots, i);
      }
    }
  }

  lemma {:induction false} FilledIsPresent(fields: seq<Field>, slots: seq<Slot>, i: nat)
    requires HasShape(fields, slots) && i < |fields| && FixedArray(fields[i])
    ensures SlotOf(fields, i) < |slots| && (Present(fields[i], slots[SlotOf(fields, i)]) <==> FilledArray(fields[i]))
  {
    ShapeAt(fields, slots, i);
  }

  /** After a message with them, the fixed-count arrays of a second one can be filled unless there is just one. */
  lemma {:induction false} ArraysRefillIff(fields: seq<Field>, start: Progress, x: seq<Slot>, y: seq<Slot>, i: nat)
    requires HasShape(fields, x) && HasShape(fields, y) && FixedComplete(fields, start) && start.fixedField.None?
    requires |start.slots| == |x| == |y| == SlotsBefore(fields, |fields|)
    requires i < |fields| && FilledArray(fields[i])
    ensures var st := StateAfter(fields, start, x, |fields|);
            StateAfter(fields, st, y, i).fixedField == Some(i)
            <==> forall j | 0 <= j < |fields| && FilledArray(fields[j]) :: j == i
  {
    hide HasShape, StateAfter;
    LastFilled(fields, start, x, |fields|);
    LastFilled(fields, StateAfter(fields, start, x, |fields|), y, i);
  }

  /** So the second message is merged if the arrays have room and there is not just one fixed-count array. */
  lemma {:induction false} AllMergeIff(fields: seq<Field>, start: Progress, x: seq<Slot>, st: Progress, y: seq<Slot>)
    requires HasShape(fields, x) && HasShape(fields, y) && FixedComplete(fields, start) && start.fixedField.None?
    requires |start.slots| == |x| == |st.slots| == |y| == SlotsBefore(fields, |fields|) && FixedComplete(fields, st)
    requires st == StateAfter(fields, start, x, |fields|)
    ensures (forall j | 0 <= j < |fields| :: Merges(fields, st, y, j))
            <==> MergeFits(fields, st.slots, y) && !OneFixedArray(fields)
  {
    hide Merges, OnlyArray, OneFixedArray, FitsAt, MergeFits, StateAfter, HasShape, FixedComplete, SlotsBefore;
    forall j | 0 <= j < |fields|
      ensures Merges(fields, st, y, j) <==> FitsAt(fields, st.slots, y, j) && !OnlyArray(fields, j)
    {
      MergesMeans(fields, start, x, y, j);
    }
    AllOrSome(fields, st, y);
  }

  lemma {:induction false} AllOrSome(fields: seq<Field>, st: Progress, y: seq<Slot>)
    requires |st.slots| == |y| == SlotsBefore(fields, |fields|) && FixedComplete(fields, st)
    requires forall j | 0 <= j < |fields| :: Merges(fields, st, y, j) <==> FitsAt(fields, st.slots, y, j) && !OnlyArray(fields, j)
    ensures (forall j | 0 <= j < |fields| :: Merges(fields, st, y, j))
            <==> MergeFits(fields, st.slots, y) && !OneFixedArray(fields)
  {
    hide Merges, OnlyArray, FitsAt, FixedComplete;
    if j :| 0 <= j < |fields| && !Merges(fields, st, y, j) {
      if OnlyArray(fields, j) {
        assert OneFixedArray(fields);
      } else {
        assert !FitsAt(fields, st.slots, y, j);
        assert !MergeFits(fields, st.slots, y);
      }
    } else {
      forall j | 0 <= j < |fields|
        ensures FitsAt(fields, st.slots, y, j) && !OnlyArray(fields, j)
      {
        assert Merges(fields, st, y, j);
      }
      assert MergeFits(fields, st.slots, y);
      assert !OneFixedArray(fields);
    }
  }

  lemma {:induction false} MergesMeans(fields: seq<Field>, start: Progress, x: seq<Slot>, y: seq<Slot>, j: nat)
    requires HasShape(fields, x) && HasShape(fields, y) && FixedComplete(fields, start) && start.fixedField.None?
    requires |start.slots| == |x| == |y| == SlotsBefore(fields, |fields|) && j < |fields|
    ensures var st := StateAfter(fields, start, x, |fields|);
            Merges(fields, st, y, j) <==> FitsAt(fields, st.slots, y, j) && !OnlyArray(fields, j)
  {
    SlotInRange(fields, j, |fields|);
    assert !Present(fields[j], y[SlotOf(fields, j)]) ==>
             SlotMergeFits(fields[j], StateAfter(fields, start, x, |fields|).slots[SlotOf(fields, j)], y[SlotOf(fields, j)]);
    hide StateAfter, SlotMergeFits, Present, HasShape;
    if FixedArray(fields[j]) {
      FilledIsPresent(fields, y, j);
      if FilledArray(fields[j]) {
        ArraysRefillIff(fields, start, x, y, j);
      }
    }
  }

  /** Two encoded messages decode to the second merged into what comes back of the first, if the arrays have room for
      the items of both and the message has not just one fixed-count array; otherwise they do not decode. */
  lemma {:induction false} EncodingsConcatenate(fields: seq<Field>, x: seq<Slot>, y: seq<Slot>)
    requires WellFormed(fields) && HasShape(fields, x) && HasShape(fields, y) && Sendable(fields, x) && Sendable(fields, y)
    ensures EncodeMessage(fields, x).Some? && EncodeMessage(fields, y).Some?
    ensures |x| == |y| == SlotsBefore(fields, |fields|)
    ensures DecodeMessage(fields, EncodeMessage(fields, x).value + EncodeMessage(fields, y).value)
            == if MergeFits(fields, Restored(fields, x), y) && !OneFixedArray(fields)
               then Ok(Merged(fields, Restored(fields, x), y), []) else Fail
  {
    hide DecodeLoop, WellFormed, HasShape, Sendable, MergeFits, MergedUpTo, RestoredUpTo, EncodeFrom, InitMessage,
         StateAfter, Merges, OneFixedArray, RequiredPresent;
    ShapeLength(fields, x);
    ShapeLength(fields, y);
    InitHasShape(fields);
    ShapeLength(fields, InitMessage(fields));
    var start := Start(InitMessage(fields));
    var st := StateAfter(fields, start, x, |fields|);
    var ex, ey := EncodeMessage(fields, x), EncodeMessage(fields, y);
    FirstDecodes(fields, x);
    FirstDecodes(fields, y);
    LoopConcatenates(fields, start, ex.value, ey.value);
    RestoredHasShape(fields, x);
    AllMergeIff(fields, start, x, st, y);
    if forall j | 0 <= j < |fields| :: Merges(fields, st, y, j) {
      FieldsMerge(fields, st, y, 0);
      StateAtStart(fields, st, y);
      AllRequired(fields, st, y);
    } else {
      FieldsRefused(fields, st, y, 0);
      StateAtStart(fields, st, y);
    }
  }

  lemma {:induction false} StateAtStart(fields: seq<Field>, st: Progress, slots: seq<Slot>)
    requires |st.slots| == |slots| == SlotsBefore(fields, |fields|) && FixedComplete(fields, st)
    ensures StateAfter(fields, st, slots, 0) == st
  {
  }

  lemma {:induction false} AllRequired(fields: seq<Field>, st: Progress, slots: seq<Slot>)
    requires |st.slots| == |slots| == SlotsBefore(fields, |fields|) && FixedComplete(fields, st)
    ensures RequiredPresent(fields, StateAfter(fields, st, slots, |fields|).seen)
  {
    hide StateAfter;
    RequiredSeen(fields, st, slots, |fields|);
  }

  /** The first message takes the decoder to what comes back of it. */
  lemma {:induction false} FirstDecodes(fields: seq<Field>, x: seq<Slot>)
    requires WellFormed(fields) && HasShape(fields, x) && Sendable(fields, x)
    ensures |InitMessage(fields)| == |x| == SlotsBefore(fields, |fields|) && EncodeMessage(fields, x).Some?
    ensures var start := Start(InitMessage(fields));
            var st := StateAfter(fields, start, x, |fields|);
            st.slots == Restored(fields, x) && DecodeLoop(fields, start, EncodeMessage(fields, x).value) == Done(st, [], false)
  {
    hide DecodeLoop, WellFormed, HasShape, Sendable, MergeFits, MergedUpTo, RestoredUpTo, EncodeFrom, InitMessage;
    ShapeLength(fields, x);
    InitHasShape(fields);
    DefaultsFit(fields, x);
    AllMerge(fields, InitMessage(fields), x);
    FieldsMerge(fields, Start(InitMessage(fields)), x, 0);
    MergedIntoDefaults(fields, x, |fields|);
  }

  lemma {:induction false} RestoredHasShape(fields: seq<Field>, x: seq<Slot>)
    requires WellFormed(fields) && HasShape(fields, x) && Sendable(fields, x)
    ensures |x| == SlotsBefore(fields, |fields|) && HasShape(fields, Restored(fields, x))
  {
    hide HasShape, WellFormed, Sendable, Restored, DecodeNoinit, EncodeMessage, InitMessage, Good;
    ShapeLength(fields, x);
    MessageRoundTrip(fields, x);
    InitHasShape(fields);
    GoodMeans(fields, InitMessage(fields));
    MessageGood(false, fields, InitMessage(fields), EncodeMessage(fields, x).value);
    GoodMeans(fields, Restored(fields, x));
  }

  /** A message that is one array of one item: sent once it decodes, sent twice it does not. */
  lemma {:induction false} FixedArrayTwiceFails(b: Byte)
    ensures var fields := [Field(1, FixedLengthBytes, Repeated, Gap(0), 0, 1, 1, [], None)];
            var x := [FixedCount([Blob([b])])];
            && WellFormed(fields) && HasShape(fields, x)
            && EncodeMessage(fields, x).Some?
            && DecodeMessage(fields, EncodeMessage(fields, x).value).Ok?
            && DecodeMessage(fields, EncodeMessage(fields, x).value + EncodeMessage(fields, x).value) == Fail
  {
    var fields := [Field(1, FixedLengthBytes, Repeated, Gap(0), 0, 1, 1, [], None)];
    var x := [FixedCount([Blob([b])])];
    hide EncodeMessage, DecodeMessage, EncodeFrom, MergeFits, Restored, RestoredUpTo, Merged, MergedUpTo;
    assert SlotOf(fields, 0) == 0 && SlotsBefore(fields, 1) == 1;
    assert OnlyArray(fields, 0);
    MessageRoundTrip(fields, x);
    EncodingsConcatenate(fields, x, x);
  }
}
