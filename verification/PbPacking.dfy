/** Arrays of packable types come packed into one record, or one item a record, or in any mixture of both: the decoder ends
    up in the same place. */
module Packing {
  import opened Wrappers
  import opened Wire
  import opened Descriptors
  import opened Encoding
  import opened Decoding
  import opened Merging
  import opened RoundTrip

  /** The items of a repeated field so far. */
  function Have(s: Slot, count: nat): nat {
    if s.Counted? then |s.items| else count
  }

  /** The storage of a repeated field has the kind the field asks for, and room for n more items. */
  predicate TakesMore(f: Field, s: Slot, count: nat, n: nat) {
    && f.htype.Repeated?
    && (if f.Sized() then s.Counted? else s.FixedCount? && |s.items| == f.arraySize)
    && Have(s, count) + n <= f.arraySize
  }

  /** More items in the field's storage. */
  function Stocked(f: Field, s: Slot, count: nat, more: seq<Value>): Stored
    requires s.Counted? || s.FixedCount?
  {
    var stored := Store(s, Have(s, count), more);
    (stored.0, if f.Sized() then count else stored.1)
  }

  lemma {:induction false} StockTwice(f: Field, s: Slot, count: nat, a: seq<Value>, b: seq<Value>)
    requires TakesMore(f, s, count, |a| + |b|)
    ensures var (s1, count1) := Stocked(f, s, count, a);
            && TakesMore(f, s1, count1, |b|)
            && Stocked(f, s1, count1, b) == Stocked(f, s, count, a + b)
  {
    if f.Sized() {
      assert s.items + a + b == s.items + (a + b);
    } else {
      var items := s.items;
      var once := items[..count] + a + items[count + |a|..];
      assert once[..count + |a|] == items[..count] + a;
      assert once[count + |a| + |b|..] == items[count + |a| + |b|..];
      assert items[..count] + a + b == items[..count] + (a + b);
    }
  }

  // ---------------------------------------------------------------------------------------------
  // One record
  // ---------------------------------------------------------------------------------------------

  lemma {:induction false} ItemStocks(f: Field, s: Slot, count: nat, v: Value, t: seq<Byte>)
    requires WellFormedField(f) && f.ltype.Packable() && ValueHasShape(f, v) && TakesMore(f, s, count, 1)
    ensures EncodeValue(f, v).Some?
    ensures DecodeSlot(f, WireTypeOf(f.ltype).Code(), s, count, EncodeValue(f, v).value + t)
            == Ok(Stocked(f, s, count, [RestoredValue(f, v)]), t)
  {
    assert EncodeValue(f, v) == EncodeNumber(f, v.n);
    assert RestoredValue(f, v) == Num(RestoredValue(f, v).n);
    hide DecodeNumber, EncodeNumber, EncodeValue, RestoredValue;
    NumberRoundTrip(f, v.n, t);
    var bs := EncodeNumber(f, v.n).value + t;
    assert DecodeValue(f, Num(0), bs) == Ok(RestoredValue(f, v), t);
    hide DecodeValue;
    assert DecodeRepeated(f, WireTypeOf(f.ltype).Code(), s, count, bs)
        == Ok(Store(s, Have(s, count), [RestoredValue(f, v)]), t);
  }

  lemma {:induction false} PackedStocks(f: Field, s: Slot, count: nat, items: seq<Value>, t: seq<Byte>)
    requires WellFormedField(f) && f.ltype.Packable() && TakesMore(f, s, count, |items|)
    requires forall k | 0 <= k < |items| :: ValueHasShape(f, items[k])
    requires PackedSize(EncodePacked(f, items, 0))
    ensures EncodePacked(f, items, 0).Some?
    ensures DecodeSlot(f, WT_STRING.Code(), s, count, Delimited(EncodePacked(f, items, 0).value) + t)
            == Ok(Stocked(f, s, count, RestoredItems(f, items)), t)
  {
    hide DecodePacked, EncodePacked, ReadDelimited, Delimited, RestoredItems;
    PackedRoundTrip(f, items, 0, Room(f, Have(s, count)));
    assert items[0..] == items;
    DelimitedRoundTrip(EncodePacked(f, items, 0).value, t);
  }

  /** Field i is open to n more items. */
  predicate Open(fields: seq<Field>, i: nat, st: Progress, n: nat)
    requires i < |fields|
  {
    && Enter(fields, i, st).Some? && SlotOf(fields, i) < |st.slots|
    && TakesMore(fields[i], st.slots[SlotOf(fields, i)], Enter(fields, i, st).value.fixedCount, n)
  }

  /** The decoder with more items of field i. */
  function WithItems(fields: seq<Field>, i: nat, st: Progress, more: seq<Value>): Progress
    requires i < |fields| && Open(fields, i, st, 0)
  {
    var entered, s := Enter(fields, i, st).value, SlotOf(fields, i);
    var stored := Stocked(fields[i], st.slots[s], entered.fixedCount, more);
    entered.(slots := st.slots[s := stored.0], fixedCount := stored.1)
  }

  lemma {:induction false} WithItemsTwice(fields: seq<Field>, i: nat, st: Progress, a: seq<Value>, b: seq<Value>)
    requires i < |fields| && Open(fields, i, st, |a| + |b|)
    ensures Open(fields, i, st, 0) && Open(fields, i, WithItems(fields, i, st, a), |b|)
    ensures WithItems(fields, i, WithItems(fields, i, st, a), b) == WithItems(fields, i, st, a + b)
  {
    hide Stocked;
    var entered, s := Enter(fields, i, st).value, SlotOf(fields, i);
    StockTwice(fields[i], st.slots[s], entered.fixedCount, a, b);
    var st1 := WithItems(fields, i, st, a);
    assert Enter(fields, i, st1) == Some(st1);
    var (s1, count1) := Stocked(fields[i], st.slots[s], entered.fixedCount, a);
    assert st.slots[s := s1][s := Stocked(fields[i], s1, count1, b).0] == st.slots[s := Stocked(fields[i], s1, count1, b).0];
  }

  lemma {:induction false} ItemRecordTakes(fields: seq<Field>, i: nat, st: Progress, v: Value, t: seq<Byte>)
    requires WellFormed(fields) && i < |fields| && fields[i].ltype.Packable() && ValueHasShape(fields[i], v)
    requires Open(fields, i, st, 1)
    ensures EncodeRecord(fields[i], v).Some?
    ensures DecodeLoop(fields, st, EncodeRecord(fields[i], v).value + t)
            == DecodeLoop(fields, WithItems(fields, i, st, [RestoredValue(fields[i], v)]), t)
  {
    var f, s := fields[i], SlotOf(fields, i);
    FieldsWellFormed(fields, i);
    hide DecodeLoop, DecodeSlot, EncodeValue, Key, WellFormed, WellFormedField, RestoredValue, Stocked;
    var entered := Enter(fields, i, st).value;
    ItemStocks(f, st.slots[s], entered.fixedCount, v, t);
    RecordDecodes(fields, i, WireTypeOf(f.ltype), st, EncodeValue(f, v).value,
                  Stocked(f, st.slots[s], entered.fixedCount, [RestoredValue(f, v)]), t);
  }

  lemma {:induction false} PackedRecordTakes(fields: seq<Field>, i: nat, st: Progress, items: seq<Value>, t: seq<Byte>)
    requires WellFormed(fields) && i < |fields| && fields[i].ltype.Packable() && Open(fields, i, st, |items|)
    requires forall k | 0 <= k < |items| :: ValueHasShape(fields[i], items[k])
    requires PackedSize(EncodePacked(fields[i], items, 0))
    ensures EncodePacked(fields[i], items, 0).Some?
    ensures DecodeLoop(fields, st, Key(fields[i].tag, WT_STRING) + Delimited(EncodePacked(fields[i], items, 0).value) + t)
            == DecodeLoop(fields, WithItems(fields, i, st, RestoredItems(fields[i], items)), t)
  {
    var f, s := fields[i], SlotOf(fields, i);
    FieldsWellFormed(fields, i);
    hide DecodeLoop, DecodeSlot, EncodePacked, Delimited, Key, WellFormed, WellFormedField, RestoredItems, Stocked;
    var entered := Enter(fields, i, st).value;
    PackedStocks(f, st.slots[s], entered.fixedCount, items, t);
    RecordDecodes(fields, i, WT_STRING, st, Delimited(EncodePacked(f, items, 0).value),
                  Stocked(f, st.slots[s], entered.fixedCount, RestoredItems(f, items)), t);
  }

  // ---------------------------------------------------------------------------------------------
  // Many records
  // ---------------------------------------------------------------------------------------------

  /** One record for each item. */
  lemma {:induction false} RecordsTake(fields: seq<Field>, i: nat, st: Progress, items: seq<Value>, first: nat, t: seq<Byte>)
    requires WellFormed(fields) && i < |fields| && fields[i].ltype.Packable()
    requires first < |items| && Open(fields, i, st, |items| - first)
    requires forall k | 0 <= k < |items| :: ValueHasShape(fields[i], items[k])
    ensures EncodeUnpacked(fields[i], items, first).Some?
    ensures DecodeLoop(fields, st, EncodeUnpacked(fields[i], items, first).value + t)
            == DecodeLoop(fields, WithItems(fields, i, st, RestoredItems(fields[i], items[first..])), t)
    decreases |items| - first
  {
    hide DecodeLoop, EncodeRecord, WellFormed, ValueHasShape, WithItems, Enter, TakesMore;
    var f := fields[i];
    var v := RestoredValue(f, items[first]);
    WithItemsTwice(fields, i, st, [v], RestoredItems(f, items[first + 1..]));
    RestoredLength(f, items[first + 1..]);
    RestoredFirst(f, items, first);
    UnpackedEnd(f, items);
    RoomForFewer(fields, i, st, 1, |items| - first);
    if first + 1 == |items| {
      ItemRecordTakes(fields, i, st, items[first], t);
      assert EncodeUnpacked(f, items, first).value + t == EncodeRecord(f, items[first]).value + t;
    } else {
      RecordsTake(fields, i, WithItems(fields, i, st, [v]), items, first + 1, t);
      var rest := EncodeUnpacked(f, items, first + 1).value + t;
      ItemRecordTakes(fields, i, st, items[first], rest);
      assert EncodeUnpacked(f, items, first).value + t == EncodeRecord(f, items[first]).value + rest;
    }
  }

  lemma {:induction false} RestoredFirst(f: Field, items: seq<Value>, first: nat)
    requires first < |items|
    ensures RestoredItems(f, items[first..]) == [RestoredValue(f, items[first])] + RestoredItems(f, items[first + 1..])
    ensures first + 1 == |items| ==> RestoredItems(f, items[first..]) == [RestoredValue(f, items[first])]
  {
    hide RestoredValue;
    assert items[first..][1..] == items[first + 1..];
  }

  lemma {:induction false} RoomForFewer(fields: seq<Field>, i: nat, st: Progress, m: nat, n: nat)
    requires i < |fields| && Open(fields, i, st, n) && m <= n
    ensures Open(fields, i, st, m) && Open(fields, i, st, 0)
  {
  }

  /** Wherever there is room for them, the records of items one by one take the decoder where one packed record of them
      does: to the items appended, or, in a fixed-count array, filled in from where it stood. */
  lemma {:induction false} UnpackedAsPacked(fields: seq<Field>, i: nat, st: Progress, items: seq<Value>, t: seq<Byte>)
    requires WellFormed(fields) && i < |fields| && fields[i].ltype.Packable()
    requires items != [] && Open(fields, i, st, |items|)
    requires forall k | 0 <= k < |items| :: ValueHasShape(fields[i], items[k])
    requires PackedSize(EncodePacked(fields[i], items, 0))
    ensures EncodeUnpacked(fields[i], items, 0).Some? && EncodePacked(fields[i], items, 0).Some?
    ensures Open(fields, i, st, 0)
    ensures var after := DecodeLoop(fields, WithItems(fields, i, st, RestoredItems(fields[i], items)), t);
            && DecodeLoop(fields, st, EncodeUnpacked(fields[i], items, 0).value + t) == after
            && DecodeLoop(fields, st, Key(fields[i].tag, WT_STRING) + Delimited(EncodePacked(fields[i], items, 0).value) + t)
                 == after
  {
    hide DecodeLoop, EncodeUnpacked, EncodePacked, Delimited, Key, WellFormed, ValueHasShape, WithItems;
    RecordsTake(fields, i, st, items, 0, t);
    assert items[0..] == items;
    PackedRecordTakes(fields, i, st, items, t);
  }
}
