/** Defaults on both sides: what a decoder starts from, and what the encoder leaves out. A field without a has_ flag is left
    out exactly when it would be sent as its type's zero. */
module Defaults {
  import opened Wrappers
  import opened Wire
  import opened Descriptors
  import opened Encoding
  import opened Decoding
  import opened Merging
  import opened RoundTrip
  import opened Numbers
  import opened Exactness

  // ---------------------------------------------------------------------------------------------
  // What a decoder starts from
  // ---------------------------------------------------------------------------------------------

  /** The preset if there is one; otherwise no bytes, zeros, or the defaults of every field inside. */
  predicate DefaultValue(f: Field, v: Value)
    decreases f, 0
  {
    match f.ltype
    case Submessage =>
      && v.Sub? && |v.slots| == SlotsBefore(f.sub, |f.sub|)
      && forall i | 0 <= i < |f.sub| ::
           SlotOf(f.sub, i) < |v.slots| && HoldsDefault(f.sub[i], v.slots[SlotOf(f.sub, i)])
    case FixedLengthBytes =>
      if f.preset.Some? then v == f.preset.value
      else v.Blob? && |v.data| == f.dataSize && forall k | 0 <= k < f.dataSize :: v.data[k] == 0
    case Bytes(_) => v == if f.preset.Some? then f.preset.value else Blob([])
    case String => v == if f.preset.Some? then f.preset.value else Blob([])
    case _ => v == if f.preset.Some? then f.preset.value else Num(0)
  }

  /** No has_ set, no item counted, no member chosen; and the default for every value there is. */
  predicate HoldsDefault(f: Field, s: Slot)
    decreases f, 1
  {
    match f.htype
    case Required => s.Plain? && DefaultValue(f, s.value)
    case Optional =>
      if f.Sized() then s.Tracked? && !s.has && DefaultValue(f, s.value) else s.Plain? && DefaultValue(f, s.value)
    case Repeated =>
      if f.Sized() then s == Counted([])
      else s.FixedCount? && |s.items| == f.arraySize && forall k | 0 <= k < |s.items| :: DefaultValue(f, s.items[k])
    case OneOf => s.Union? && s.which == 0
  }

  lemma {:induction false} InitValueIsDefault(f: Field)
    requires WellFormedField(f)
    ensures DefaultValue(f, InitValue(f))
    decreases f, 0
  {
    if f.ltype.Submessage? {
      forall i | 0 <= i < |f.sub|
        ensures SlotOf(f.sub, i) < |InitMessage(f.sub)|
        ensures HoldsDefault(f.sub[i], InitMessage(f.sub)[SlotOf(f.sub, i)])
      {
        InitHoldsDefault(f.sub, i);
      }
    }
  }

  /** Every field starts from its default, at any depth. */
  lemma {:induction false} InitHoldsDefault(fields: seq<Field>, i: nat)
    requires WellFormed(fields) && i < |fields|
    ensures SlotOf(fields, i) < |InitMessage(fields)|
    ensures HoldsDefault(fields[i], InitMessage(fields)[SlotOf(fields, i)])
    decreases fields, 1
  {
    InitMessageAt(fields, i);
    InitValueIsDefault(fields[i]);
    hide InitMessage, InitValue, DefaultValue;
  }

  /** Nothing at all is a message of defaults, unless a field is required. */
  lemma {:induction false} NothingIsDefaults(fields: seq<Field>)
    requires WellFormed(fields)
    ensures var r := DecodeMessage(fields, []);
            if exists i :: 0 <= i < |fields| && fields[i].htype.Required? then r.Fail?
            else r == Ok(InitMessage(fields), [])
                 && forall i | 0 <= i < |fields| ::
                      SlotOf(fields, i) < |r.value| && HoldsDefault(fields[i], r.value[SlotOf(fields, i)])
  {
    hide InitMessage, HoldsDefault, WellFormed;
    NoneRequired(fields, |fields|);
    assert DecodeLoop(fields, Start(InitMessage(fields)), []) == Done(Start(InitMessage(fields)), [], false);
    var none: set<nat> := {};
    assert TrackedRequired(fields) > 0 ==> 0 !in none;
    forall i | 0 <= i < |fields|
      ensures SlotOf(fields, i) < |InitMessage(fields)|
      ensures HoldsDefault(fields[i], InitMessage(fields)[SlotOf(fields, i)])
    {
      InitHoldsDefault(fields, i);
    }
  }

  lemma {:induction false} NoneRequired(fields: seq<Field>, n: nat)
    requires n <= |fields|
    ensures RequiredBefore(fields, n) == 0 <==> forall i | 0 <= i < n :: !fields[i].htype.Required?
  {
    if n > 0 {
      NoneRequired(fields, n - 1);
    }
  }

  // ---------------------------------------------------------------------------------------------
  // What the encoder leaves out
  // ---------------------------------------------------------------------------------------------

  lemma {:induction false} DelimitedDiffers(a: seq<Byte>, b: seq<Byte>)
    requires |a| < TWO_TO_32 && |b| < TWO_TO_32
    ensures Delimited(a) == Delimited(b) <==> a == b
  {
    hide Delimited, ReadDelimited;
    DelimitedRoundTrip(a, []);
    DelimitedRoundTrip(b, []);
  }

  lemma {:induction false} NumberIsZeroIff(f: Field, n: int)
    requires Numeric(f) && NumberFits(f, n)
    ensures EncodeNumber(f, n) == EncodeNumber(f, 0) <==> n == 0
  {
    hide EncodeNumber, Base128, FromLittleEndian, VarintLength, Shortest;
    assert NumberFits(f, 0);
    EncodesStandard(f, n);
    EncodesStandard(f, 0);
  }

  /** A number, string or bytes field without a has_ flag is left out exactly when it would be sent as the empty value of
      its type; fixed-length bytes are left out only if they have no length. */
  lemma {:induction false} LeftOutIff(f: Field, v: Value)
    requires WellFormedField(f) && !f.ltype.Submessage? && ValueHasShape(f, v)
    ensures if f.ltype.FixedLengthBytes? then IsZero(f, v) <==> f.dataSize == 0
            else IsZero(f, v) <==> EncodeValue(f, v) == EncodeValue(f, ZeroValue(f))
  {
    hide EncodeNumber, Delimited;
    match f.ltype
    case Bytes(_) => if EncodeValue(f, v).Some? { DelimitedDiffers(v.data, []); }
    case String =>
      if CStringLength(v.data) > 0 {
        assert v.data[..CStringLength(v.data)] != [];
      }
      DelimitedDiffers(v.data[..CStringLength(v.data)], []);
      assert CStringLength([]) == 0;
    case FixedLengthBytes =>
    case Submessage => assert false;
    case _ => NumberIsZeroIff(f, v.n);
  }

  lemma {:induction false} KeyNotEmpty(f: Field, wt: WireType)
    ensures Key(f.tag, wt) != []
  {
  }

  lemma {:induction false} RecordNotEmpty(f: Field, v: Value)
    requires EncodeRecord(f, v).Some?
    ensures EncodeRecord(f, v).value != []
  {
    hide EncodeValue, Key;
    KeyNotEmpty(f, WireTypeOf(f.ltype));
  }

  lemma {:induction false} PresentWritesSomething(f: Field, s: Slot)
    requires SlotHasShape(f, s) && Present(f, s) && EncodeField(f, s).Some?
    ensures EncodeField(f, s).value != []
  {
    hide EncodeRecord, Key, ValueHasShape, EncodePacked, Delimited;
    if f.htype.Repeated? {
      KeyNotEmpty(f, WT_STRING);
      if !f.ltype.Packable() {
        assert EncodeUnpacked(f, s.items, 0).Some?;
        assert EncodeUnpacked(f, s.items, 0) == Join(EncodeRecord(f, s.items[0]), EncodeUnpacked(f, s.items, 1));
        RecordNotEmpty(f, s.items[0]);
      }
    } else {
      RecordNotEmpty(f, s.value);
    }
  }

  lemma {:induction false} EmptyFrom(fields: seq<Field>, slots: seq<Slot>, first: nat)
    requires HasShape(fields, slots) && |slots| == SlotsBefore(fields, |fields|) && first <= |fields|
    requires EncodeFrom(fields, slots, first).Some?
    ensures EncodeFrom(fields, slots, first).value == []
            <==> forall i | first <= i < |fields| ::
                   SlotOf(fields, i) < |slots| && !Present(fields[i], slots[SlotOf(fields, i)])
    decreases |fields| - first
  {
    hide EncodeField, Present, HasShape;
    if first < |fields| {
      SlotInRange(fields, first, |fields|);
      var f, s := fields[first], slots[SlotOf(fields, first)];
      ShapeAt(fields, slots, first);
      EmptyFrom(fields, slots, first + 1);
      if Present(f, s) {
        PresentWritesSomething(f, s);
      } else {
        AbsentWritesNothing(f, s);
      }
    }
  }

  /** No array of no length, and every which_ known. */
  predicate Plainly(fields: seq<Field>, slots: seq<Slot>, i: nat)
    requires i < |fields|
  {
    && (FixedArray(fields[i]) ==> fields[i].arraySize > 0)
    && (SlotOf(fields, i) < |slots| && slots[SlotOf(fields, i)].Union? ==>
          KnownMember(fields, i, slots[SlotOf(fields, i)].which))
  }

  lemma {:induction false} DefaultIsAbsent(f: Field, s: Slot)
    requires WellFormedField(f) && SlotHasShape(f, s) && (FixedArray(f) ==> f.arraySize > 0)
    ensures IsProto3Default(f, s) ==> !Present(f, s)
    ensures !Present(f, s) && (s.Union? ==> s.which == 0) ==> IsProto3Default(f, s)
  {
    hide IsZero, ValueHasShape, WellFormed;
  }

  lemma {:induction false} AllDefaultFrom(fields: seq<Field>, slots: seq<Slot>, first: nat)
    requires |slots| == SlotsBefore(fields, |fields|) && first <= |fields|
    ensures AllDefault(fields, slots, first)
            <==> forall i | first <= i < |fields| ::
                   SlotOf(fields, i) < |slots| && IsProto3Default(fields[i], slots[SlotOf(fields, i)])
    decreases |fields| - first
  {
    hide IsProto3Default;
    if first < |fields| {
      SlotInRange(fields, first, |fields|);
      AllDefaultFrom(fields, slots, first + 1);
    }
  }

  /** A submessage without a has_ flag is left out exactly when nothing would be sent of it, given which_ values of its
      own members, and no fixed-count array of no length. */
  lemma {:induction false} SubmessageLeftOutIff(fields: seq<Field>, slots: seq<Slot>)
    requires WellFormed(fields) && HasShape(fields, slots) && EncodeMessage(fields, slots).Some?
    requires forall i | 0 <= i < |fields| :: Plainly(fields, slots, i)
    ensures AllDefault(fields, slots, 0) <==> EncodeMessage(fields, slots) == Some([])
  {
    hide EncodeFrom, IsProto3Default, Present, HasShape, WellFormed;
    ShapeLength(fields, slots);
    AllDefaultFrom(fields, slots, 0);
    EmptyFrom(fields, slots, 0);
    forall i | 0 <= i < |fields|
      ensures SlotOf(fields, i) < |slots|
      ensures IsProto3Default(fields[i], slots[SlotOf(fields, i)]) ==> !Present(fields[i], slots[SlotOf(fields, i)])
    {
      ShapeAt(fields, slots, i);
      FieldsWellFormed(fields, i);
      assert Plainly(fields, slots, i);
      DefaultIsAbsent(fields[i], slots[SlotOf(fields, i)]);
    }
    if EncodeMessage(fields, slots) == Some([]) {
      forall i | 0 <= i < |fields|
        ensures IsProto3Default(fields[i], slots[SlotOf(fields, i)])
      {
        AbsentIsDefault(fields, slots, i);
      }
    }
  }

  lemma {:induction false} AbsentIsDefault(fields: seq<Field>, slots: seq<Slot>, i: nat)
    requires WellFormed(fields) && HasShape(fields, slots) && i < |fields| && Plainly(fields, slots, i)
    requires forall j | 0 <= j < |fields| :: SlotOf(fields, j) < |slots| && !Present(fields[j], slots[SlotOf(fields, j)])
    ensures IsProto3Default(fields[i], slots[SlotOf(fields, i)])
  {
    ShapeAt(fields, slots, i);
    FieldsWellFormed(fields, i);
    var s := slots[SlotOf(fields, i)];
    DefaultIsAbsent(fields[i], s);
    hide HasShape, IsProto3Default, WellFormed, WellFormedField;
    if s.Union? && s.which != 0 {
      var j :| 0 <= j < |fields| && SlotOf(fields, j) == SlotOf(fields, i) && fields[j].tag == s.which;
      MemberIsPresent(fields, i, j, s);
    }
  }

  lemma {:induction false} MemberIsPresent(fields: seq<Field>, i: nat, j: nat, s: Slot)
    requires i < |fields| && j < |fields| && fields[i].htype.OneOf? && s.Union?
    requires SlotOf(fields, j) == SlotOf(fields, i) && fields[j].tag == s.which
    ensures Present(fields[j], s)
  {
    if i != j {
      SharedSlot(fields, i, j);
    }
  }
}
