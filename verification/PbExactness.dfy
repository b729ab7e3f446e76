/** When the struct that comes back is the one that was sent. A field without a has_ flag is not written when it is
    zero, and then comes back as its default: the two agree exactly when that default is zero as well. */
module Exactness {
  import opened Wrappers
  import opened Wire
  import opened Descriptors
  import opened Encoding
  import opened Decoding
  import opened RoundTrip

  // ---------------------------------------------------------------------------------------------
  // Structs that mean the same message
  // ---------------------------------------------------------------------------------------------

  predicate SameValue(f: Field, a: Value, b: Value)
    decreases f, 0
  {
    match f.ltype
    case Bool => a.Num? && b.Num? && (a.n != 0 <==> b.n != 0)
    case String => a.Blob? && b.Blob? && a.data[..CStringLength(a.data)] == b.data[..CStringLength(b.data)]
    case Submessage => a.Sub? && b.Sub? && SameMessage(f.sub, a.slots, b.slots)
    case _ => a == b
  }

  predicate SameItems(f: Field, a: seq<Value>, b: seq<Value>)
    decreases f, 1
  {
    |a| == |b| && forall k | 0 <= k < |a| :: SameValue(f, a[k], b[k])
  }

  /** Same presence, and the same value where there is one. */
  predicate SameSlot(f: Field, a: Slot, b: Slot)
    decreases f, 2
  {
    match (a, b)
    case (Plain(v), Plain(w)) => SameValue(f, v, w)
    case (Tracked(h, v), Tracked(g, w)) => h == g && (h ==> SameValue(f, v, w))
    case (Counted(v), Counted(w)) => SameItems(f, v, w)
    case (FixedCount(v), FixedCount(w)) => SameItems(f, v, w)
    case (Union(h, v), Union(g, w)) => h == g && (h == f.tag ==> SameValue(f, v, w))
    case _ => false
  }

  predicate SameMessage(fields: seq<Field>, a: seq<Slot>, b: seq<Slot>)
    decreases fields, 0
  {
    && |a| == |b| == SlotsBefore(fields, |fields|)
    && forall i | 0 <= i < |fields| ::
         SlotOf(fields, i) < |a| && SameSlot(fields[i], a[SlotOf(fields, i)], b[SlotOf(fields, i)])
  }

  // ---------------------------------------------------------------------------------------------
  // Structs that come back as they were
  // ---------------------------------------------------------------------------------------------

  /** which_ names no member, or one there is. */
  predicate KnownMember(fields: seq<Field>, i: nat, which: nat)
    requires i < |fields|
  {
    which == 0 ||
    exists j | 0 <= j < |fields| :: SlotOf(fields, j) == SlotOf(fields, i) && fields[j].tag == which
  }

  predicate Restorable(fields: seq<Field>, slots: seq<Slot>)
    decreases fields, 0
  {
    && |slots| == SlotsBefore(fields, |fields|)
    && forall i | 0 <= i < |fields| ::
         && SlotOf(fields, i) < |slots|
         && var s := slots[SlotOf(fields, i)];
            SlotRestorable(fields[i], s) && (s.Union? ==> KnownMember(fields, i, s.which))
  }

  /** A singular field left out must have a zero default; anything present must be restorable itself. */
  predicate SlotRestorable(f: Field, s: Slot)
    decreases f, 1
  {
    match s
    case Plain(v) => if Present(f, s) then ValueRestorable(f, v) else IsZero(f, InitValue(f))
    case Tracked(has, v) => has ==> ValueRestorable(f, v)
    case Counted(items) => forall k | 0 <= k < |items| :: ValueRestorable(f, items[k])
    case FixedCount(items) => forall k | 0 <= k < |items| :: ValueRestorable(f, items[k])
    case Union(which, v) => which == f.tag ==> ValueRestorable(f, v)
  }

  predicate ValueRestorable(f: Field, v: Value)
    decreases f, 0
  {
    f.ltype.Submessage? ==> v.Sub? && Restorable(f.sub, v.slots)
  }

  // ---------------------------------------------------------------------------------------------
  // Zero values
  // ---------------------------------------------------------------------------------------------

  /** Two zeros of one type are the same value, */
  lemma {:induction false} ZerosAgree(f: Field, a: Value, b: Value)
    requires WellFormedField(f) && ValueHasShape(f, a) && ValueHasShape(f, b) && IsZero(f, a) && IsZero(f, b)
    ensures SameValue(f, a, b)
    decreases f, 0
  {
    if f.ltype.Submessage? {
      forall i | 0 <= i < |f.sub|
        ensures SlotOf(f.sub, i) < |a.slots|
        ensures SameSlot(f.sub[i], a.slots[SlotOf(f.sub, i)], b.slots[SlotOf(f.sub, i)])
      {
        AllDefaultAt(f.sub, a.slots, 0, i);
        AllDefaultAt(f.sub, b.slots, 0, i);
        DefaultsAgree(f.sub[i], a.slots[SlotOf(f.sub, i)], b.slots[SlotOf(f.sub, i)]);
      }
    }
  }

  lemma {:induction false} DefaultsAgree(f: Field, a: Slot, b: Slot)
    requires WellFormedField(f) && SlotHasShape(f, a) && SlotHasShape(f, b)
    requires IsProto3Default(f, a) && IsProto3Default(f, b)
    ensures SameSlot(f, a, b)
    decreases f, 1
  {
    if f.htype.Optional? && !f.Sized() {
      ZerosAgree(f, a.value, b.value);
    }
  }

  /** and the same value as a zero is zero. */
  lemma {:induction false} ZeroCarriesOver(f: Field, a: Value, b: Value)
    requires ValueHasShape(f, a) && ValueHasShape(f, b) && SameValue(f, a, b)
    ensures IsZero(f, a) <==> IsZero(f, b)
    decreases f, 0
  {
    match f.ltype
    case Submessage => AllDefaultCarryOver(f.sub, a.slots, b.slots, 0);
    case String => assert CStringLength(b.data) == |b.data[..CStringLength(b.data)]|;
    case _ =>
  }

  /** What two structs of one shape and meaning hold for one field. */
  lemma {:induction false} SameAt(fields: seq<Field>, a: seq<Slot>, b: seq<Slot>, i: nat)
    requires HasShape(fields, a) && HasShape(fields, b) && SameMessage(fields, a, b) && i < |fields|
    ensures SlotOf(fields, i) < |a| == |b|
    ensures var s := SlotOf(fields, i);
            SameSlot(fields[i], a[s], b[s]) && SlotHasShape(fields[i], a[s]) && SlotHasShape(fields[i], b[s])
  {
    hide SameSlot, SlotHasShape;
  }

  lemma {:induction false} AllDefaultCarryOver(fields: seq<Field>, a: seq<Slot>, b: seq<Slot>, i: nat)
    requires i <= |fields| && HasShape(fields, a) && HasShape(fields, b) && SameMessage(fields, a, b)
    ensures AllDefault(fields, a, i) <==> AllDefault(fields, b, i)
    decreases fields, 0, |fields| - i
  {
    if i < |fields| {
      SameAt(fields, a, b, i);
      hide HasShape, SameMessage, SameSlot, SlotHasShape, IsProto3Default;
      DefaultCarriesOver(fields[i], a[SlotOf(fields, i)], b[SlotOf(fields, i)]);
      AllDefaultCarryOver(fields, a, b, i + 1);
    }
  }

  lemma {:induction false} DefaultCarriesOver(f: Field, a: Slot, b: Slot)
    requires SlotHasShape(f, a) && SlotHasShape(f, b) && SameSlot(f, a, b)
    ensures IsProto3Default(f, a) <==> IsProto3Default(f, b)
    decreases f, 1
  {
    if f.htype.Optional? && !f.Sized() {
      ZeroCarriesOver(f, a.value, b.value);
    }
  }

  // ---------------------------------------------------------------------------------------------
  // The exact condition
  // ---------------------------------------------------------------------------------------------

  lemma {:induction false} PrefixOfPrefix(s: seq<Byte>)
    ensures var p := s[..CStringLength(s)]; p[..CStringLength(p)] == p
  {
  }

  lemma {:induction false} ValueComesBack(f: Field, v: Value)
    requires WellFormedField(f) && ValueHasShape(f, v)
    ensures SameValue(f, v, RestoredValue(f, v)) <==> ValueRestorable(f, v)
    decreases f, 0
  {
    hide Restored, CStringLength, HasShape;
    match f.ltype
    case Submessage =>
      assert |v.slots| == SlotsBefore(f.sub, |f.sub|) by { ShapeLength(f.sub, v.slots); }
      MessageComesBack(f.sub, v.slots);
    case String => PrefixOfPrefix(v.data);
    case _ =>
  }

  lemma {:induction false} ItemsComeBack(f: Field, items: seq<Value>)
    requires WellFormedField(f) && forall k | 0 <= k < |items| :: ValueHasShape(f, items[k])
    ensures SameItems(f, items, RestoredItems(f, items)) <==> forall k | 0 <= k < |items| :: ValueRestorable(f, items[k])
    decreases f, 1
  {
    hide SameValue, ValueRestorable, RestoredValue;
    forall k | 0 <= k < |items|
      ensures SameValue(f, items[k], RestoredItems(f, items)[k]) <==> ValueRestorable(f, items[k])
    {
      ValueComesBack(f, items[k]);
    }
  }

  lemma {:induction false} PresentComesBack(f: Field, s: Slot)
    requires WellFormedField(f) && SlotHasShape(f, s) && Present(f, s)
    ensures SameSlot(f, s, RestoredSlot(f, s)) <==> SlotRestorable(f, s)
    decreases f, 2
  {
    hide SameValue, SameItems, ValueRestorable, RestoredValue, RestoredItems, ValueHasShape;
    match s
    case Plain(v) => ValueComesBack(f, v);
    case Tracked(_, v) => ValueComesBack(f, v);
    case Union(_, v) => ValueComesBack(f, v);
    case Counted(items) => ItemsComeBack(f, items);
    case FixedCount(items) => ItemsComeBack(f, items);
  }

  lemma {:induction false} AbsentComesBack(f: Field, s: Slot)
    requires WellFormedField(f) && SlotHasShape(f, s) && !Present(f, s) && !f.htype.OneOf?
    ensures SameSlot(f, s, InitSlot(f)) <==> SlotRestorable(f, s)
  {
    hide SameValue, IsZero, InitValue, ValueHasShape;
    if s.Plain? {
      InitValueHasShape(f);
      if IsZero(f, InitValue(f)) {
        ZerosAgree(f, s.value, InitValue(f));
      }
      if SameValue(f, s.value, InitValue(f)) {
        ZeroCarriesOver(f, s.value, InitValue(f));
      }
    }
  }

  lemma {:induction false} SlotComesBack(fields: seq<Field>, slots: seq<Slot>, i: nat)
    requires WellFormed(fields) && HasShape(fields, slots) && i < |fields|
    ensures SlotOf(fields, i) < |slots| && |slots| == SlotsBefore(fields, |fields|)
    ensures var s := SlotOf(fields, i);
            SameSlot(fields[i], slots[s], Restored(fields, slots)[s]) <==>
              SlotRestorable(fields[i], slots[s]) && (slots[s].Union? ==> KnownMember(fields, i, slots[s].which))
    decreases fields[i], 3
  {
    hide RestoredUpTo, SameSlot, SlotRestorable, RestoredSlot, InitSlot;
    var f, s := fields[i], SlotOf(fields, i);
    var slot := slots[s];
    assert SlotHasShape(f, slot) && WellFormedField(f);
    if Present(f, slot) {
      PresentComesBack(f, slot);
      PresentIsRestored(fields, slots, i);
    } else if !f.htype.OneOf? {
      AbsentComesBack(f, slot);
      AbsentIsInitial(fields, slots, i);
    } else {
      UnionComesBack(fields, slots, i);
    }
  }

  lemma {:induction false} PresentIsRestored(fields: seq<Field>, slots: seq<Slot>, i: nat)
    requires WellFormed(fields) && |slots| == SlotsBefore(fields, |fields|) && i < |fields|
    requires SlotOf(fields, i) < |slots| && Present(fields[i], slots[SlotOf(fields, i)])
    ensures Restored(fields, slots)[SlotOf(fields, i)] == RestoredSlot(fields[i], slots[SlotOf(fields, i)])
  {
    hide RestoredUpTo, Present, RestoredSlot;
    forall j | i < j < |fields| && SlotOf(fields, j) == SlotOf(fields, i)
      ensures !Present(fields[j], slots[SlotOf(fields, i)])
    {
      OnePresent(fields, slots, i, j);
    }
    RestoredAt(fields, slots, |fields|, i);
  }

  lemma {:induction false} AbsentIsInitial(fields: seq<Field>, slots: seq<Slot>, i: nat)
    requires |slots| == SlotsBefore(fields, |fields|) && i < |fields| && !fields[i].htype.OneOf?
    requires SlotOf(fields, i) < |slots| && !Present(fields[i], slots[SlotOf(fields, i)])
    ensures Restored(fields, slots)[SlotOf(fields, i)] == InitSlot(fields[i])
  {
    hide RestoredUpTo, Present, InitSlot;
    forall j | 0 <= j < |fields| && SlotOf(fields, j) == SlotOf(fields, i)
      ensures !Present(fields[j], slots[SlotOf(fields, i)])
    {
      if j != i {
        SharedSlot(fields, i, j);
      }
    }
    StillInitial(fields, slots, |fields|, i);
  }

  /** A member that is not the one which_ names: the union comes back if which_ names another, or none. */
  lemma {:induction false} UnionComesBack(fields: seq<Field>, slots: seq<Slot>, i: nat)
    requires WellFormed(fields) && |slots| == SlotsBefore(fields, |fields|) && i < |fields| && fields[i].htype.OneOf?
    requires SlotOf(fields, i) < |slots| && slots[SlotOf(fields, i)].Union? && slots[SlotOf(fields, i)].which != fields[i].tag
    ensures var s := SlotOf(fields, i);
            SameSlot(fields[i], slots[s], Restored(fields, slots)[s]) <==>
              SlotRestorable(fields[i], slots[s]) && KnownMember(fields, i, slots[s].which)
  {
    hide RestoredUpTo, SameValue, RestoredValue;
    var s := SlotOf(fields, i);
    var which := slots[s].which;
    if j :| 0 <= j < |fields| && SlotOf(fields, j) == s && fields[j].tag == which {
      SharedSlot(fields, i, j);
      PresentIsRestored(fields, slots, j);
    } else {
      forall j | 0 <= j < |fields| && SlotOf(fields, j) == s
        ensures !Present(fields[j], slots[s])
      {
        if j != i { SharedSlot(fields, i, j); }
      }
      StillInitial(fields, slots, |fields|, i);
    }
  }

  /** The struct the decoder makes of the encoder's output is the one that was sent if and only if every singular
      field left out has a zero default and every which_ names a member. */
  lemma {:induction false} MessageComesBack(fields: seq<Field>, slots: seq<Slot>)
    requires WellFormed(fields) && HasShape(fields, slots)
    ensures |slots| == SlotsBefore(fields, |fields|)
    ensures SameMessage(fields, slots, Restored(fields, slots)) <==> Restorable(fields, slots)
    decreases fields, 0
  {
    hide SameSlot, SlotRestorable, KnownMember, RestoredUpTo;
    forall i | 0 <= i < |fields|
      ensures SlotOf(fields, i) < |slots|
      ensures var s := SlotOf(fields, i);
              SameSlot(fields[i], slots[s], Restored(fields, slots)[s]) <==>
                SlotRestorable(fields[i], slots[s]) && (slots[s].Union? ==> KnownMember(fields, i, slots[s].which))
    {
      SlotComesBack(fields, slots, i);
    }
  }

  /** Message round trip, with its exact condition. */
  lemma {:induction false} RoundTripExact(fields: seq<Field>, slots: seq<Slot>)
    requires WellFormed(fields) && HasShape(fields, slots) && Sendable(fields, slots)
    ensures EncodeMessage(fields, slots).Some?
    ensures var r := DecodeMessage(fields, EncodeMessage(fields, slots).value);
            r.Ok? && r.rest == [] && (SameMessage(fields, slots, r.value) <==> Restorable(fields, slots))
  {
    hide DecodeMessage, EncodeMessage, Restored, SameMessage, Restorable, WellFormed, HasShape, Sendable;
    MessageRoundTrip(fields, slots);
    MessageComesBack(fields, slots);
  }

  // ---------------------------------------------------------------------------------------------
  // Descriptors for which the condition always holds, and one for which it does not
  // ---------------------------------------------------------------------------------------------

  /** No field without a has_ flag has a default of its own. */
  predicate PlainDefaults(fields: seq<Field>)
    decreases fields, 0
  {
    forall i | 0 <= i < |fields| :: PlainDefault(fields[i])
  }

  predicate PlainDefault(f: Field)
    decreases f, 0
  {
    && (f.htype.Optional? && !f.Sized() ==> f.preset.None?)
    && (f.ltype.Submessage? ==> PlainDefaults(f.sub))
  }

  /** Then whatever a singular field is left out for, its default is zero too. */
  lemma {:induction false} PlainDefaultsAreZero(f: Field, v: Value)
    requires PlainDefault(f) && WellFormedField(f) && f.preset.None? && IsZero(f, v)
    ensures IsZero(f, InitValue(f))
    decreases f, 0
  {
    if f.ltype.Submessage? {
      InitIsDefault(f.sub, v.slots, 0);
    }
  }

  lemma {:induction false} InitIsDefault(fields: seq<Field>, slots: seq<Slot>, i: nat)
    requires i <= |fields| && WellFormed(fields) && PlainDefaults(fields) && AllDefault(fields, slots, i)
    ensures AllDefault(fields, InitMessage(fields), i)
    decreases fields, 0, |fields| - i
  {
    hide InitMessage, InitValue, IsZero;
    if i < |fields| {
      InitMessageAt(fields, i);
      var f, s := fields[i], slots[SlotOf(fields, i)];
      if f.htype.Optional? && !f.Sized() {
        PlainDefaultsAreZero(f, s.value);
      }
      InitIsDefault(fields, slots, i + 1);
    }
  }

  /** At every depth, what is present has a which_ of 0 or of a member. */
  predicate MembersKnown(fields: seq<Field>, slots: seq<Slot>)
    decreases fields, 0
  {
    && |slots| == SlotsBefore(fields, |fields|)
    && forall i | 0 <= i < |fields| ::
         && SlotOf(fields, i) < |slots|
         && var s := slots[SlotOf(fields, i)];
            SlotMembersKnown(fields[i], s) && (s.Union? ==> KnownMember(fields, i, s.which))
  }

  predicate SlotMembersKnown(f: Field, s: Slot)
    decreases f, 1
  {
    match s
    case Plain(v) => Present(f, s) ==> ValueMembersKnown(f, v)
    case Tracked(has, v) => has ==> ValueMembersKnown(f, v)
    case Counted(items) => forall k | 0 <= k < |items| :: ValueMembersKnown(f, items[k])
    case FixedCount(items) => forall k | 0 <= k < |items| :: ValueMembersKnown(f, items[k])
    case Union(which, v) => which == f.tag ==> ValueMembersKnown(f, v)
  }

  predicate ValueMembersKnown(f: Field, v: Value)
    decreases f, 0
  {
    f.ltype.Submessage? ==> v.Sub? && MembersKnown(f.sub, v.slots)
  }

  lemma {:induction false} PlainValueRestorable(f: Field, v: Value)
    requires WellFormedField(f) && PlainDefault(f) && ValueHasShape(f, v)
    ensures ValueRestorable(f, v) <==> ValueMembersKnown(f, v)
    decreases f, 0
  {
    if f.ltype.Submessage? {
      PlainRestorable(f.sub, v.slots);
    }
  }

  lemma {:induction false} PlainItemsRestorable(f: Field, items: seq<Value>)
    requires WellFormedField(f) && PlainDefault(f) && forall k | 0 <= k < |items| :: ValueHasShape(f, items[k])
    ensures forall k | 0 <= k < |items| :: ValueRestorable(f, items[k]) <==> ValueMembersKnown(f, items[k])
    decreases f, 1
  {
    hide ValueRestorable, ValueMembersKnown;
    forall k | 0 <= k < |items|
      ensures ValueRestorable(f, items[k]) <==> ValueMembersKnown(f, items[k])
    {
      PlainValueRestorable(f, items[k]);
    }
  }

  lemma {:induction false} PlainSlotRestorable(f: Field, s: Slot)
    requires WellFormedField(f) && PlainDefault(f) && SlotHasShape(f, s)
    ensures SlotRestorable(f, s) <==> SlotMembersKnown(f, s)
    decreases f, 2
  {
    hide ValueRestorable, ValueMembersKnown, ValueHasShape, WellFormedField, IsZero;
    match s
    case Plain(v) =>
      PlainValueRestorable(f, v);
      if !Present(f, s) {
        PlainDefaultsAreZero(f, v);
      }
    case Tracked(has, v) => PlainValueRestorable(f, v);
    case Counted(items) => PlainItemsRestorable(f, items);
    case FixedCount(items) => PlainItemsRestorable(f, items);
    case Union(which, v) =>
      if which == f.tag {
        PlainValueRestorable(f, v);
      }
  }

  /** For such descriptors which_ is all that matters. */
  lemma {:induction false} PlainRestorable(fields: seq<Field>, slots: seq<Slot>)
    requires WellFormed(fields) && PlainDefaults(fields) && HasShape(fields, slots)
    ensures Restorable(fields, slots) <==> MembersKnown(fields, slots)
    decreases fields, 0
  {
    hide SlotRestorable, SlotMembersKnown, KnownMember, SlotHasShape;
    forall i | 0 <= i < |fields|
      ensures SlotOf(fields, i) < |slots|
      ensures SlotRestorable(fields[i], slots[SlotOf(fields, i)]) <==>
                SlotMembersKnown(fields[i], slots[SlotOf(fields, i)])
    {
      PlainSlotRestorable(fields[i], slots[SlotOf(fields, i)]);
    }
  }

  /** Without custom defaults on fields that have no has_ flag, the round trip gives back the message that was sent, if
      and only if every which_ in it names a member or none. */
  lemma {:induction false} RoundTripPlain(fields: seq<Field>, slots: seq<Slot>)
    requires WellFormed(fields) && PlainDefaults(fields) && HasShape(fields, slots) && Sendable(fields, slots)
    ensures EncodeMessage(fields, slots).Some?
    ensures var r := DecodeMessage(fields, EncodeMessage(fields, slots).value);
            r.Ok? && r.rest == [] && (SameMessage(fields, slots, r.value) <==> MembersKnown(fields, slots))
  {
    hide DecodeMessage, EncodeMessage, SameMessage, Restorable, MembersKnown, WellFormed, HasShape, Sendable,
         PlainDefaults;
    RoundTripExact(fields, slots);
    PlainRestorable(fields, slots);
  }

  /** A singular uint32 with default 5 that is sent as 0 comes back as 5. */
  lemma {:induction false} CustomDefaultReplacesZero()
    ensures var fields := [Field(1, UVarint, Optional, Gap(0), 0, 4, 0, [], Some(Num(5)))];
            && WellFormed(fields) && HasShape(fields, [Plain(Num(0))])
            && EncodeMessage(fields, [Plain(Num(0))]) == Some([])
            && DecodeMessage(fields, []) == Ok([Plain(Num(5))], [])
  {
    var f := Field(1, UVarint, Optional, Gap(0), 0, 4, 0, [], Some(Num(5)));
    var fields, slots := [f], [Plain(Num(0))];
    assert SlotOf(fields, 0) == 0 && SlotsBefore(fields, 1) == 1;
    assert EncodeField(f, slots[0]) == Some([]);
    assert EncodeFrom(fields, slots, 1) == Some([]);
    assert EncodeFrom(fields, slots, 0) == Some([]) by {
      var none: seq<Byte> := [];
      assert none + none == none;
    }
    assert InitSlots(fields, 1) == InitSlots(fields, 0) + [InitSlot(f)];
    assert InitMessage(fields) == [Plain(Num(5))];
    assert RequiredBefore(fields, 1) == 0;
  }

  // ---------------------------------------------------------------------------------------------
  // The encoding tells messages apart
  // ---------------------------------------------------------------------------------------------

  lemma {:induction false} SameValueEncodesAlike(f: Field, a: Value, b: Value)
    requires ValueHasShape(f, a) && ValueHasShape(f, b) && SameValue(f, a, b)
    ensures EncodeValue(f, a) == EncodeValue(f, b)
    decreases f, 0, 0
  {
    if f.ltype.Submessage? {
      SameEncodesAlike(f.sub, a.slots, b.slots, 0);
    }
  }

  lemma {:induction false} SameItemsEncodeAlike(f: Field, a: seq<Value>, b: seq<Value>, k: nat)
    requires SameItems(f, a, b) && k <= |a|
    requires forall j | 0 <= j < |a| :: ValueHasShape(f, a[j]) && ValueHasShape(f, b[j])
    ensures EncodePacked(f, a, k) == EncodePacked(f, b, k)
    ensures EncodeUnpacked(f, a, k) == EncodeUnpacked(f, b, k)
    decreases f, 1, |a| - k
  {
    hide EncodeValue, ValueHasShape, SameValue;
    if k < |a| {
      SameValueEncodesAlike(f, a[k], b[k]);
      SameItemsEncodeAlike(f, a, b, k + 1);
    }
  }

  lemma {:induction false} SameSlotEncodesAlike(f: Field, a: Slot, b: Slot)
    requires SlotHasShape(f, a) && SlotHasShape(f, b) && SameSlot(f, a, b)
    ensures EncodeField(f, a) == EncodeField(f, b)
    decreases f, 2, 0
  {
    hide EncodeValue, ValueHasShape, SameValue, EncodePacked, EncodeUnpacked, IsZero;
    match a
    case Plain(v) =>
      SameValueEncodesAlike(f, v, b.value);
      ZeroCarriesOver(f, v, b.value);
    case Tracked(has, v) => if has { SameValueEncodesAlike(f, v, b.value); }
    case Union(which, v) => if which == f.tag { SameValueEncodesAlike(f, v, b.value); }
    case Counted(items) => SameItemsEncodeAlike(f, items, b.items, 0);
    case FixedCount(items) => SameItemsEncodeAlike(f, items, b.items, 0);
  }

  lemma {:induction false} SameEncodesAlike(fields: seq<Field>, a: seq<Slot>, b: seq<Slot>, i: nat)
    requires HasShape(fields, a) && HasShape(fields, b) && SameMessage(fields, a, b) && i <= |fields|
    requires |a| == |b| == SlotsBefore(fields, |fields|)
    ensures EncodeFrom(fields, a, i) == EncodeFrom(fields, b, i)
    decreases fields, 0, |fields| - i
  {
    if i < |fields| {
      SameAt(fields, a, b, i);
      hide HasShape, SameMessage, SameSlot, SlotHasShape, EncodeFrom, EncodeField, SlotOf;
      SameSlotEncodesAlike(fields[i], a[SlotOf(fields, i)], b[SlotOf(fields, i)]);
      SameEncodesAlike(fields, a, b, i + 1);
      FirstField(fields, a, i);
      FirstField(fields, b, i);
    }
  }

  lemma {:induction false} SameValueEuclidean(f: Field, a: Value, b: Value, r: Value)
    requires SameValue(f, a, r) && SameValue(f, b, r)
    ensures SameValue(f, a, b)
    decreases f, 0
  {
    if f.ltype.Submessage? {
      SameMessageEuclidean(f.sub, a.slots, b.slots, r.slots);
    }
  }

  lemma {:induction false} SameItemsEuclidean(f: Field, a: seq<Value>, b: seq<Value>, r: seq<Value>)
    requires SameItems(f, a, r) && SameItems(f, b, r)
    ensures SameItems(f, a, b)
    decreases f, 1
  {
    hide SameValue;
    forall k | 0 <= k < |a|
      ensures SameValue(f, a[k], b[k])
    {
      SameValueEuclidean(f, a[k], b[k], r[k]);
    }
  }

  lemma {:induction false} SameMessageEuclidean(fields: seq<Field>, a: seq<Slot>, b: seq<Slot>, r: seq<Slot>)
    requires SameMessage(fields, a, r) && SameMessage(fields, b, r)
    ensures SameMessage(fields, a, b)
    decreases fields, 0
  {
    hide SameValue, SameItems;
    forall i | 0 <= i < |fields|
      ensures SlotOf(fields, i) < |a| && SameSlot(fields[i], a[SlotOf(fields, i)], b[SlotOf(fields, i)])
    {
      var s := SlotOf(fields, i);
      assert SameSlot(fields[i], a[s], r[s]) && SameSlot(fields[i], b[s], r[s]);
      match a[s]
      case Counted(items) => SameItemsEuclidean(fields[i], items, b[s].items, r[s].items);
      case FixedCount(items) => SameItemsEuclidean(fields[i], items, b[s].items, r[s].items);
      case Plain(v) => SameValueEuclidean(fields[i], v, b[s].value, r[s].value);
      case Tracked(has, v) => if has { SameValueEuclidean(fields[i], v, b[s].value, r[s].value); }
      case Union(which, v) => if which == fields[i].tag { SameValueEuclidean(fields[i], v, b[s].value, r[s].value); }
    }
  }

  /** Two structs that come back as they were have the same encoding if and only if they mean the same message. */
  lemma {:induction false} EncodingTellsApart(fields: seq<Field>, a: seq<Slot>, b: seq<Slot>)
    requires WellFormed(fields)
    requires HasShape(fields, a) && Sendable(fields, a) && Restorable(fields, a)
    requires HasShape(fields, b) && Sendable(fields, b) && Restorable(fields, b)
    ensures EncodeMessage(fields, a) == EncodeMessage(fields, b) <==> SameMessage(fields, a, b)
  {
    hide EncodeFrom, DecodeMessage, RestoredUpTo, WellFormed, HasShape, Sendable, Restorable;
    RoundTripExact(fields, a);
    RoundTripExact(fields, b);
    if EncodeMessage(fields, a) == EncodeMessage(fields, b) {
      SameMessageEuclidean(fields, a, b, DecodeMessage(fields, EncodeMessage(fields, a).value).value);
    }
    if SameMessage(fields, a, b) {
      SameEncodesAlike(fields, a, b, 0);
    }
  }
}
