/** Decoding one input after another: concatenation merges, unknown fields are transparent. */
module Merging {
  import opened Wrappers
  import opened Wire
  import opened Descriptors
  import opened Encoding
  import opened Decoding

  // ---------------------------------------------------------------------------------------------
  // A successful read does not look past the bytes it consumes
  // ---------------------------------------------------------------------------------------------

  lemma {:induction false} VarintLengthExtends(bs: seq<Byte>, t: seq<Byte>)
    requires VarintLength(bs) > 0
    ensures VarintLength(bs + t) == VarintLength(bs)
  {
    assert (bs + t)[0] == bs[0];
    if bs[0] >= 0x80 {
      assert (bs + t)[1..] == bs[1..] + t;
      VarintLengthExtends(bs[1..], t);
    }
  }

  lemma {:induction false} Varint64Extends(bs: seq<Byte>, t: seq<Byte>)
    requires ReadVarint64(bs).Ok?
    ensures ReadVarint64(bs + t) == Ok(ReadVarint64(bs).value, ReadVarint64(bs).rest + t)
  {
    var n := VarintLength(bs);
    VarintLengthExtends(bs, t);
    assert (bs + t)[..n] == bs[..n] && (bs + t)[n..] == bs[n..] + t;
  }

  lemma {:induction false} MoreVarint32Extends(bs: seq<Byte>, bitpos: nat, result: nat, t: seq<Byte>)
    requires bitpos < 256 && result < TWO_TO_32
    requires MoreVarint32(bs, bitpos, result).Ok?
    ensures var r := MoreVarint32(bs, bitpos, result);
            MoreVarint32(bs + t, bitpos, result) == Ok(r.value, r.rest + t)
    decreases |bs|
  {
    hide Accumulate32;
    assert (bs + t)[0] == bs[0] && (bs + t)[1..] == bs[1..] + t;
    if bs[0] >= 0x80 {
      MoreVarint32Extends(bs[1..], (bitpos + 7) % 256, Accumulate32(bs[0], bitpos, result), t);
    }
  }

  lemma {:induction false} Varint32Extends(bs: seq<Byte>, t: seq<Byte>)
    requires ReadVarint32(bs).Ok?
    ensures ReadVarint32(bs + t) == Ok(ReadVarint32(bs).value, ReadVarint32(bs).rest + t)
  {
    hide MoreVarint32;
    assert (bs + t)[0] == bs[0] && (bs + t)[1..] == bs[1..] + t;
    if bs[0] >= 0x80 {
      MoreVarint32Extends(bs[1..], 7, bs[0] % 128, t);
    }
  }

  lemma {:induction false} FixedExtends(bs: seq<Byte>, width: nat, t: seq<Byte>)
    requires ReadFixed(bs, width).Ok?
    ensures ReadFixed(bs + t, width) == Ok(ReadFixed(bs, width).value, ReadFixed(bs, width).rest + t)
  {
    assert (bs + t)[..width] == bs[..width] && (bs + t)[width..] == bs[width..] + t;
  }

  lemma {:induction false} DelimitedExtends(bs: seq<Byte>, t: seq<Byte>)
    requires ReadDelimited(bs).Ok?
    ensures ReadDelimited(bs + t) == Ok(ReadDelimited(bs).value, ReadDelimited(bs).rest + t)
  {
    hide ReadVarint32;
    Varint32Extends(bs, t);
    var size, rest := ReadVarint32(bs).value, ReadVarint32(bs).rest;
    assert (rest + t)[..size] == rest[..size] && (rest + t)[size..] == rest[size..] + t;
  }

  lemma {:induction false} SkipExtends(wireType: nat, bs: seq<Byte>, t: seq<Byte>)
    requires SkipField(wireType, bs).Ok?
    ensures SkipField(wireType, bs + t) == Ok((), SkipField(wireType, bs).rest + t)
  {
    hide ReadDelimited;
    if wireType == 0 {
      var n := VarintLength(bs);
      VarintLengthExtends(bs, t);
      assert (bs + t)[n..] == bs[n..] + t;
    } else if wireType == 2 {
      DelimitedExtends(bs, t);
    } else {
      var n := if wireType == 1 then 8 else 4;
      assert (bs + t)[n..] == bs[n..] + t;
    }
  }

  lemma {:induction false} TagExtends(bs: seq<Byte>, t: seq<Byte>)
    requires DecodeTag(bs).Tag?
    ensures DecodeTag(bs + t) == DecodeTag(bs).(rest := DecodeTag(bs).rest + t)
  {
    hide ReadVarint32;
    Varint32Extends(bs, t);
  }

  lemma {:induction false} NumberExtends(f: Field, bs: seq<Byte>, t: seq<Byte>)
    requires DecodeNumber(f, bs).Ok?
    ensures DecodeNumber(f, bs + t) == Ok(DecodeNumber(f, bs).value, DecodeNumber(f, bs).rest + t)
  {
    hide ReadVarint32, ReadVarint64, ReadFixed;
    match f.ltype
    case Bool => Varint32Extends(bs, t);
    case Fixed32 => FixedExtends(bs, 4, t);
    case Fixed64 => FixedExtends(bs, 8, t);
    case _ => Varint64Extends(bs, t);
  }

  lemma {:induction false} BlobExtends(f: Field, bs: seq<Byte>, t: seq<Byte>)
    requires DecodeBlob(f, bs).Ok?
    ensures DecodeBlob(f, bs + t) == Ok(DecodeBlob(f, bs).value, DecodeBlob(f, bs).rest + t)
  {
    hide ReadVarint32;
    Varint32Extends(bs, t);
    var size, rest := ReadVarint32(bs).value, ReadVarint32(bs).rest;
    if size <= |rest| {
      assert (rest + t)[..size] == rest[..size] && (rest + t)[size..] == rest[size..] + t;
    }
  }

  lemma {:induction false} ValueExtends(f: Field, prior: Value, bs: seq<Byte>, t: seq<Byte>)
    requires DecodeValue(f, prior, bs).Ok?
    ensures DecodeValue(f, prior, bs + t) == Ok(DecodeValue(f, prior, bs).value, DecodeValue(f, prior, bs).rest + t)
  {
    hide DecodeNumber, DecodeBlob, ReadDelimited, DecodeMessage, DecodeNoinit;
    match f.ltype
    case Bytes(_) => BlobExtends(f, bs, t);
    case String => BlobExtends(f, bs, t);
    case FixedLengthBytes => BlobExtends(f, bs, t);
    case Submessage => DelimitedExtends(bs, t);
    case _ => NumberExtends(f, bs, t);
  }

  lemma {:induction false} RepeatedExtends(f: Field, wireType: nat, s: Slot, count: nat, bs: seq<Byte>, t: seq<Byte>)
    requires s.Counted? || s.FixedCount?
    requires DecodeRepeated(f, wireType, s, count, bs).Ok?
    ensures var r := DecodeRepeated(f, wireType, s, count, bs);
            DecodeRepeated(f, wireType, s, count, bs + t) == Ok(r.value, r.rest + t)
  {
    hide DecodeValue, ReadDelimited, DecodePacked;
    if wireType == 2 && f.ltype.Packable() {
      DelimitedExtends(bs, t);
    } else {
      ValueExtends(f, Num(0), bs, t);
    }
  }

  lemma {:induction false} SlotExtends(f: Field, wireType: nat, s: Slot, count: nat, bs: seq<Byte>, t: seq<Byte>)
    requires DecodeSlot(f, wireType, s, count, bs).Ok?
    ensures var r := DecodeSlot(f, wireType, s, count, bs);
            DecodeSlot(f, wireType, s, count, bs + t) == Ok(r.value, r.rest + t)
  {
    hide DecodeValue, DecodeRepeated;
    match f.htype
    case Repeated => RepeatedExtends(f, wireType, s, if f.Sized() then 0 else count, bs, t);
    case OneOf =>
      ValueExtends(f, if f.ltype.Submessage? && s.which != f.tag then Sub(InitMessage(f.sub)) else s.value, bs, t);
    case _ => ValueExtends(f, s.value, bs, t);
  }

  lemma {:induction false} FieldExtends(fields: seq<Field>, i: nat, wireType: nat, st: Progress, bs: seq<Byte>, t: seq<Byte>)
    requires i < |fields| && DecodeField(fields, i, wireType, st, bs).Ok?
    ensures var r := DecodeField(fields, i, wireType, st, bs);
            DecodeField(fields, i, wireType, st, bs + t) == Ok(r.value, r.rest + t)
  {
    hide DecodeSlot, Enter;
    var st1 := Enter(fields, i, st).value;
    SlotExtends(fields[i], wireType, st1.slots[SlotOf(fields, i)], st1.fixedCount, bs, t);
  }

  lemma {:induction false} TurnExtends(fields: seq<Field>, st: Progress, bs: seq<Byte>, t: seq<Byte>)
    requires DecodeOne(fields, st, bs).Next?
    ensures DecodeOne(fields, st, bs + t) == DecodeOne(fields, st, bs).(rest := DecodeOne(fields, st, bs).rest + t)
  {
    hide DecodeTag, DecodeField, SkipField;
    TagExtends(bs, t);
    var tag := DecodeTag(bs);
    match FindField(fields, tag.tag, |fields|)
    case None => SkipExtends(tag.wireType, tag.rest, t);
    case Some(i) => FieldExtends(fields, i, tag.wireType, st, tag.rest, t);
  }

  // ---------------------------------------------------------------------------------------------
  // Concatenation
  // ---------------------------------------------------------------------------------------------

  /** All of bs was accepted, and not up to a zero key only. */
  predicate Accepts(fields: seq<Field>, st: Progress, bs: seq<Byte>) {
    DecodeLoop(fields, st, bs).Done? && !DecodeLoop(fields, st, bs).terminated
  }

  /** Where decoding of a leaves off, decoding of b takes over. */
  lemma {:induction false} LoopConcatenates(fields: seq<Field>, st: Progress, a: seq<Byte>, b: seq<Byte>)
    requires Accepts(fields, st, a)
    ensures DecodeLoop(fields, st, a + b) == DecodeLoop(fields, DecodeLoop(fields, st, a).st, b)
    decreases |a|
  {
    hide DecodeOne;
    if a == [] {
      assert a + b == b;
    } else {
      var turn := DecodeOne(fields, st, a);
      assert turn.Next? by { StopNeverAccepts(fields, st, a); }
      TurnExtends(fields, st, a, b);
      LoopConcatenates(fields, turn.st, turn.rest, b);
    }
  }

  lemma {:induction false} StopNeverAccepts(fields: seq<Field>, st: Progress, bs: seq<Byte>)
    ensures DecodeOne(fields, st, bs).Stop? ==>
              DecodeOne(fields, st, bs).out.Failed? || DecodeOne(fields, st, bs).out.terminated
  {
  }

  /** Neither required fields nor fixed-count arrays. */
  predicate Mergeable(fields: seq<Field>) {
    forall i | 0 <= i < |fields| ::
      !fields[i].htype.Required? && (fields[i].htype.Repeated? ==> fields[i].Sized())
  }

  lemma {:induction false} FieldKeepsBookkeeping(fields: seq<Field>, i: nat, wireType: nat, st: Progress, bs: seq<Byte>)
    requires i < |fields| && Mergeable(fields) && DecodeField(fields, i, wireType, st, bs).Ok?
    ensures DecodeField(fields, i, wireType, st, bs).value
              == st.(slots := DecodeField(fields, i, wireType, st, bs).value.slots)
  {
    hide DecodeValue, DecodeRepeated;
  }

  lemma {:induction false} LoopKeepsBookkeeping(fields: seq<Field>, st: Progress, bs: seq<Byte>)
    requires Mergeable(fields) && DecodeLoop(fields, st, bs).Done?
    ensures DecodeLoop(fields, st, bs).st == st.(slots := DecodeLoop(fields, st, bs).st.slots)
    decreases |bs|
  {
    hide DecodeField, DecodeTag, SkipField;
    if bs != [] && DecodeOne(fields, st, bs).Next? {
      var tag := DecodeTag(bs);
      var i := FindField(fields, tag.tag, |fields|);
      if i.Some? {
        FieldKeepsBookkeeping(fields, i.value, tag.wireType, st, tag.rest);
      }
      LoopKeepsBookkeeping(fields, DecodeOne(fields, st, bs).st, DecodeOne(fields, st, bs).rest);
    }
  }

  /** Decoding a + b over a struct is decoding b over what decoding a made of it: the outcome, the struct and
      the bytes left are the same. */
  lemma {:induction false} ConcatenationMerges(fields: seq<Field>, slots: seq<Slot>, a: seq<Byte>, b: seq<Byte>)
    requires Mergeable(fields)
    requires Accepts(fields, Start(slots), a)
    ensures DecodeNoinit(fields, slots, a).Ok?
    ensures DecodeNoinit(fields, slots, a + b) == DecodeNoinit(fields, DecodeNoinit(fields, slots, a).value, b)
  {
    hide DecodeLoop;
    LoopConcatenates(fields, Start(slots), a, b);
    LoopKeepsBookkeeping(fields, Start(slots), a);
    NothingRequired(fields, |fields|);
  }

  lemma {:induction false} NothingRequired(fields: seq<Field>, n: nat)
    requires n <= |fields| && Mergeable(fields)
    ensures RequiredBefore(fields, n) == 0
  {
    if n > 0 {
      NothingRequired(fields, n - 1);
    }
  }

  // ---------------------------------------------------------------------------------------------
  // Unknown fields
  // ---------------------------------------------------------------------------------------------

  /** u is one whole record with a tag the descriptor does not have. */
  predicate UnknownRecord(fields: seq<Field>, u: seq<Byte>) {
    var t := DecodeTag(u);
    t.Tag? && FindField(fields, t.tag, |fields|).None? && SkipField(t.wireType, t.rest) == Ok((), [])
  }

  lemma {:induction false} UnknownRecordSkipped(fields: seq<Field>, st: Progress, u: seq<Byte>, t: seq<Byte>)
    requires UnknownRecord(fields, u)
    ensures DecodeLoop(fields, st, u + t) == DecodeLoop(fields, st, t)
  {
    hide DecodeTag, DecodeField, SkipField;
    TurnExtends(fields, st, u, t);
    assert [] + t == t;
    assert |u| > 0;
  }

  /** An unknown record between two fields changes neither the outcome nor the struct nor what is left unread. */
  lemma {:induction false} UnknownFieldsTransparent(fields: seq<Field>, slots: seq<Slot>, a: seq<Byte>, u: seq<Byte>, b: seq<Byte>)
    requires Accepts(fields, Start(slots), a)
    requires UnknownRecord(fields, u)
    ensures DecodeNoinit(fields, slots, a + u + b) == DecodeNoinit(fields, slots, a + b)
  {
    hide DecodeLoop;
    LoopConcatenates(fields, Start(slots), a, u + b);
    LoopConcatenates(fields, Start(slots), a, b);
    UnknownRecordSkipped(fields, DecodeLoop(fields, Start(slots), a).st, u, b);
    assert a + u + b == a + (u + b);
  }

  /** The payloads that complete a record of the given wire type. */
  ghost predicate CompletePayload(wireType: nat, payload: seq<Byte>) {
    match wireType
    case 0 => VarintLength(payload) == |payload| > 0
    case 1 => |payload| == 8
    case 2 => exists n: nat | n <= |payload| :: Announces(payload, n)
    case 5 => |payload| == 4
    case _ => false
  }

  /** The first n bytes are the length of the others. */
  predicate Announces(payload: seq<Byte>, n: nat)
    requires n <= |payload|
  {
    ReadVarint32(payload[..n]) == Ok(|payload| - n, [])
  }

  lemma {:induction false} AnnouncedIsRead(payload: seq<Byte>, n: nat, t: seq<Byte>)
    requires n <= |payload| && Announces(payload, n)
    ensures ReadVarint32(payload + t) == Ok(|payload| - n, payload[n..] + t)
    ensures ReadDelimited(payload + t) == Ok(payload[n..], t)
  {
    hide ReadVarint32;
    var data := payload[n..];
    assert payload + t == payload[..n] + (data + t);
    Varint32Extends(payload[..n], data + t);
    assert [] + (data + t) == data + t;
    assert (data + t)[..|data|] == data && (data + t)[|data|..] == t;
  }

  lemma {:induction false} DelimitedIsComplete(data: seq<Byte>)
    requires |data| < TWO_TO_32
    ensures Announces(Delimited(data), |VarintBytes(|data|)|) && CompletePayload(2, Delimited(data))
  {
    hide ReadVarint32, VarintBytes;
    var k := VarintBytes(|data|);
    assert |data| % TWO_TO_64 == |data|;
    Varint32RoundTrip(|data|, []);
    assert k + [] == k && Delimited(data)[..|k|] == k;
  }

  /** The varint a 32-bit read consumes, by itself. */
  lemma {:induction false} ReadFromPrefix(bs: seq<Byte>)
    requires ReadVarint32(bs).Ok?
    ensures var k := |bs| - |ReadVarint32(bs).rest|;
            ReadVarint32(bs[..k]) == Ok(ReadVarint32(bs).value, []) && bs[k..] == ReadVarint32(bs).rest
  {
    if bs[0] < 0x80 {
      assert bs[..1][1..] == [];
    } else {
      var k := |bs| - |ReadVarint32(bs).rest|;
      assert bs[..k][1..] == bs[1..][..k - 1];
      MoreFromPrefix(bs[1..], 7, bs[0] % 128);
    }
  }

  lemma {:induction false} MoreFromPrefix(bs: seq<Byte>, bitpos: nat, result: nat)
    requires bitpos < 256 && result < TWO_TO_32 && MoreVarint32(bs, bitpos, result).Ok?
    ensures var r := MoreVarint32(bs, bitpos, result);
            MoreVarint32(bs[..|bs| - |r.rest|], bitpos, result) == Ok(r.value, []) && bs[|bs| - |r.rest|..] == r.rest
    decreases |bs|
  {
    hide Accumulate32;
    var k := |bs| - |MoreVarint32(bs, bitpos, result).rest|;
    assert bs[..k][0] == bs[0];
    if bs[0] >= 0x80 {
      assert bs[..k][1..] == bs[1..][..k - 1];
      MoreFromPrefix(bs[1..], (bitpos + 7) % 256, Accumulate32(bs[0], bitpos, result));
    }
  }

  /** What a length-delimited read consumes is complete. */
  lemma {:induction false} DelimitedFromPrefix(bs: seq<Byte>, size: nat)
    requires ReadVarint32(bs).Ok? && ReadVarint32(bs).value == size <= |ReadVarint32(bs).rest|
    ensures var n := |bs| - |ReadVarint32(bs).rest| + size;
            n <= |bs| && CompletePayload(2, bs[..n]) && bs == bs[..n] + ReadVarint32(bs).rest[size..]
  {
    hide ReadVarint32;
    ReadFromPrefix(bs);
    var k := |bs| - |ReadVarint32(bs).rest|;
    assert bs[..k + size][..k] == bs[..k];
    assert Announces(bs[..k + size], k);
    assert bs[k..][size..] == bs[k + size..];
  }

  lemma {:induction false} VarintPrefix(bs: seq<Byte>)
    requires VarintLength(bs) > 0
    ensures VarintLength(bs[..VarintLength(bs)]) == VarintLength(bs)
  {
    if bs[0] >= 0x80 {
      var n := VarintLength(bs);
      VarintPrefix(bs[1..]);
      assert bs[..n][1..] == bs[1..][..n - 1];
    }
  }

  /** pb_skip_field skips a complete payload ... */
  lemma {:induction false} SkipsPayload(wireType: nat, payload: seq<Byte>, t: seq<Byte>)
    requires CompletePayload(wireType, payload)
    ensures SkipField(wireType, payload + t) == Ok((), t)
  {
    hide ReadDelimited, VarintLength;
    if wireType == 0 {
      VarintLengthExtends(payload, t);
    } else if wireType == 2 {
      var n: nat :| n <= |payload| && Announces(payload, n);
      AnnouncedIsRead(payload, n, t);
    }
    assert (payload + t)[|payload|..] == t;
  }

  /** ... and nothing else. */
  lemma {:induction false} SkippedIsComplete(wireType: nat, bs: seq<Byte>)
    requires SkipField(wireType, bs).Ok?
    ensures var rest := SkipField(wireType, bs).rest;
            CompletePayload(wireType, bs[..|bs| - |rest|]) && bs == bs[..|bs| - |rest|] + rest
  {
    hide ReadVarint32, VarintLength;
    if wireType == 0 {
      VarintPrefix(bs);
    } else if wireType == 2 {
      DelimitedFromPrefix(bs, ReadVarint32(bs).value);
    }
  }

  lemma {:induction false} RecordKey(tag: nat, wireType: nat, t: seq<Byte>)
    requires 0 < 8 * tag + wireType && tag < 0x2000_0000 && wireType < 8
    ensures DecodeTag(VarintBytes(8 * tag + wireType) + t) == Tag(wireType, tag, t)
  {
    hide ReadVarint32, VarintBytes;
    Varint32RoundTrip(8 * tag + wireType, t);
  }

  lemma {:induction false} DelimitedRoundTrip(data: seq<Byte>, t: seq<Byte>)
    requires |data| < TWO_TO_32
    ensures ReadDelimited(Delimited(data) + t) == Ok(data, t)
  {
    hide ReadVarint32, VarintBytes;
    assert |data| % TWO_TO_64 == |data|;
    Varint32RoundTrip(|data|, data + t);
    assert Delimited(data) + t == VarintBytes(|data|) + (data + t);
    assert (data + t)[..|data|] == data && (data + t)[|data|..] == t;
  }

  /** Any complete payload under any tag the descriptor lacks is such a record, tag 0 included unless the key is zero. */
  lemma {:induction false} WholeRecordsAreSkipped(fields: seq<Field>, tag: nat, wireType: nat, payload: seq<Byte>)
    requires 0 < 8 * tag + wireType && tag < 0x2000_0000 && wireType < 8 && FindField(fields, tag, |fields|).None?
    requires CompletePayload(wireType, payload)
    ensures UnknownRecord(fields, VarintBytes(8 * tag + wireType) + payload)
  {
    hide VarintBytes, DecodeTag, SkipField, CompletePayload;
    RecordKey(tag, wireType, payload);
    SkipsPayload(wireType, payload, []);
    assert payload + [] == payload;
  }

  /** Group and reserved wire types cannot be skipped: under an unknown tag they fail the decode. */
  lemma {:induction false} OtherWireTypesFail(fields: seq<Field>, slots: seq<Slot>, a: seq<Byte>, tag: nat, wireType: nat, b: seq<Byte>)
    requires Accepts(fields, Start(slots), a)
    requires tag < 0x2000_0000 && wireType < 8 && FindField(fields, tag, |fields|).None?
    requires wireType != 0 && wireType != 1 && wireType != 2 && wireType != 5
    ensures DecodeNoinit(fields, slots, a + (VarintBytes(8 * tag + wireType) + b)).Fail?
  {
    hide VarintBytes, DecodeTag, DecodeField;
    var u := VarintBytes(8 * tag + wireType) + b;
    LoopConcatenates(fields, Start(slots), a, u);
    RecordKey(tag, wireType, b);
    assert u != [];
  }
}
