/** Which number a payload stands for by the Protocol Buffers encoding (sections "Base 128 Varints", "Signed Integers" and
    "Non-varint Numbers"), and that both codecs keep to it: the encoder writes the payload the encoding prescribes, and
    the decoder accepts a payload exactly when the field can hold the number it stands for. */
module Numbers {
  import opened Wrappers
  import opened Wire
  import opened Descriptors
  import opened Encoding
  import opened Decoding
  import opened Merging
  import opened RoundTrip

  /** The wire type of a field's type, as a key carries it. */
  function StandardWireType(l: LType): nat {
    match l
    case Bool => 0
    case Varint => 0
    case UVarint => 0
    case SVarint => 0
    case Fixed64 => 1
    case Fixed32 => 5
    case _ => 2
  }

  /** The zigzag form of a number. */
  function ZigZagOf(n: int): nat {
    if n < 0 then -2 * n - 1 else 2 * n
  }

  /** The number a payload stands for in a field that can hold it. A signed field of less than 64 bits takes the low 32
      bits of a varint; a bool is any 32-bit varint. */
  predicate Denotes(f: Field, payload: seq<Byte>, n: int) {
    match f.ltype
    case Bool => ReadVarint32(payload).Ok? && n == (if ReadVarint32(payload).value != 0 then 1 else 0)
    case Varint =>
      |payload| <= 10 && NumberFits(f, n) && n % Width(f) == Base128(payload) % TWO_TO_64 % Width(f)
    case UVarint => |payload| <= 10 && NumberFits(f, n) && n == Base128(payload) % TWO_TO_64
    case SVarint => |payload| <= 10 && NumberFits(f, n) && ZigZagOf(n) == Base128(payload) % TWO_TO_64
    case Fixed32 => n == FromLittleEndian(payload)
    case Fixed64 => n == FromLittleEndian(payload)
    case _ => false
  }

  /** What a signed number is taken modulo. */
  function Width(f: Field): (m: int)
    ensures m > 0
  {
    if f.dataSize == 8 then TWO_TO_64 else TWO_TO_32
  }

  /** A number of a field, and nothing after it. */
  predicate WholeNumber(l: LType, payload: seq<Byte>) {
    match l
    case Fixed32 => |payload| == 4
    case Fixed64 => |payload| == 8
    case _ => VarintLength(payload) == |payload| > 0
  }

  /** A field that holds numbers of a known width: one, two, four or eight bytes for those sent as varints. */
  predicate Numeric(f: Field) {
    f.ltype.Packable() && (f.ltype.Varint? || f.ltype.UVarint? || f.ltype.SVarint? ==> f.dataSize in {1, 2, 4, 8})
  }

  function Bits(f: Field): (bits: nat)
    requires Numeric(f)
    ensures bits > 0
  {
    match f.ltype
    case Bool => 8
    case Fixed32 => 32
    case Fixed64 => 64
    case _ => 8 * f.dataSize
  }

  /** A field holds what its bytes can: two's complement if it is signed. */
  lemma {:induction false} FitsIff(f: Field, n: int)
    requires Numeric(f)
    ensures var signed: int := Pow2(Bits(f) - 1);
            NumberFits(f, n)
            <==> if f.ltype.Varint? || f.ltype.SVarint? then -signed <= n < signed else 0 <= n < Pow2(Bits(f))
  {
    hide Pow2;
    PowerValues();
    SmallPowers();
  }

  lemma {:induction false} SmallPowers()
    ensures Pow2(8) == 0x100 && Pow2(15) == 0x8000 && Pow2(16) == 0x1_0000
  {
    assert Pow2(7) == 128;
    Pow2Add(7, 8);
    Pow2Add(8, 8);
  }

  // ---------------------------------------------------------------------------------------------
  // Decoding
  // ---------------------------------------------------------------------------------------------

  lemma {:induction false} Read64Whole(payload: seq<Byte>, t: seq<Byte>)
    requires VarintLength(payload) == |payload| > 0
    ensures ReadVarint64(payload + t)
            == if |payload| <= 10 then Ok(Base128(payload) % TWO_TO_64, t) else Fail
  {
    hide Base128;
    VarintLengthExtends(payload, t);
    assert (payload + t)[..|payload|] == payload && (payload + t)[|payload|..] == t;
  }

  lemma {:induction false} Length32(bs: seq<Byte>)
    requires ReadVarint32(bs).Ok?
    ensures 0 < VarintLength(bs) && ReadVarint32(bs).rest == bs[VarintLength(bs)..]
  {
    hide Accumulate32;
    if bs[0] >= 0x80 {
      LengthMore(bs[1..], 7, bs[0] % 128);
    }
  }

  lemma {:induction false} LengthMore(bs: seq<Byte>, bitpos: nat, result: nat)
    requires bitpos < 256 && result < TWO_TO_32 && MoreVarint32(bs, bitpos, result).Ok?
    ensures 0 < VarintLength(bs) && MoreVarint32(bs, bitpos, result).rest == bs[VarintLength(bs)..]
    decreases |bs|
  {
    hide Accumulate32;
    if bs[0] >= 0x80 {
      LengthMore(bs[1..], (bitpos + 7) % 256, Accumulate32(bs[0], bitpos, result));
    }
  }

  /** A 32-bit varint is read from its own bytes. */
  lemma {:induction false} Read32Whole(payload: seq<Byte>, t: seq<Byte>)
    requires VarintLength(payload) == |payload| > 0
    ensures ReadVarint32(payload + t).Ok? <==> ReadVarint32(payload).Ok?
    ensures ReadVarint32(payload).Ok? ==> ReadVarint32(payload + t) == Ok(ReadVarint32(payload).value, t)
                                          && ReadVarint32(payload).rest == []
  {
    hide ReadVarint32;
    if ReadVarint32(payload).Ok? {
      Length32(payload);
      Varint32Extends(payload, t);
      assert payload[|payload|..] + t == t;
    } else if ReadVarint32(payload + t).Ok? {
      Cut32(payload, t);
    }
  }

  lemma {:induction false} Cut32(payload: seq<Byte>, t: seq<Byte>)
    requires VarintLength(payload) == |payload| > 0 && ReadVarint32(payload + t).Ok?
    ensures ReadVarint32(payload).Ok?
  {
    assert (payload + t)[0] == payload[0];
    if payload[0] >= 0x80 {
      assert (payload + t)[1..] == payload[1..] + t;
      CutMore(payload[1..], 7, payload[0] % 128, t);
    }
  }

  lemma {:induction false} CutMore(payload: seq<Byte>, bitpos: nat, result: nat, t: seq<Byte>)
    requires VarintLength(payload) == |payload| > 0 && bitpos < 256 && result < TWO_TO_32
    requires MoreVarint32(payload + t, bitpos, result).Ok?
    ensures MoreVarint32(payload, bitpos, result).Ok?
    decreases |payload|
  {
    hide Accumulate32;
    assert (payload + t)[0] == payload[0];
    if payload[0] >= 0x80 {
      assert (payload + t)[1..] == payload[1..] + t;
      CutMore(payload[1..], (bitpos + 7) % 256, Accumulate32(payload[0], bitpos, result), t);
    }
  }

  lemma {:induction false} FixedWhole(payload: seq<Byte>, t: seq<Byte>)
    ensures ReadFixed(payload + t, |payload|) == Ok(FromLittleEndian(payload), t)
  {
    assert (payload + t)[..|payload|] == payload && (payload + t)[|payload|..] == t;
  }

  /** The one number of the type that is congruent to n0. */
  lemma {:induction false} SignedIff(f: Field, n0: int, n: int)
    requires IntegerSize(f.dataSize) && (f.ltype.Varint? || f.ltype.SVarint?)
    ensures NumberFits(f, n0) <==> ToSigned(n0, f.dataSize) == n0
  {
    if NumberFits(f, n0) {
      WrapsBack(n0, f.dataSize);
    }
  }

  lemma {:induction false} Congruent(n: int, n0: int, w: int)
    requires w == TWO_TO_32 || w == TWO_TO_64
    requires -(w / 2) <= n < w / 2 && -(w / 2) <= n0 < w / 2 && n % w == n0 % w
    ensures n == n0
  {
    if w == TWO_TO_32 {
      WrapsBack(n, 4);
      WrapsBack(n0, 4);
    } else {
      WrapsBack(n, 8);
      WrapsBack(n0, 8);
    }
  }

  /** What the C code takes a 64-bit varint to be. */
  function Converted(f: Field, v: nat): int
    requires v < TWO_TO_64
  {
    if f.dataSize == 8 then ToInt64(v) else ToInt32(v)
  }

  lemma {:induction false} ConvertedCongruent(f: Field, v: nat)
    requires v < TWO_TO_64
    ensures Converted(f, v) % Width(f) == v % Width(f)
    ensures -(Width(f) / 2) <= Converted(f, v) < Width(f) / 2
  {
    if f.dataSize == 8 {
      assert ToInt64(v) % TWO_TO_64 == v;
    } else {
      var w := v % TWO_TO_32;
      assert (w - TWO_TO_32) % TWO_TO_32 == w;
    }
  }

  lemma {:induction false} VarintIff(f: Field, v: nat, n: int)
    requires f.ltype.Varint? && IntegerSize(f.dataSize) && v < TWO_TO_64
    ensures (n == Converted(f, v) && ToSigned(n, f.dataSize) == n) <==> NumberFits(f, n) && n % Width(f) == v % Width(f)
  {
    hide ToSigned, Converted;
    SignedIff(f, n, n);
    ConvertedCongruent(f, v);
    if NumberFits(f, n) && n % Width(f) == v % Width(f) {
      Congruent(n, Converted(f, v), Width(f));
    }
  }

  lemma {:induction false} ZigZagIff(v: nat, n: int)
    requires v < TWO_TO_64
    ensures -TWO_TO_63 <= UnZigZag(v) < TWO_TO_63
    ensures n == UnZigZag(v) <==> -TWO_TO_63 <= n < TWO_TO_63 && ZigZagOf(n) == v
  {
  }

  lemma {:induction false} SVarintIff(f: Field, v: nat, n: int)
    requires f.ltype.SVarint? && IntegerSize(f.dataSize) && v < TWO_TO_64
    ensures (n == UnZigZag(v) && ToSigned(n, f.dataSize) == n) <==> NumberFits(f, n) && ZigZagOf(n) == v
  {
    hide ToSigned, UnZigZag;
    SignedIff(f, n, n);
    ZigZagIff(v, n);
  }

  lemma {:induction false} UVarintIff(f: Field, v: nat, n: int)
    requires f.ltype.UVarint? && IntegerSize(f.dataSize)
    ensures (n == v && v % Modulus(f.dataSize) == v) <==> NumberFits(f, n) && n == v
  {
  }

  /** The decoder accepts the payload of a number exactly when the field can hold the number it stands for, and stores
      that number; it reads no further. */
  lemma {:induction false} NumberDecodesIff(f: Field, payload: seq<Byte>, n: int, t: seq<Byte>)
    requires Numeric(f) && WholeNumber(f.ltype, payload)
    ensures DecodeNumber(f, payload + t) == Ok(n, t) <==> Denotes(f, payload, n)
    ensures DecodeNumber(f, payload + t).Ok? ==> DecodeNumber(f, payload + t).rest == t
  {
    hide ReadVarint32, ReadVarint64, ReadFixed, VarintLength, Base128, FromLittleEndian, ToSigned, ToInt64, ToInt32,
         UnZigZag, ZigZagOf, NumberFits, Width;
    match f.ltype
    case Bool => Read32Whole(payload, t);
    case Varint =>
      Read64Whole(payload, t);
      VarintIff(f, Base128(payload) % TWO_TO_64, n);
    case UVarint =>
      Read64Whole(payload, t);
      UVarintIff(f, Base128(payload) % TWO_TO_64, n);
    case SVarint =>
      Read64Whole(payload, t);
      SVarintIff(f, Base128(payload) % TWO_TO_64, n);
    case Fixed32 => FixedWhole(payload, t);
    case Fixed64 => FixedWhole(payload, t);
  }

  /** Whatever the decoder accepts begins with the payload of a number. */
  lemma {:induction false} NumberIsWhole(f: Field, bs: seq<Byte>)
    requires DecodeNumber(f, bs).Ok?
    ensures var rest := DecodeNumber(f, bs).rest;
            var payload := bs[..|bs| - |rest|];
            f.ltype.Packable() && WholeNumber(f.ltype, payload) && bs == payload + rest
  {
    hide ReadVarint32, VarintLength, Base128, ToSigned;
    var n := |bs| - |DecodeNumber(f, bs).rest|;
    if f.ltype.Bool? {
      Length32(bs);
    }
    if !f.ltype.Fixed32? && !f.ltype.Fixed64? {
      VarintPrefix(bs);
    }
    assert bs == bs[..n] + bs[n..];
  }

  /** A canonical varint whose number the field cannot hold is refused. */
  lemma {:induction false} TooLargeIsRefused(f: Field, n: int, t: seq<Byte>)
    requires Numeric(f) && !NumberFits(f, n)
    ensures f.ltype.UVarint? && 0 <= n < TWO_TO_64 ==> DecodeNumber(f, VarintBytes(n) + t).Fail?
    ensures f.ltype.SVarint? && -TWO_TO_63 <= n < TWO_TO_63 ==> DecodeNumber(f, VarintBytes(ZigZagOf(n)) + t).Fail?
    ensures f.ltype.Varint? && -TWO_TO_31 <= n < TWO_TO_31 ==> DecodeNumber(f, VarintBytes(n % TWO_TO_64) + t).Fail?
  {
    hide DecodeNumber, VarintBytes, NumberFits, Base128, VarintLength;
    var v: int := if f.ltype.SVarint? then ZigZagOf(n) else n % TWO_TO_64;
    if 0 <= v < TWO_TO_64 && !f.ltype.Bool? && !f.ltype.Fixed32? && !f.ltype.Fixed64? {
      var r := DecodeNumber(f, VarintBytes(v) + t);
      VarintBytesMeaning(v, []);
      assert VarintBytes(v) + [] == VarintBytes(v);
      if r.Ok? {
        NumberDecodesIff(f, VarintBytes(v), r.value, t);
        OtherNumber(f, n, r.value, v);
      }
    }
  }

  lemma {:induction false} OtherNumber(f: Field, n: int, m: int, v: nat)
    requires Numeric(f) && !NumberFits(f, n) && NumberFits(f, m) && v < TWO_TO_64
    ensures f.ltype.UVarint? && 0 <= n < TWO_TO_64 ==> !(v == n && m == v)
    ensures f.ltype.SVarint? ==> !(v == ZigZagOf(n) && ZigZagOf(m) == v)
    ensures f.ltype.Varint? && -TWO_TO_31 <= n < TWO_TO_31 && v == n % TWO_TO_64 ==> m % Width(f) != v % Width(f)
  {
    if f.ltype.Varint? && -TWO_TO_31 <= n < TWO_TO_31 {
      SignExtended(n);
      if m % Width(f) == n % Width(f) {
        Congruent(m, n, Width(f));
      }
    }
  }

  lemma {:induction false} SignExtended(n: int)
    requires -TWO_TO_31 <= n < TWO_TO_31
    ensures n % TWO_TO_64 % TWO_TO_32 == n % TWO_TO_32 && n % TWO_TO_64 % TWO_TO_64 == n % TWO_TO_64
  {
    var wide: int := if n < 0 then n + TWO_TO_64 else n;
    var low: int := if n < 0 then n + TWO_TO_32 else n;
    assert n % TWO_TO_64 == wide by { WrapsBack(n, 8); }
    assert n % TWO_TO_32 == low by { WrapsBack(n, 4); }
    assert wide % TWO_TO_32 == low by {
      if n < 0 {
        ModPlus(low, TWO_TO_32 - 1);
      }
    }
    assert wide % TWO_TO_64 == wide;
  }

  // ---------------------------------------------------------------------------------------------
  // Encoding
  // ---------------------------------------------------------------------------------------------

  /** No byte of a varint is wasted. */
  predicate Shortest(payload: seq<Byte>) {
    payload != [] && (|payload| > 1 ==> payload[|payload| - 1] != 0)
  }

  lemma {:induction false} VarintIsShortest(v: nat)
    ensures Shortest(VarintBytes(v))
  {
    if v > 0x7F {
      VarintIsShortest(v / 128);
      var more := VarintBytes(v / 128);
      if |more| == 1 {
        assert more[0] == v / 128;
      }
    }
  }

  /** The encoder writes the shortest payload, and the one every decoder reads as the number: a negative signed number
      sign-extended to 64 bits, a bool as 0 or 1, a word of its own width. */
  lemma {:induction false} EncodesStandard(f: Field, n: int)
    requires Numeric(f) && NumberFits(f, n)
    ensures EncodeNumber(f, n).Some?
    ensures var payload := EncodeNumber(f, n).value;
            && WholeNumber(f.ltype, payload)
            && match f.ltype
               case Bool => Shortest(payload) && Base128(payload) == if n == 0 then 0 else 1
               case Varint => Shortest(payload) && Base128(payload) == if n < 0 then TWO_TO_64 + n else n
               case UVarint => Shortest(payload) && Base128(payload) == n
               case SVarint => Shortest(payload) && Base128(payload) == ZigZagOf(n)
               case _ => FromLittleEndian(payload) == n
  {
    hide VarintBytes, LittleEndian, FromLittleEndian, Base128, VarintLength, ZigZag, UnZigZag, Pow2;
    PowerValues();
    var v := if f.ltype.Bool? then (if n != 0 then 1 else 0) else if f.ltype.SVarint? then ZigZag(n) else n % TWO_TO_64;
    VarintBytesMeaning(v, []);
    assert VarintBytes(v) + [] == VarintBytes(v);
    VarintIsShortest(v);
    match f.ltype
    case SVarint => ZigZagInverse(n);
    case Fixed32 =>
      assert n % TWO_TO_32 == n;
      LittleEndianInverse(n, 4);
    case Fixed64 =>
      assert n % TWO_TO_64 == n;
      LittleEndianInverse(n, 8);
    case _ =>
  }
}
