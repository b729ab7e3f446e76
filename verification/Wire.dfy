/** Integer wire formats of the Protocol Buffers encoding: base 128 varints, zigzag, little-endian words.

    Words are mathematical integers; every truncation of the C code is written out as a remainder. */
module Wire {

  type Byte = b: int | 0 <= b < 256

  const TWO_TO_31: int := 0x8000_0000
  const TWO_TO_32: int := 0x1_0000_0000
  const TWO_TO_63: int := 0x8000_0000_0000_0000
  const TWO_TO_64: int := 0x1_0000_0000_0000_0000

  /** Outcome of reading a value off the front of some bytes: the value and the bytes that follow it. */
  datatype Parsed<+T> = Fail | Ok(value: T, rest: seq<Byte>)
  {
    predicate IsFailure() {
      Fail?
    }

    function PropagateFailure<U>(): Parsed<U>
      requires Fail?
    {
      Fail
    }

    function Extract(): (T, seq<Byte>)
      requires Ok?
    {
      (value, rest)
    }
  }

  // ---------------------------------------------------------------------------------------------
  // Shifts and or
  // ---------------------------------------------------------------------------------------------

  function Pow2(k: nat): (p: nat)
    ensures p > 0
  {
    if k == 0 then 1 else 2 * Pow2(k - 1)
  }

  /** Bitwise or of two nonnegative integers. */
  function BitOr(a: nat, b: nat): nat {
    if a == 0 then b
    else if b == 0 then a
    else 2 * BitOr(a / 2, b / 2) + (if a % 2 == 1 || b % 2 == 1 then 1 else 0)
  }

  /** `(uint64_t)x << k` */
  function ShiftLeft64(x: nat, k: nat): nat {
    x * Pow2(k) % TWO_TO_64
  }

  /** `(uint32_t)x << k` */
  function ShiftLeft32(x: nat, k: nat): nat {
    x * Pow2(k) % TWO_TO_32
  }

  lemma {:induction false} Doubled(p: nat, q: nat)
    ensures 2 * (p * q) == (2 * p) * q
  {
  }

  lemma {:induction false} Pow2Add(a: nat, b: nat)
    ensures Pow2(a + b) == Pow2(a) * Pow2(b)
  {
    if a > 0 {
      Pow2Add(a - 1, b);
      Doubled(Pow2(a - 1), Pow2(b));
    }
  }

  lemma {:induction false} PowerValues()
    ensures Pow2(7) == 128 && Pow2(14) == 0x4000 && Pow2(21) == 0x20_0000 && Pow2(28) == 0x1000_0000
    ensures Pow2(31) == TWO_TO_31 && Pow2(32) == TWO_TO_32 && Pow2(35) == 8 * TWO_TO_32
    ensures Pow2(63) == TWO_TO_63 && Pow2(64) == TWO_TO_64
  {
    assert Pow2(7) == 128;
    Pow2Add(7, 7);
    Pow2Add(14, 7);
    Pow2Add(14, 14);
    assert Pow2(3) == 8 && Pow2(4) == 16;
    Pow2Add(28, 3);
    Pow2Add(28, 4);
    Pow2Add(28, 7);
    Pow2Add(32, 31);
    Pow2Add(32, 32);
  }

  /** Where the operands share no bit, or is addition. */
  lemma {:induction false} OrIsSum(low: nat, high: nat, k: nat)
    requires low < Pow2(k)
    ensures BitOr(low, high * Pow2(k)) == low + high * Pow2(k)
  {
    if k > 0 && low > 0 && high > 0 {
      var h := high * Pow2(k - 1);
      assert high * Pow2(k) == 2 * h by {
        assert Pow2(k) == 2 * Pow2(k - 1);
      }
      assert low / 2 < Pow2(k - 1);
      OrIsSum(low / 2, high, k - 1);
      assert h > 0;
    }
  }

  // ---------------------------------------------------------------------------------------------
  // Varints
  // ---------------------------------------------------------------------------------------------

  /** The base 128 encoding: seven bits to a byte, least significant first, the top bit set on all but the last. */
  function VarintBytes(v: nat): (bs: seq<Byte>)
    ensures |bs| >= 1
  {
    if v <= 0x7F then [v] else [0x80 + v % 128] + VarintBytes(v / 128)
  }

  /** The number of bytes of the varint at the front of bs, or 0 if bs ends inside it. */
  function VarintLength(bs: seq<Byte>): (n: nat)
    ensures n <= |bs|
  {
    if bs == [] then 0
    else if bs[0] < 0x80 then 1
    else
      var n := VarintLength(bs[1..]);
      if n == 0 then 0 else n + 1
  }

  /** The number whose base 128 digits, least significant first, are the low seven bits of bs. */
  function Base128(bs: seq<Byte>): nat {
    if bs == [] then 0 else bs[0] % 128 + 128 * Base128(bs[1..])
  }

  /** Meaning of a 64-bit varint: at most ten bytes, the value taken modulo two to the 64. */
  function ReadVarint64(bs: seq<Byte>): (r: Parsed<nat>)
    ensures r.Ok? ==> r.value < TWO_TO_64 && |r.rest| < |bs| && |r.rest| + 10 >= |bs|
  {
    var n := VarintLength(bs);
    if n == 0 || n > 10 then Fail else Ok(Base128(bs[..n]) % TWO_TO_64, bs[n..])
  }

  /** The 32-bit decoder, which also takes negative numbers sign-extended to ten bytes. */
  function ReadVarint32(bs: seq<Byte>): (r: Parsed<nat>)
    ensures r.Ok? ==> r.value < TWO_TO_32 && |r.rest| < |bs|
  {
    if bs == [] then Fail
    else if bs[0] < 0x80 then Ok(bs[0], bs[1..])
    else MoreVarint32(bs[1..], 7, bs[0] % 128)
  }

  /** The bytes after the first; bitpos is an 8-bit counter and wraps around. */
  function MoreVarint32(bs: seq<Byte>, bitpos: nat, result: nat): (r: Parsed<nat>)
    requires bitpos < 256 && result < TWO_TO_32
    ensures r.Ok? ==> r.value < TWO_TO_32 && |r.rest| < |bs|
    decreases |bs|
  {
    if bs == [] then Fail
    else if Overflows32(bs[0], bitpos, result) then Fail
    else
      var r := Accumulate32(bs[0], bitpos, result);
      var next := (bitpos + 7) % 256;
      if bs[0] >= 0x80 then MoreVarint32(bs[1..], next, r)
      else if next == 35 && bs[0] / 16 % 8 != 0 then Fail
      else Ok(r, bs[1..])
  }

  /** Past bit 32 only padding may follow: zeros, or the sign extension of a negative number. */
  predicate Overflows32(byte: Byte, bitpos: nat, result: nat) {
    && bitpos >= 32
    && byte % 128 != 0
    && (result / TWO_TO_31 == 0 || byte != (if bitpos < 63 then 0xFF else 0x01))
  }

  function Accumulate32(byte: Byte, bitpos: nat, result: nat): (r: nat)
    requires result < TWO_TO_32
    ensures r < TWO_TO_32
  {
    if bitpos >= 32 then result
    else
      OrBounded32(result, ShiftLeft32(byte % 128, bitpos));
      BitOr(result, ShiftLeft32(byte % 128, bitpos))
  }

  lemma {:induction false} OrBounded32(a: nat, b: nat)
    requires a < TWO_TO_32 && b < TWO_TO_32
    ensures BitOr(a, b) < TWO_TO_32
  {
    PowerValues();
    OrBounded(a, b, 32);
  }

  lemma {:induction false} OrBounded(a: nat, b: nat, k: nat)
    requires a < Pow2(k) && b < Pow2(k)
    ensures BitOr(a, b) < Pow2(k)
  {
    if a > 0 && b > 0 {
      OrBounded(a / 2, b / 2, k - 1);
    }
  }

  // ---------------------------------------------------------------------------------------------
  // Decoding undoes encoding
  // ---------------------------------------------------------------------------------------------

  lemma {:induction false} VarintBytesMeaning(v: nat, t: seq<Byte>)
    ensures VarintLength(VarintBytes(v) + t) == |VarintBytes(v)|
    ensures Base128(VarintBytes(v)) == v
  {
    var e := VarintBytes(v);
    if v <= 0x7F {
      assert (e + t)[0] == v;
      assert e[1..] == [];
    } else {
      VarintBytesMeaning(v / 128, t);
      var digit, more := 0x80 + v % 128, VarintBytes(v / 128);
      assert e == [digit] + more;
      assert (e + t)[1..] == more + t && e[1..] == more;
      hide VarintBytes;
    }
  }

  /** An n-byte varint holds exactly the numbers below 128 to the n. */
  lemma {:induction false} VarintSize(v: nat, n: nat)
    requires n >= 1
    ensures |VarintBytes(v)| <= n <==> v < Pow2(7 * n)
  {
    assert Pow2(7) == 128;
    if n == 1 {
    } else {
      Pow2Add(7, 7 * (n - 1));
      assert 7 * n == 7 + 7 * (n - 1);
      if v > 0x7F {
        VarintSize(v / 128, n - 1);
        assert v < 128 * Pow2(7 * (n - 1)) <==> v / 128 < Pow2(7 * (n - 1));
      } else {
        assert Pow2(7 * (n - 1)) >= 1;
      }
    }
  }

  lemma {:induction false} TenBytesSuffice(v: nat)
    requires v < TWO_TO_64
    ensures |VarintBytes(v)| <= 10
  {
    VarintSize(v, 10);
    PowerValues();
    Pow2Add(64, 6);
  }

  /** pb_decode_varint undoes pb_encode_varint and consumes exactly the bytes written. */
  lemma {:induction false} Varint64RoundTrip(v: nat, t: seq<Byte>)
    requires v < TWO_TO_64
    ensures ReadVarint64(VarintBytes(v) + t) == Ok(v, t)
  {
    VarintBytesMeaning(v, t);
    TenBytesSuffice(v);
    var e := VarintBytes(v);
    assert (e + t)[..|e|] == e && (e + t)[|e|..] == t;
  }

  // ---------------------------------------------------------------------------------------------
  // The 32-bit decoder refines the 64-bit one
  // ---------------------------------------------------------------------------------------------

  /** One more byte of a varint of at most ten: the accumulator stays the value so far, modulo two to the 32. */
  lemma {:induction false} AccumulateStep(byte: Byte, i: nat, acc: nat)
    requires 1 <= i <= 9 && acc < Pow2(7 * i)
    ensures Accumulate32(byte, 7 * i, acc % TWO_TO_32) == (acc + byte % 128 * Pow2(7 * i)) % TWO_TO_32
    ensures acc + byte % 128 * Pow2(7 * i) < Pow2(7 * (i + 1))
  {
    hide Pow2, Accumulate32;
    PowerValues();
    AccumulateBound(byte % 128, i, acc);
    if i <= 3 {
      assert Pow2(7 * (i + 1)) <= 0x1000_0000 by {
        if i == 1 {} else if i == 2 {} else {}
      }
      AccumulateLow(byte, 7 * i, acc);
    } else if i == 4 {
      AccumulateTop(byte, acc);
    } else {
      assert Accumulate32(byte, 7 * i, acc % TWO_TO_32) == acc % TWO_TO_32 by {
        AccumulatePast32(byte, 7 * i, acc % TWO_TO_32);
      }
      AccumulateHigh(byte % 128, i, acc);
    }
  }

  lemma {:induction false} AccumulateBound(c: nat, i: nat, acc: nat)
    requires c < 128 && acc < Pow2(7 * i)
    ensures acc + c * Pow2(7 * i) < Pow2(7 * (i + 1))
  {
    var p := Pow2(7 * i);
    Pow2Add(7, 7 * i);
    assert Pow2(7) == 128;
    assert 7 * (i + 1) == 7 + 7 * i;
    assert (c + 1) * p <= 128 * p;
    assert (c + 1) * p == c * p + p;
  }

  /** Below bit 28 nothing is lost; */
  lemma {:induction false} AccumulateLow(byte: Byte, k: nat, acc: nat)
    requires k < 32 && acc < Pow2(k) && acc + byte % 128 * Pow2(k) < TWO_TO_32
    ensures Accumulate32(byte, k, acc) == acc + byte % 128 * Pow2(k)
  {
    hide Pow2, BitOr;
    OrIsSum(acc, byte % 128, k);
    assert 0 <= byte % 128 * Pow2(k);
  }

  /** at bit 28 the upper three of the seven bits are. */
  lemma {:induction false} AccumulateTop(byte: Byte, acc: nat)
    requires acc < 0x1000_0000
    ensures Accumulate32(byte, 28, acc) == (acc + byte % 128 * 0x1000_0000) % TWO_TO_32
  {
    hide Pow2, BitOr;
    PowerValues();
    var c := byte % 128;
    OrIsSum(acc, c % 16, 28);
    assert c * 0x1000_0000 == c % 16 * 0x1000_0000 + TWO_TO_32 * (c / 16);
    assert ShiftLeft32(c, 28) == c % 16 * Pow2(28);
  }

  lemma {:induction false} AccumulatePast32(byte: Byte, k: nat, result: nat)
    requires k >= 32 && result < TWO_TO_32
    ensures Accumulate32(byte, k, result) == result
  {
  }

  lemma {:induction false} ModPlus(a: nat, k: nat)
    ensures (a + TWO_TO_32 * k) % TWO_TO_32 == a % TWO_TO_32
  {
  }

  lemma {:induction false} Rearranged(c: nat, q: nat)
    ensures c * (8 * TWO_TO_32 * q) == TWO_TO_32 * (8 * (c * q))
  {
  }

  lemma {:induction false} AccumulateHigh(c: nat, i: nat, acc: nat)
    requires i >= 5
    ensures (acc + c * Pow2(7 * i)) % TWO_TO_32 == acc % TWO_TO_32
  {
    var q := Pow2(7 * i - 35);
    assert Pow2(7 * i) == 8 * TWO_TO_32 * q by {
      PowerValues();
      Pow2Add(35, 7 * i - 35);
    }
    hide Pow2;
    Rearranged(c, q);
    ModPlus(acc, 8 * (c * q));
  }

  /** The value of a varint, split after its first byte. */
  lemma {:induction false} Base128Unfold(bs: seq<Byte>, n: nat)
    requires 1 <= n <= |bs|
    ensures Base128(bs[..n]) == bs[0] % 128 + 128 * Base128(bs[1..][..n - 1])
    ensures bs[1..][n - 1..] == bs[n..]
  {
    assert bs[..n][1..] == bs[1..][..n - 1];
  }

  lemma {:induction false} ShiftedSum(acc: nat, c: nat, i: nat, b: nat)
    ensures acc + c * Pow2(7 * i) + Pow2(7 * (i + 1)) * b == acc + Pow2(7 * i) * (c + 128 * b)
  {
    var p := Pow2(7 * i);
    assert 7 * (i + 1) == 7 + 7 * i;
    Pow2Add(7, 7 * i);
    assert Pow2(7) == 128;
    assert p * (c + 128 * b) == c * p + (128 * p) * b;
  }

  /** acc, and b shifted left by i base 128 digits. */
  function Shifted(acc: nat, i: nat, b: nat): nat {
    acc + Pow2(7 * i) * b
  }

  lemma {:induction false} ShiftedStep(acc: nat, c: nat, i: nat, b: nat)
    ensures Shifted(Shifted(acc, i, c), i + 1, b) == Shifted(acc, i, c + 128 * b)
    ensures Shifted(acc, i, 0) == acc
  {
    ShiftedSum(acc, c, i, b);
    assert Pow2(7 * i) * c == c * Pow2(7 * i);
  }

  /** AccumulateStep, in these terms. */
  lemma {:induction false} AccumulateShifted(byte: Byte, i: nat, acc: nat)
    requires 1 <= i <= 9 && acc < Pow2(7 * i)
    ensures Accumulate32(byte, 7 * i, acc % TWO_TO_32) == Shifted(acc, i, byte % 128) % TWO_TO_32
    ensures Shifted(acc, i, byte % 128) < Pow2(7 * (i + 1))
  {
    hide Accumulate32, Pow2;
    AccumulateStep(byte, i, acc);
    assert Pow2(7 * i) * (byte % 128) == byte % 128 * Pow2(7 * i);
  }

  /** One byte of a 32-bit decode that succeeds. */
  lemma {:induction false} MoreVarint32Step(bs: seq<Byte>, i: nat, result: nat)
    requires i <= 9 && result < TWO_TO_32 && MoreVarint32(bs, 7 * i, result).Ok?
    ensures bs != []
    ensures var r := Accumulate32(bs[0], 7 * i, result);
            MoreVarint32(bs, 7 * i, result)
              == if bs[0] < 0x80 then Ok(r, bs[1..]) else MoreVarint32(bs[1..], 7 * (i + 1), r)
  {
    hide Accumulate32;
    assert (7 * i + 7) % 256 == 7 * (i + 1);
  }

  lemma {:induction false} VarintLengthUnfold(bs: seq<Byte>)
    requires VarintLength(bs) > 0
    ensures bs != [] && (if bs[0] < 0x80 then VarintLength(bs) == 1 else VarintLength(bs) == VarintLength(bs[1..]) + 1 > 1)
  {
  }

  /** The last byte of a varint. */
  lemma {:induction false} RefinesLast(bs: seq<Byte>, i: nat, acc: nat)
    requires 1 <= i <= 9 && acc < Pow2(7 * i) && bs != [] && bs[0] < 0x80
    requires MoreVarint32(bs, 7 * i, acc % TWO_TO_32).Ok?
    ensures MoreVarint32(bs, 7 * i, acc % TWO_TO_32) == Ok(Shifted(acc, i, Base128(bs[..1])) % TWO_TO_32, bs[1..])
  {
    hide Accumulate32, Pow2, Shifted, MoreVarint32, Base128, VarintLength;
    MoreVarint32Step(bs, i, acc % TWO_TO_32);
    AccumulateShifted(bs[0], i, acc);
    Base128Unfold(bs, 1);
    EmptyBase128();
    assert bs[1..][..0] == [];
  }

  lemma {:induction false} MoreVarint32Refines(bs: seq<Byte>, i: nat, acc: nat)
    requires 1 <= i && acc < Pow2(7 * i)
    requires i + VarintLength(bs) <= 10 && VarintLength(bs) > 0
    requires MoreVarint32(bs, 7 * i, acc % TWO_TO_32).Ok?
    ensures var n := VarintLength(bs);
            MoreVarint32(bs, 7 * i, acc % TWO_TO_32) == Ok(Shifted(acc, i, Base128(bs[..n])) % TWO_TO_32, bs[n..])
  {
    hide Accumulate32, Pow2, Shifted, MoreVarint32, Base128, VarintLength;
    VarintLengthUnfold(bs);
    if bs[0] < 0x80 {
      RefinesLast(bs, i, acc);
    } else {
      var n, next := VarintLength(bs), Shifted(acc, i, bs[0] % 128);
      MoreVarint32Step(bs, i, acc % TWO_TO_32);
      AccumulateShifted(bs[0], i, acc);
      MoreVarint32Refines(bs[1..], i + 1, next);
      Base128Unfold(bs, n);
      ShiftedStep(acc, bs[0] % 128, i, Base128(bs[1..][..n - 1]));
    }
  }

  lemma {:induction false} VarintLengthOfMore(bs: seq<Byte>, bitpos: nat, result: nat)
    requires bitpos < 256 && result < TWO_TO_32
    requires MoreVarint32(bs, bitpos, result).Ok?
    ensures VarintLength(bs) > 0
    decreases |bs|
  {
    if bs[0] >= 0x80 {
      VarintLengthOfMore(bs[1..], (bitpos + 7) % 256, Accumulate32(bs[0], bitpos, result));
    }
  }

  /** On a varint of at most ten bytes, a successful 32-bit decode consumes what the 64-bit decode consumes
      and yields its value modulo two to the 32. */
  lemma {:induction false} Varint32Refines64(bs: seq<Byte>)
    requires VarintLength(bs) <= 10
    requires ReadVarint32(bs).Ok?
    ensures ReadVarint64(bs).Ok?
    ensures ReadVarint32(bs) == Ok(ReadVarint64(bs).value % TWO_TO_32, ReadVarint64(bs).rest)
  {
    hide Accumulate32, Pow2, MoreVarint32, Base128;
    var n := VarintLength(bs);
    ReadVarint32Value(bs);
    TruncateTwice(Base128(bs[..n]));
  }

  lemma {:induction false} ReadVarint32Value(bs: seq<Byte>)
    requires VarintLength(bs) <= 10
    requires ReadVarint32(bs).Ok?
    ensures var n := VarintLength(bs); n > 0 && ReadVarint32(bs) == Ok(Base128(bs[..n]) % TWO_TO_32, bs[n..])
  {
    hide Accumulate32, Pow2, MoreVarint32, Base128;
    var n := VarintLength(bs);
    if bs[0] < 0x80 {
      assert Base128([]) == 0 by { EmptyBase128(); }
      assert bs[1..][..0] == [];
      Base128Unfold(bs, n);
    } else {
      assert Pow2(7) == 128 by { PowerValues(); }
      VarintLengthOfMore(bs[1..], 7, bs[0] % 128);
      MoreVarint32Refines(bs[1..], 1, bs[0] % 128);
      Base128Unfold(bs, n);
      assert Shifted(bs[0] % 128, 1, Base128(bs[1..][..n - 1])) == Base128(bs[..n]);
    }
  }

  lemma {:induction false} EmptyBase128()
    ensures Base128([]) == 0
  {
  }

  lemma {:induction false} TruncateTwice(v: nat)
    ensures v % TWO_TO_64 % TWO_TO_32 == v % TWO_TO_32
  {
    assert v == v % TWO_TO_64 + TWO_TO_32 * (TWO_TO_32 * (v / TWO_TO_64));
  }

  /** What is left of a 32-bit number once its low 7 * i bits have been written. */
  function Remaining32(i: nat): nat {
    if i <= 1 then 0x200_0000 else if i == 2 then 0x4_0000 else if i == 3 then 0x800 else 0x10
  }

  lemma {:induction false} AcceptsSmall(v: nat, i: nat, result: nat, t: seq<Byte>)
    requires 1 <= i <= 4 && result < TWO_TO_32 && v < Remaining32(i)
    ensures MoreVarint32(VarintBytes(v) + t, 7 * i, result).Ok?
  {
    var e := VarintBytes(v) + t;
    if v > 0x7F {
      assert e[1..] == VarintBytes(v / 128) + t;
      assert (7 * i + 7) % 256 == 7 * (i + 1);
      AcceptsSmall(v / 128, i + 1, Accumulate32(e[0], 7 * i, result), t);
    }
  }

  lemma {:induction false} SignByte(s: seq<Byte>, bitpos: nat, result: nat, t: seq<Byte>)
    requires TWO_TO_31 <= result < TWO_TO_32 && 35 <= bitpos <= 56
    ensures MoreVarint32([0xFF] + s + t, bitpos, result) == MoreVarint32(s + t, bitpos + 7, result)
  {
    hide BitOr, Pow2;
    assert ([0xFF] + s + t)[1..] == s + t;
  }

  lemma {:induction false} LastSignByte(result: nat, t: seq<Byte>)
    requires TWO_TO_31 <= result < TWO_TO_32
    ensures MoreVarint32([0x01] + t, 63, result) == Ok(result, t)
  {
    hide BitOr, Pow2;
    assert ([0x01] + t)[1..] == t;
  }

  lemma {:induction false} SignExtensionBytes()
    ensures VarintBytes(0x1FFF_FFFF) == [0xFF, 0xFF, 0xFF, 0xFF, 0x01]
  {
    assert VarintBytes(0x7FFF) == [0xFF, 0xFF, 0x01];
  }

  /** The five bytes of sign extension, accepted when bit 31 of the number so far is set. */
  lemma {:induction false} AcceptsSignExtension(result: nat, t: seq<Byte>)
    requires TWO_TO_31 <= result < TWO_TO_32
    ensures MoreVarint32(VarintBytes(0x1FFF_FFFF) + t, 35, result) == Ok(result, t)
  {
    hide MoreVarint32, VarintBytes;
    SignExtensionBytes();
    var s4: seq<Byte> := [0xFF, 0xFF, 0xFF, 0x01];
    assert [0xFF] + s4 == VarintBytes(0x1FFF_FFFF);
    SignByte(s4, 35, result, t);
    assert [0xFF] + [0xFF, 0xFF, 0x01] == s4;
    SignByte([0xFF, 0xFF, 0x01], 42, result, t);
    assert [0xFF] + [0xFF, 0x01] == [0xFF, 0xFF, 0x01];
    SignByte([0xFF, 0x01], 49, result, t);
    assert [0xFF] + [0x01] == [0xFF, 0x01];
    SignByte([0x01], 56, result, t);
    LastSignByte(result, t);
  }

  /** w without its low i base 128 digits, */
  function High(w: nat, i: nat): nat {
    if i == 0 then w else High(w, i - 1) / 128
  }

  /** and the number those digits make. */
  function Low(w: nat, i: nat): nat {
    if i == 0 then 0 else Low(w, i - 1) + High(w, i - 1) % 128 * Pow2(7 * (i - 1))
  }

  lemma {:induction false} NegativeHigh(w: nat, i: nat)
    requires TWO_TO_64 - TWO_TO_31 <= w < TWO_TO_64 && 1 <= i <= 4
    ensures High(w, i) > 0x7F
  {
    assert High(w, 1) == w / 128;
    if i == 1 {
    } else if i == 2 {
    } else if i == 3 {
      assert High(w, 3) == High(w, 2) / 128;
    } else {
      assert High(w, 4) == High(w, 3) / 128 && High(w, 3) == High(w, 2) / 128;
    }
  }

  /** Moving a digit h % 128 over to the low part. */
  lemma {:induction false} CarryDigit(p: nat, h: nat, l: nat)
    ensures p * h + l == (128 * p) * (h / 128) + (l + h % 128 * p)
  {
    var q, r := h / 128, h % 128;
    assert h == 128 * q + r;
    calc {
      p * h;
      p * (128 * q) + p * r;
      (128 * p) * q + r * p;
    }
  }

  lemma {:induction false} HighAndLow(w: nat, i: nat)
    ensures w == Pow2(7 * i) * High(w, i) + Low(w, i) && Low(w, i) < Pow2(7 * i)
  {
    if i > 0 {
      HighAndLow(w, i - 1);
      HighAndLowStep(w, i - 1);
    }
  }

  lemma {:induction false} HighAndLowStep(w: nat, i: nat)
    requires w == Pow2(7 * i) * High(w, i) + Low(w, i) && Low(w, i) < Pow2(7 * i)
    ensures w == Pow2(7 * (i + 1)) * High(w, i + 1) + Low(w, i + 1) && Low(w, i + 1) < Pow2(7 * (i + 1))
  {
    var p, h, l := Pow2(7 * i), High(w, i), Low(w, i);
    assert High(w, i + 1) == h / 128 && Low(w, i + 1) == l + h % 128 * p;
    AccumulateBound(h % 128, i, l);
    CarryDigit(p, h, l);
    assert Pow2(7 * (i + 1)) == 128 * p by {
      Pow2Add(7, 7 * i);
      assert Pow2(7) == 128 && 7 * (i + 1) == 7 + 7 * i;
    }
  }

  lemma {:induction false} LastDigits(w: nat)
    requires TWO_TO_64 - TWO_TO_31 <= w < TWO_TO_64
    ensures High(w, 5) == 0x1FFF_FFFF && TWO_TO_31 <= Low(w, 5) % TWO_TO_32 < TWO_TO_32
  {
    hide Pow2, High, Low;
    PowerValues();
    HighAndLow(w, 5);
  }

  lemma {:induction false} VarintBytesUnfold(v: nat, t: seq<Byte>)
    requires v > 0x7F
    ensures var e := VarintBytes(v) + t;
            e[0] == 0x80 + v % 128 && e[1..] == VarintBytes(v / 128) + t
  {
  }

  lemma {:induction false} MoreVarint32Continues(bs: seq<Byte>, i: nat, result: nat)
    requires 1 <= i <= 4 && result < TWO_TO_32 && bs != [] && bs[0] >= 0x80
    ensures MoreVarint32(bs, 7 * i, result) == MoreVarint32(bs[1..], 7 * (i + 1), Accumulate32(bs[0], 7 * i, result))
  {
    hide Accumulate32;
    assert (7 * i + 7) % 256 == 7 * (i + 1);
  }

  lemma {:induction false} NextDigit(w: nat, i: nat)
    ensures High(w, i + 1) == High(w, i) / 128
    ensures Low(w, i + 1) == Shifted(Low(w, i), i, High(w, i) % 128)
  {
    assert Pow2(7 * i) * (High(w, i) % 128) == High(w, i) % 128 * Pow2(7 * i);
  }

  lemma {:induction false} FirstDigit(w: nat)
    ensures High(w, 1) == w / 128 && Low(w, 1) == w % 128
  {
    assert High(w, 0) == w && Low(w, 0) == 0 && Pow2(7 * 0) == 1;
    assert Low(w, 1) == Low(w, 0) + High(w, 0) % 128 * Pow2(7 * 0);
  }

  lemma {:induction false} DigitByte(h: nat)
    ensures 0x80 <= 0x80 + h % 128 < 256 && (0x80 + h % 128) % 128 == h % 128
  {
  }

  lemma {:induction false} AcceptsNegative(w: nat, i: nat, t: seq<Byte>)
    requires TWO_TO_64 - TWO_TO_31 <= w < TWO_TO_64 && 1 <= i <= 5 && Low(w, i) < Pow2(7 * i)
    ensures MoreVarint32(VarintBytes(High(w, i)) + t, 7 * i, Low(w, i) % TWO_TO_32).Ok?
    decreases 5 - i
  {
    hide Pow2, Accumulate32, VarintBytes, MoreVarint32, High, Low, Shifted;
    if i == 5 {
      LastDigits(w);
      AcceptsSignExtension(Low(w, 5) % TWO_TO_32, t);
    } else {
      var v := High(w, i);
      NegativeHigh(w, i);
      VarintBytesUnfold(v, t);
      DigitByte(v);
      MoreVarint32Continues(VarintBytes(v) + t, i, Low(w, i) % TWO_TO_32);
      AccumulateShifted(0x80 + v % 128, i, Low(w, i));
      NextDigit(w, i);
      AcceptsNegative(w, i + 1, t);
    }
  }

  lemma {:induction false} SmallVarint(v: nat)
    requires v <= 0x7F
    ensures VarintBytes(v) == [v]
  {
  }

  /** The 32-bit decoder reads back every 32-bit number ... */
  lemma {:induction false} Varint32RoundTrip(v: nat, t: seq<Byte>)
    requires v < TWO_TO_32
    ensures ReadVarint32(VarintBytes(v) + t) == Ok(v, t)
  {
    hide MoreVarint32, VarintBytes;
    var e := VarintBytes(v) + t;
    if v > 0x7F {
      VarintBytesUnfold(v, t);
      AcceptsSmall(v / 128, 1, v % 128, t);
    } else {
      assert VarintBytes(v) == [v] by { SmallVarint(v); }
    }
    VarintBytesMeaning(v, t);
    TenBytesSuffice(v);
    Varint64RoundTrip(v, t);
    Varint32Refines64(e);
  }

  lemma {:induction false} ReadContinues(bs: seq<Byte>)
    requires bs != [] && bs[0] >= 0x80
    ensures ReadVarint32(bs) == MoreVarint32(bs[1..], 7 * 1, bs[0] % 128)
  {
  }

  lemma {:induction false} OneDigit(v: nat)
    ensures v % 128 % TWO_TO_32 == v % 128 && v % 128 < Pow2(7 * 1)
  {
    assert Pow2(7) == 128;
  }

  lemma {:induction false} NegativeAccepted(v: nat, t: seq<Byte>)
    requires TWO_TO_64 - TWO_TO_31 <= v < TWO_TO_64
    ensures ReadVarint32(VarintBytes(v) + t).Ok?
  {
    FirstDigit(v);
    OneDigit(v);
    assert v > 0x7F;
    hide MoreVarint32, VarintBytes, Pow2, High, Low, ReadVarint32;
    VarintBytesUnfold(v, t);
    DigitByte(v);
    ReadContinues(VarintBytes(v) + t);
    AcceptsNegative(v, 1, t);
  }

  lemma {:induction false} TruncatedNegative(n: int)
    requires -TWO_TO_31 <= n < 0
    ensures (TWO_TO_64 + n) % TWO_TO_32 == TWO_TO_32 + n
  {
    assert TWO_TO_64 + n == TWO_TO_32 * (TWO_TO_32 - 1) + (TWO_TO_32 + n);
  }

  /** ... and every negative one, written sign-extended to 64 bits, as its two's complement. */
  lemma {:induction false} NegativeVarint32(n: int, t: seq<Byte>)
    requires -TWO_TO_31 <= n < 0
    ensures ReadVarint32(VarintBytes(TWO_TO_64 + n) + t) == Ok(TWO_TO_32 + n, t)
  {
    hide VarintBytes, ReadVarint32, ReadVarint64, VarintLength;
    var v := TWO_TO_64 + n;
    NegativeAccepted(v, t);
    VarintBytesMeaning(v, t);
    TenBytesSuffice(v);
    Varint64RoundTrip(v, t);
    Varint32Refines64(VarintBytes(v) + t);
    TruncatedNegative(n);
  }

  // ---------------------------------------------------------------------------------------------
  // What the 32-bit decoder accepts
  // ---------------------------------------------------------------------------------------------

  /** A byte past the fifth adds nothing: it is padding, or the sign extension of a negative number. */
  predicate IsPadding(byte: Byte, j: nat, negative: bool) {
    byte % 128 == 0 || (negative && byte == (if j < 9 then 0xFF else 0x01))
  }

  lemma {:induction false} PaddingStep(bs: seq<Byte>, j: nat, result: nat)
    requires 5 <= j <= 36 && result < TWO_TO_32 && bs != []
    ensures MoreVarint32(bs, 7 * j, result)
            == if !IsPadding(bs[0], j, result >= TWO_TO_31) then Fail
               else if bs[0] < 0x80 then Ok(result, bs[1..])
               else MoreVarint32(bs[1..], (7 * j + 7) % 256, result)
  {
    hide BitOr, Pow2;
  }

  /** From the sixth byte on. */
  lemma {:induction false} PastFive(bs: seq<Byte>, j: nat, result: nat)
    requires 5 <= j && result < TWO_TO_32 && VarintLength(bs) > 0 && j + VarintLength(bs) <= 37
    ensures MoreVarint32(bs, 7 * j, result).Ok?
            <==> forall k | 0 <= k < VarintLength(bs) :: IsPadding(bs[k], j + k, result >= TWO_TO_31)
    ensures MoreVarint32(bs, 7 * j, result).Ok? ==> MoreVarint32(bs, 7 * j, result) == Ok(result, bs[VarintLength(bs)..])
    decreases |bs|
  {
    hide IsPadding, MoreVarint32;
    PaddingStep(bs, j, result);
    if bs[0] >= 0x80 {
      PastFive(bs[1..], j + 1, result);
      var n := VarintLength(bs[1..]);
      assert bs[1..][n..] == bs[n + 1..];
      if forall k | 0 <= k < n + 1 :: IsPadding(bs[k], j + k, result >= TWO_TO_31) {
        forall k | 0 <= k < n
          ensures IsPadding(bs[1..][k], j + 1 + k, result >= TWO_TO_31)
        {
          assert IsPadding(bs[k + 1], j + (k + 1), result >= TWO_TO_31);
        }
      } else {
        var k :| 0 <= k < n + 1 && !IsPadding(bs[k], j + k, result >= TWO_TO_31);
        assert k > 0 ==> !IsPadding(bs[1..][k - 1], j + 1 + (k - 1), result >= TWO_TO_31);
      }
    }
  }

  /** What the rest of a varint must be after i bytes: the fifth byte, if it is the last, has no bit past bit 31; the
      bytes after it are padding. */
  predicate Acceptable(bs: seq<Byte>, i: nat, n: nat)
    requires i <= 4 && n <= |bs|
  {
    && (i + n == 5 ==> bs[4 - i] < 0x10)
    && forall k | 5 - i <= k < n :: IsPadding(bs[k], i + k, bs[4 - i] / 8 % 2 == 1)
  }

  lemma {:induction false} AcceptableStep(bs: seq<Byte>, i: nat, n: nat)
    requires i < 4 && 1 <= n <= |bs|
    ensures Acceptable(bs, i, n) <==> n == 1 || Acceptable(bs[1..], i + 1, n - 1)
  {
    hide IsPadding;
    if n > 1 && n + i > 4 {
      assert bs[4 - i] == bs[1..][4 - (i + 1)];
      if Acceptable(bs, i, n) {
        forall k | 5 - (i + 1) <= k < n - 1
          ensures IsPadding(bs[1..][k], i + 1 + k, bs[1..][4 - (i + 1)] / 8 % 2 == 1)
        {
          assert IsPadding(bs[k + 1], i + (k + 1), bs[4 - i] / 8 % 2 == 1);
        }
      } else if Acceptable(bs[1..], i + 1, n - 1) {
        forall k | 5 - i <= k < n
          ensures IsPadding(bs[k], i + k, bs[4 - i] / 8 % 2 == 1)
        {
          assert IsPadding(bs[1..][k - 1], i + 1 + (k - 1), bs[1..][4 - (i + 1)] / 8 % 2 == 1);
        }
      }
    }
  }

  /** The first five bytes of a varint make up its 32-bit value. */
  function Digits32(n: nat): nat {
    if n < 5 then n else 5
  }

  lemma {:induction false} TopBits(acc: nat, c: nat)
    requires acc < 0x1000_0000
    ensures (acc + c * 0x1000_0000) % TWO_TO_32 == acc + c % 16 * 0x1000_0000
    ensures (acc + c * 0x1000_0000) % TWO_TO_32 >= TWO_TO_31 <==> c % 16 >= 8
  {
    assert acc + c * 0x1000_0000 == acc + c % 16 * 0x1000_0000 + TWO_TO_32 * (c / 16);
    ModPlus(acc + c % 16 * 0x1000_0000, c / 16);
  }

  lemma {:induction false} FourthBit(byte: Byte)
    ensures byte % 128 % 16 >= 8 <==> byte / 8 % 2 == 1
  {
    var q, m := byte / 16, byte % 16;
    assert byte % 128 % 16 == m by {
      assert byte % 128 == if byte < 128 then byte else byte - 128;
    }
    assert byte == 8 * (2 * q + (if m >= 8 then 1 else 0)) + (if m >= 8 then m - 8 else m);
  }

  /** The fifth byte supplies bits 28 to 31. */
  lemma {:induction false} FifthByte(byte: Byte, acc: nat)
    requires acc < Pow2(28)
    ensures Accumulate32(byte, 28, acc % TWO_TO_32) == Shifted(acc, 4, byte % 128) % TWO_TO_32
    ensures Accumulate32(byte, 28, acc % TWO_TO_32) >= TWO_TO_31 <==> byte / 8 % 2 == 1
  {
    hide Accumulate32, Pow2;
    PowerValues();
    AccumulateTop(byte, acc);
    TopBits(acc, byte % 128);
    FourthBit(byte);
    assert Pow2(28) * (byte % 128) == byte % 128 * 0x1000_0000;
  }

  /** Reading on after i bytes with the number acc. */
  predicate ReadsOn(bs: seq<Byte>, i: nat, acc: nat)
    requires 1 <= i <= 4 && i + VarintLength(bs) <= 37
  {
    var n, r := VarintLength(bs), MoreVarint32(bs, 7 * i, acc % TWO_TO_32);
    && (r.Ok? <==> Acceptable(bs, i, n))
    && 0 <= Digits32(i + n) - i <= n
    && (r.Ok? ==> r == Ok(Shifted(acc, i, Base128(bs[..Digits32(i + n) - i])) % TWO_TO_32, bs[n..]))
  }

  lemma {:induction false} LastOfFive(bs: seq<Byte>, acc: nat)
    requires acc < Pow2(28) && 0 < VarintLength(bs) <= 33
    ensures ReadsOn(bs, 4, acc)
  {
    hide Accumulate32, Pow2, Shifted, MoreVarint32, Base128, VarintLength, Acceptable, IsPadding;
    VarintLengthUnfold(bs);
    var n, r := VarintLength(bs), Accumulate32(bs[0], 28, acc % TWO_TO_32);
    Turn32(bs, 4, acc % TWO_TO_32);
    FifthByte(bs[0], acc);
    Base128Unfold(bs, 1);
    EmptyBase128();
    assert bs[1..][..0] == [];
    AcceptableAtFive(bs, n);
    if bs[0] >= 0x80 {
      PastFive(bs[1..], 5, r);
      assert bs[1..][n - 1..] == bs[n..];
    }
  }

  lemma {:induction false} OneOfFive(bs: seq<Byte>, i: nat, acc: nat)
    requires 1 <= i < 4 && acc < Pow2(7 * i) && VarintLength(bs) > 0 && i + VarintLength(bs) <= 37
    requires bs[0] >= 0x80 ==>
               VarintLength(bs[1..]) == VarintLength(bs) - 1 && ReadsOn(bs[1..], i + 1, Shifted(acc, i, bs[0] % 128))
    ensures ReadsOn(bs, i, acc)
  {
    hide Accumulate32, Pow2, Shifted, MoreVarint32, Base128, VarintLength, Acceptable, IsPadding;
    VarintLengthUnfold(bs);
    var n := VarintLength(bs);
    var d := Digits32(i + n) - i;
    Turn32(bs, i, acc % TWO_TO_32);
    AccumulateShifted(bs[0], i, acc);
    AcceptableStep(bs, i, n);
    Base128Unfold(bs, d);
    ShiftedStep(acc, bs[0] % 128, i, Base128(bs[1..][..d - 1]));
    if bs[0] < 0x80 {
      EmptyBase128();
      assert bs[1..][..0] == [];
    } else {
      assert bs[1..][n - 1..] == bs[n..];
    }
  }

  lemma {:induction false} FirstFive(bs: seq<Byte>, i: nat, acc: nat)
    requires 1 <= i <= 4 && acc < Pow2(7 * i) && VarintLength(bs) > 0 && i + VarintLength(bs) <= 37
    ensures ReadsOn(bs, i, acc)
    decreases |bs|
  {
    hide ReadsOn, Pow2, Shifted, VarintLength;
    VarintLengthUnfold(bs);
    if i == 4 {
      LastOfFive(bs, acc);
    } else {
      if bs[0] >= 0x80 {
        AccumulateShifted(bs[0], i, acc);
        FirstFive(bs[1..], i + 1, Shifted(acc, i, bs[0] % 128));
      }
      OneOfFive(bs, i, acc);
    }
  }

  lemma {:induction false} AcceptableAtFive(bs: seq<Byte>, n: nat)
    requires 1 <= n <= |bs|
    ensures Acceptable(bs, 4, n)
            <==> (n == 1 ==> bs[0] < 0x10) && forall k | 0 <= k < n - 1 :: IsPadding(bs[1..][k], 5 + k, bs[0] / 8 % 2 == 1)
  {
    hide IsPadding;
    if forall k | 0 <= k < n - 1 :: IsPadding(bs[1..][k], 5 + k, bs[0] / 8 % 2 == 1) {
      forall k | 1 <= k < n
        ensures IsPadding(bs[k], 4 + k, bs[0] / 8 % 2 == 1)
      {
        assert IsPadding(bs[1..][k - 1], 5 + (k - 1), bs[0] / 8 % 2 == 1);
      }
    } else {
      var k :| 0 <= k < n - 1 && !IsPadding(bs[1..][k], 5 + k, bs[0] / 8 % 2 == 1);
      assert !IsPadding(bs[k + 1], 4 + (k + 1), bs[0] / 8 % 2 == 1);
    }
  }

  /** One byte among the first five. */
  lemma {:induction false} Turn32(bs: seq<Byte>, i: nat, result: nat)
    requires 1 <= i <= 4 && result < TWO_TO_32 && bs != []
    ensures var r := Accumulate32(bs[0], 7 * i, result);
            MoreVarint32(bs, 7 * i, result)
              == if bs[0] >= 0x80 then MoreVarint32(bs[1..], 7 * (i + 1), r)
                 else if i == 4 && bs[0] >= 0x10 then Fail else Ok(r, bs[1..])
  {
    hide Accumulate32;
    assert (7 * i + 7) % 256 == 7 * (i + 1);
  }

  /** Exactly which varints the 32-bit decoder accepts, up to the length at which its 8-bit bit counter wraps around:
      no bit past bit 31 in a fifth byte that is the last, and only padding after the fifth byte. The value is that of
      the first five bytes, modulo two to the 32. */
  lemma {:induction false} Varint32AcceptsIff(bs: seq<Byte>)
    requires 0 < VarintLength(bs) <= 37
    ensures var n, r := VarintLength(bs), ReadVarint32(bs);
            && (r.Ok? <==> (n == 5 ==> bs[4] < 0x10) && forall j | 5 <= j < n :: IsPadding(bs[j], j, bs[4] / 8 % 2 == 1))
            && (r.Ok? ==> r == Ok(Base128(bs[..Digits32(n)]) % TWO_TO_32, bs[n..]))
  {
    hide MoreVarint32, Base128, Shifted, IsPadding, Pow2;
    var n := VarintLength(bs);
    Base128Unfold(bs, Digits32(n));
    EmptyBase128();
    AcceptableStep(bs, 0, n);
    if bs[0] < 0x80 {
      assert bs[1..][..0] == [];
    } else {
      PowerValues();
      FirstFive(bs[1..], 1, bs[0] % 128);
      assert bs[1..][n - 1..] == bs[n..];
      FirstShift(bs[0] % 128, Base128(bs[1..][..Digits32(n) - 1]));
    }
    assert Acceptable(bs, 0, n)
      <==> (n == 5 ==> bs[4] < 0x10) && forall j | 5 <= j < n :: IsPadding(bs[j], j, bs[4] / 8 % 2 == 1);
  }

  /** Bytes of padding before a last byte that holds 1. */
  function PaddedOne(k: nat): (bs: seq<Byte>)
    ensures |bs| == k + 1
  {
    if k == 0 then [1] else [0x80] + PaddedOne(k - 1)
  }

  lemma {:induction false} PaddedFirst(k: nat)
    requires k > 0
    ensures PaddedOne(k)[0] == 0x80 && PaddedOne(k)[1..] == PaddedOne(k - 1)
  {
  }

  lemma {:induction false} PadsOn(bs: seq<Byte>, bitpos: nat)
    requires bitpos < 256 && bs != [] && bs[0] == 0x80
    ensures MoreVarint32(bs, bitpos, 0) == MoreVarint32(bs[1..], (bitpos + 7) % 256, 0)
  {
    hide Pow2;
    assert ShiftLeft32(0, bitpos) == 0;
  }

  lemma {:induction false} ReadsEight()
    ensures MoreVarint32([1], 3, 0) == Ok(8, [])
  {
    assert Pow2(3) == 8;
    var one: seq<Byte> := [1];
    assert one[1..] == [];
  }

  /** The bit counter k bytes before it has come around to 3. */
  function BitsBefore(k: nat): nat
    requires k <= 36
  {
    if k == 0 then 3 else 259 - 7 * k
  }

  lemma {:induction false} SevenMore(k: nat)
    requires 1 <= k <= 36
    ensures (BitsBefore(k) + 7) % 256 == BitsBefore(k - 1) && BitsBefore(k) < 256
  {
    if k == 1 {
      assert 259 % 256 == 3;
    }
  }

  lemma {:induction false} PaddedOneReads(k: nat)
    requires k <= 36
    ensures MoreVarint32(PaddedOne(k), BitsBefore(k), 0) == Ok(8, [])
  {
    if k == 0 {
      ReadsEight();
      assert PaddedOne(0) == [1];
    } else {
      PaddedFirst(k);
      SevenMore(k);
      hide MoreVarint32, PaddedOne, BitsBefore;
      PadsOn(PaddedOne(k), BitsBefore(k));
      PaddedOneReads(k - 1);
    }
  }

  lemma {:induction false} PaddedLength(k: nat)
    ensures VarintLength(PaddedOne(k)) == k + 1
  {
    if k > 0 {
      PaddedLength(k - 1);
      PaddedFirst(k);
    }
  }

  /** At that length a number comes back: 1 under 37 bytes of padding, far beyond bit 63, reads as 8. */
  lemma {:induction false} CounterWrapsAround(k: nat)
    requires k == 37
    ensures VarintLength(PaddedOne(k)) == k + 1 && ReadVarint32(PaddedOne(k)) == Ok(8, [])
  {
    PaddedLength(k);
    PaddedFirst(k);
    hide MoreVarint32, PaddedOne, ReadVarint32, VarintLength;
    ReadContinues(PaddedOne(k));
    PaddedOneReads(k - 1);
  }

  lemma {:induction false} FirstShift(c: nat, b: nat)
    ensures Shifted(c, 1, b) == c + 128 * b
  {
    assert Pow2(7) == 128;
  }

  // ---------------------------------------------------------------------------------------------
  // Signed numbers and fixed-width words
  // ---------------------------------------------------------------------------------------------

  /** `(uint64_t)n` */
  function ToUInt64(n: int): (v: nat)
    ensures v < TWO_TO_64
  {
    n % TWO_TO_64
  }

  /** `(int64_t)v` */
  function ToInt64(v: nat): int
    requires v < TWO_TO_64
  {
    if v < TWO_TO_63 then v else v - TWO_TO_64
  }

  /** `(int32_t)v` */
  function ToInt32(v: nat): int {
    var w := v % TWO_TO_32;
    if w < TWO_TO_31 then w else w - TWO_TO_32
  }

  /** `~v` on 64 bits */
  function Not64(v: nat): (r: nat)
    requires v < TWO_TO_64
    ensures r < TWO_TO_64
  {
    TWO_TO_64 - 1 - v
  }

  function ZigZag(n: int): (v: nat)
    ensures v < TWO_TO_64
  {
    var shifted := 2 * ToUInt64(n) % TWO_TO_64;
    if n < 0 then Not64(shifted) else shifted
  }

  function UnZigZag(v: nat): int
    requires v < TWO_TO_64
  {
    if v % 2 == 1 then ToInt64(Not64(v / 2)) else ToInt64(v / 2)
  }

  /** Zigzag maps the 64-bit signed numbers one to one onto the unsigned ones, small magnitudes to small numbers. */
  lemma {:induction false} ZigZagInverse(n: int)
    requires -TWO_TO_63 <= n < TWO_TO_63
    ensures ZigZag(n) == (if n < 0 then -2 * n - 1 else 2 * n)
    ensures UnZigZag(ZigZag(n)) == n
  {
    if n < 0 {
      assert 2 * (n + TWO_TO_64) % TWO_TO_64 == 2 * n + TWO_TO_64;
    }
  }

  function LittleEndian(v: nat, width: nat): (bs: seq<Byte>)
    ensures |bs| == width
  {
    if width == 0 then [] else [v % 256] + LittleEndian(v / 256, width - 1)
  }

  function FromLittleEndian(bs: seq<Byte>): nat {
    if bs == [] then 0 else bs[0] + 256 * FromLittleEndian(bs[1..])
  }

  lemma {:induction false} LittleEndianInverse(v: nat, width: nat)
    requires v < Pow2(8 * width)
    ensures FromLittleEndian(LittleEndian(v, width)) == v
  {
    if width > 0 {
      Pow2Add(8, 8 * (width - 1));
      assert Pow2(8) == 256;
      LittleEndianInverse(v / 256, width - 1);
      assert LittleEndian(v, width)[1..] == LittleEndian(v / 256, width - 1);
    }
  }

  function ReadFixed(bs: seq<Byte>, width: nat): (r: Parsed<nat>)
    ensures r.Ok? ==> |r.rest| == |bs| - width
  {
    if |bs| < width then Fail else Ok(FromLittleEndian(bs[..width]), bs[width..])
  }

  lemma {:induction false} FixedRoundTrip(v: nat, width: nat, t: seq<Byte>)
    requires v < Pow2(8 * width)
    ensures ReadFixed(LittleEndian(v, width) + t, width) == Ok(v, t)
  {
    var e := LittleEndian(v, width);
    LittleEndianInverse(v, width);
    assert (e + t)[..width] == e && (e + t)[width..] == t;
  }

  // ---------------------------------------------------------------------------------------------
  // Digit by digit
  // ---------------------------------------------------------------------------------------------

  lemma {:induction false} Larger(d: nat, a: nat, b: nat)
    requires a < b
    ensures d * a + d <= d * b
  {
    AtMost(d, a + 1, b);
    assert d * (a + 1) == d * a + d;
  }

  lemma {:induction false} DivUnique(v: nat, d: nat, q: nat, r: nat)
    requires v == d * q + r && r < d
    ensures v / d == q
  {
    assert v == d * (v / d) + v % d;
    if q < v / d {
      Larger(d, q, v / d);
    } else if v / d < q {
      Larger(d, v / d, q);
    }
  }

  lemma {:induction false} TwoRemainders(a: nat, b: nat, y: nat, s: nat, r: nat)
    requires r < a && s < b
    ensures a * (b * y + s) + r == (a * b) * y + (a * s + r) && 0 <= a * s + r < a * b
  {
    calc {
      a * (b * y + s);
      a * (b * y) + a * s;
      (a * b) * y + a * s;
    }
    assert a * (s + 1) == a * s + a;
    AtMost(a, s + 1, b);
  }

  lemma {:induction false} AtMost(a: nat, s: nat, b: nat)
    requires s <= b
    ensures 0 <= a * s <= a * b
  {
    assert a * b == a * s + a * (b - s);
  }

  lemma {:induction false} DivTwice(v: nat, a: nat, b: nat)
    requires a > 0 && b > 0
    ensures a * b > 0 && v / a / b == v / (a * b)
  {
    Euclid(v, a);
    Euclid(v / a, b);
    Nested(v, a, b, v / a, v % a, v / a / b, v / a % b);
  }

  lemma {:induction false} Euclid(v: nat, d: nat)
    requires d > 0
    ensures v == d * (v / d) + v % d && 0 <= v % d < d
  {
  }

  lemma {:induction false} Nested(v: nat, a: nat, b: nat, x: nat, r: nat, y: nat, s: nat)
    requires v == a * x + r && r < a && x == b * y + s && s < b
    ensures a * b > 0 && v / (a * b) == y
  {
    TwoRemainders(a, b, y, s, r);
    DivUnique(v, a * b, y, a * s + r);
  }

  lemma {:induction false} NextPlace(v: nat, bits: nat, k: nat)
    requires k > 0
    ensures v / Pow2(bits) / Pow2(bits * (k - 1)) == v / Pow2(bits * k)
  {
    assert bits * k == bits + bits * (k - 1);
    Pow2Add(bits, bits * (k - 1));
    DivTwice(v, Pow2(bits), Pow2(bits * (k - 1)));
  }

  lemma {:induction false} FirstPlace(bits: nat)
    ensures Pow2(bits * 0) == 1 && Pow2(7) == 128 && Pow2(8) == 256
  {
    assert bits * 0 == 0;
    assert Pow2(7) == 128;
  }

  /** Byte k of a varint holds bits 7 * k to 7 * k + 6 of the number, under a bit that says whether more follow. */
  lemma {:induction false} VarintDigit(v: nat, k: nat)
    requires k < |VarintBytes(v)|
    ensures VarintBytes(v)[k] % 128 == v / Pow2(7 * k) % 128
    ensures VarintBytes(v)[k] >= 0x80 <==> k < |VarintBytes(v)| - 1
  {
    FirstPlace(7);
    if k > 0 {
      VarintDigit(v / 128, k - 1);
      NextPlace(v, 7, k);
    }
  }

  lemma {:induction false} Base128Digit(bs: seq<Byte>, k: nat)
    requires k < |bs|
    ensures Base128(bs) / Pow2(7 * k) % 128 == bs[k] % 128
  {
    FirstPlace(7);
    if k > 0 {
      Base128Digit(bs[1..], k - 1);
      NextPlace(Base128(bs), 7, k);
      assert Base128(bs) / 128 == Base128(bs[1..]);
    }
  }

  /** Byte k of a fixed-width word holds bits 8 * k to 8 * k + 7 of the number, when it is written ... */
  lemma {:induction false} LittleEndianDigit(v: nat, width: nat, k: nat)
    requires k < width
    ensures LittleEndian(v, width)[k] == v / Pow2(8 * k) % 256
  {
    FirstPlace(8);
    if k > 0 {
      LittleEndianDigit(v / 256, width - 1, k - 1);
      NextPlace(v, 8, k);
    }
  }

  /** ... and when it is read. */
  lemma {:induction false} FromLittleEndianDigit(bs: seq<Byte>, k: nat)
    requires k < |bs|
    ensures FromLittleEndian(bs) / Pow2(8 * k) % 256 == bs[k]
  {
    FirstPlace(8);
    if k > 0 {
      FromLittleEndianDigit(bs[1..], k - 1);
      NextPlace(FromLittleEndian(bs), 8, k);
      assert FromLittleEndian(bs) / 256 == FromLittleEndian(bs[1..]);
    }
  }
}
