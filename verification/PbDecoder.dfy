/** pb_decode.c: the decoder over input streams, step by step, against what Decoding says the bytes mean. */
module Decoder {
  import opened Wrappers
  import opened Wire
  import opened Descriptors
  import opened Decoding
  import opened FieldIterator
  import opened RequiredMask
  import opened Exactness
  import opened Soundness

  // ---------------------------------------------------------------------------------------------
  // Input streams
  // ---------------------------------------------------------------------------------------------

  /** A stream over a memory buffer, of which bytesLeft bytes may be read from state on. */
  class IStream {
    const buf: seq<Byte>
    var state: nat
    var bytesLeft: nat

    ghost predicate Valid()
      reads this
    {
      state + bytesLeft <= |buf|
    }

    /** End of the region the stream reads from. */
    ghost function End(): nat
      reads this
    {
      state + bytesLeft
    }

    ghost function Left(): (bs: seq<Byte>)
      reads this
      requires Valid()
      ensures |bs| == bytesLeft
    {
      buf[state..state + bytesLeft]
    }

    /** pb_istream_from_buffer */
    constructor (buf: seq<Byte>)
      ensures this.buf == buf && Valid() && Left() == buf && End() == |buf|
    {
      this.buf := buf;
      state, bytesLeft := 0, |buf|;
    }

    /** `*substream = *stream` */
    constructor Copy(stream: IStream)
      requires stream.Valid()
      ensures buf == stream.buf && state == stream.state && bytesLeft == stream.bytesLeft
    {
      buf := stream.buf;
      state, bytesLeft := stream.state, stream.bytesLeft;
    }

    /** buf_read; without a destination the bytes are skipped. */
    method BufRead(dest: array?<Byte>, count: nat)
      requires state + count <= |buf| && (dest != null ==> count <= dest.Length)
      modifies this`state
      modifies if dest == null then {} else {dest}
      ensures state == old(state) + count
      ensures dest != null ==> dest[..count] == buf[old(state)..state]
    {
      var source := state;
      state := source + count;
      if dest != null {
        for i := 0 to count
          invariant state == source + count
          invariant dest[..i] == buf[source..source + i]
        {
          dest[i] := buf[source + i];
        }
      }
    }
  }

  /** pb_read */
  method PbRead(stream: IStream, dest: array?<Byte>, count: nat) returns (ok: bool)
    requires stream.Valid() && (dest != null ==> count <= dest.Length)
    modifies stream
    modifies if dest == null then {} else {dest}
    ensures stream.Valid() && stream.End() == old(stream.End())
    ensures ok <==> count <= old(stream.bytesLeft)
    ensures ok ==> stream.Left() == old(stream.Left())[count..]
    ensures ok && dest != null ==> dest[..count] == old(stream.Left())[..count]
    ensures !ok ==> stream.Left() == old(stream.Left())
  {
    if count == 0 {
      return true;
    }
    if stream.bytesLeft < count {
      return false; // "end-of-stream"
    }
    stream.BufRead(dest, count);
    stream.bytesLeft := stream.bytesLeft - count;
    return true;
  }

  /** pb_readbyte */
  method PbReadByte(stream: IStream) returns (ok: bool, byte: Byte)
    requires stream.Valid()
    modifies stream
    ensures stream.Valid() && stream.End() == old(stream.End())
    ensures ok <==> old(stream.Left()) != []
    ensures ok ==> byte == old(stream.Left())[0] && stream.Left() == old(stream.Left())[1..]
    ensures !ok ==> stream.Left() == []
  {
    if stream.bytesLeft == 0 {
      return false, 0; // "end-of-stream"
    }
    byte := stream.buf[stream.state];
    stream.state := stream.state + 1;
    stream.bytesLeft := stream.bytesLeft - 1;
    return true, byte;
  }

  // ---------------------------------------------------------------------------------------------
  // Integers, keys and substreams
  // ---------------------------------------------------------------------------------------------

  /** pb_decode_varint32_eof */
  method PbDecodeVarint32Eof(stream: IStream) returns (ok: bool, dest: nat, eof: bool)
    requires stream.Valid()
    modifies stream
    ensures stream.Valid() && stream.End() == old(stream.End())
    ensures eof <==> old(stream.Left()) == []
    ensures ok <==> ReadVarint32(old(stream.Left())).Ok?
    ensures ok ==> ReadVarint32(old(stream.Left())) == Ok(dest, stream.Left())
  {
    ghost var bs := stream.Left();
    var byte;
    ok, byte := PbReadByte(stream);
    if !ok {
      return false, 0, stream.bytesLeft == 0;
    }
    if byte < 0x80 {
      return true, byte, false;
    }
    var bitpos: nat, result: nat := 7, byte % 128;
    while true
      invariant stream.Valid() && stream.End() == old(stream.End())
      invariant bitpos < 256 && result < TWO_TO_32
      invariant ReadVarint32(bs) == MoreVarint32(stream.Left(), bitpos, result)
      decreases stream.bytesLeft
    {
      ok, byte := PbReadByte(stream);
      if !ok {
        return false, 0, false;
      }
      if bitpos >= 32 {
        // Past bit 32: padding, or the sign of a negative number.
        var signExtension := if bitpos < 63 then 0xFF else 0x01;
        if byte % 128 != 0x00 && (result / TWO_TO_31 == 0 || byte != signExtension) {
          return false, 0, false; // "varint overflow"
        }
      } else {
        OrBounded32(result, ShiftLeft32(byte % 128, bitpos));
        result := BitOr(result, ShiftLeft32(byte % 128, bitpos));
      }
      bitpos := (bitpos + 7) % 256;
      if byte < 0x80 {
        break;
      }
    }
    if bitpos == 35 && byte / 16 % 8 != 0 {
      // This byte's upper three bits do not fit.
      return false, 0, false; // "varint overflow"
    }
    return true, result, false;
  }

  /** pb_decode_varint32 */
  method PbDecodeVarint32(stream: IStream) returns (ok: bool, dest: nat)
    requires stream.Valid()
    modifies stream
    ensures stream.Valid() && stream.End() == old(stream.End())
    ensures ok <==> ReadVarint32(old(stream.Left())).Ok?
    ensures ok ==> ReadVarint32(old(stream.Left())) == Ok(dest, stream.Left())
  {
    hide ReadVarint32;
    var eof;
    ok, dest, eof := PbDecodeVarint32Eof(stream);
  }

  lemma {:induction false} Base128Append(bs: seq<Byte>, b: Byte)
    ensures Base128(bs + [b]) == Base128(bs) + b % 128 * Pow2(7 * |bs|)
  {
    if bs == [] {
      assert (bs + [b])[1..] == [];
    } else {
      Base128Append(bs[1..], b);
      assert (bs + [b])[1..] == bs[1..] + [b];
      var p := Pow2(7 * |bs[1..]|);
      assert Pow2(7 * |bs|) == 128 * p by {
        Pow2Add(7, 7 * |bs[1..]|);
        assert Pow2(7) == 128 && 7 * |bs| == 7 + 7 * |bs[1..]|;
      }
      assert 128 * (b % 128 * p) == b % 128 * (128 * p);
    }
  }

  lemma {:induction false} AccumulateLow64(acc: nat, byte: Byte, k: nat)
    requires acc < Pow2(k) && acc + byte % 128 * Pow2(k) < TWO_TO_64
    ensures BitOr(acc, ShiftLeft64(byte % 128, k)) == acc + byte % 128 * Pow2(k)
  {
    hide Pow2, BitOr;
    OrIsSum(acc, byte % 128, k);
    assert 0 <= byte % 128 * Pow2(k);
  }

  /** Of the tenth byte only the lowest bit is left. */
  lemma {:induction false} AccumulateTop64(acc: nat, byte: Byte)
    requires acc < TWO_TO_63
    ensures BitOr(acc, ShiftLeft64(byte % 128, 63)) == (acc + byte % 128 * TWO_TO_63) % TWO_TO_64
  {
    hide Pow2, BitOr;
    PowerValues();
    var c := byte % 128;
    OrIsSum(acc, c % 2, 63);
    assert c * TWO_TO_63 == c % 2 * TWO_TO_63 + TWO_TO_64 * (c / 2);
    assert ShiftLeft64(c, 63) == c % 2 * Pow2(63);
  }

  /** One more byte of a 64-bit varint. */
  lemma {:induction false} Accumulate64(acc: nat, byte: Byte, i: nat)
    requires i <= 9 && acc < Pow2(7 * i)
    ensures BitOr(acc, ShiftLeft64(byte % 128, 7 * i)) == (acc + byte % 128 * Pow2(7 * i)) % TWO_TO_64
    ensures acc + byte % 128 * Pow2(7 * i) < Pow2(7 * (i + 1))
  {
    hide Pow2, BitOr, ShiftLeft64;
    AccumulateBound(byte % 128, i, acc);
    PowerValues();
    if i < 9 {
      PowerGrows(7 * (i + 1), 63);
      AccumulateLow64(acc, byte, 7 * i);
      assert 0 <= acc + byte % 128 * Pow2(7 * i) < TWO_TO_64;
    } else {
      AccumulateTop64(acc, byte);
    }
  }

  lemma {:induction false} PowerGrows(a: nat, b: nat)
    requires a <= b
    ensures Pow2(a) <= Pow2(b)
    decreases b
  {
    if a < b {
      PowerGrows(a, b - 1);
    }
  }

  /** pb_decode_varint */
  method PbDecodeVarint(stream: IStream) returns (ok: bool, dest: nat)
    requires stream.Valid()
    modifies stream
    ensures stream.Valid() && stream.End() == old(stream.End())
    ensures ok <==> ReadVarint64(old(stream.Left())).Ok?
    ensures ok ==> ReadVarint64(old(stream.Left())) == Ok(dest, stream.Left())
  {
    hide Pow2, BitOr, ShiftLeft64, Base128, VarintLength;
    ghost var bs := stream.Left();
    ghost var i := 0;
    var bitpos: nat, result: nat := 0, 0;
    EmptyBase128();
    OneByPower();
    assert bs[..0] == [] && bs[0..] == bs;
    while true
      invariant stream.Valid() && stream.End() == old(stream.End())
      invariant i <= 10 && i <= |bs| && stream.Left() == bs[i..] && bitpos == 7 * i
      invariant i < 10 ==> result == Base128(bs[..i]) && result < Pow2(7 * i)
      invariant VarintLength(bs) == (if VarintLength(bs[i..]) == 0 then 0 else i + VarintLength(bs[i..]))
      decreases stream.bytesLeft
    {
      LongVarint(bs[i..]);
      if bitpos >= 64 {
        return false, 0; // "varint overflow"
      }
      var byte;
      ok, byte := PbReadByte(stream);
      if !ok {
        return false, 0;
      }
      ValueTurn(bs, i, result);
      LengthTurn(bs, i);
      if i < 9 {
        NoWrap64(Base128(bs[..i + 1]), 7 * (i + 1));
      }
      result := BitOr(result, ShiftLeft64(byte % 128, bitpos));
      bitpos := bitpos + 7;
      i := i + 1;
      if byte < 0x80 {
        break;
      }
    }
    return true, result;
  }

  /** Nothing left, or a byte and more. */
  lemma {:induction false} LongVarint(bs: seq<Byte>)
    ensures bs == [] ==> VarintLength(bs) == 0
    ensures VarintLength(bs) <= |bs|
  {
  }

  lemma {:induction false} NoWrap64(x: nat, k: nat)
    requires k <= 64 && x < Pow2(k)
    ensures x % TWO_TO_64 == x
  {
    PowerGrows(k, 64);
    PowerValues();
    hide Pow2;
  }

  /** One byte more of the value of a varint. */
  lemma {:induction false} ValueTurn(bs: seq<Byte>, i: nat, result: nat)
    requires i < 10 && i < |bs| && result == Base128(bs[..i]) && result < Pow2(7 * i)
    ensures BitOr(result, ShiftLeft64(bs[i] % 128, 7 * i)) == Base128(bs[..i + 1]) % TWO_TO_64
    ensures Base128(bs[..i + 1]) < Pow2(7 * (i + 1))
  {
    hide Pow2, BitOr, ShiftLeft64, Base128;
    assert bs[..i + 1] == bs[..i] + [bs[i]];
    Base128Append(bs[..i], bs[i]);
    Accumulate64(result, bs[i], i);
  }

  /** And of its length. */
  lemma {:induction false} LengthTurn(bs: seq<Byte>, i: nat)
    requires i < |bs|
    ensures bs[i] < 0x80 ==> VarintLength(bs[i..]) == 1
    ensures bs[i] >= 0x80 ==>
              VarintLength(bs[i..]) == if VarintLength(bs[i + 1..]) == 0 then 0 else 1 + VarintLength(bs[i + 1..])
  {
    assert bs[i..][0] == bs[i] && bs[i..][1..] == bs[i + 1..];
  }

  lemma {:induction false} OneByPower()
    ensures Pow2(7 * 0) == 1
  {
  }

  /** pb_skip_varint */
  method PbSkipVarint(stream: IStream) returns (ok: bool)
    requires stream.Valid()
    modifies stream
    ensures stream.Valid() && stream.End() == old(stream.End())
    ensures ok <==> SkipField(0, old(stream.Left())).Ok?
    ensures ok ==> SkipField(0, old(stream.Left())) == Ok((), stream.Left())
  {
    ghost var bs := stream.Left();
    ghost var i := 0;
    var byte := new Byte[1];
    while true
      invariant stream.Valid() && stream.End() == old(stream.End()) && fresh(byte)
      invariant i <= |bs| && stream.Left() == bs[i..]
      invariant VarintLength(bs) == (if VarintLength(bs[i..]) == 0 then 0 else i + VarintLength(bs[i..]))
      decreases stream.bytesLeft
    {
      ok := PbRead(stream, byte, 1);
      if !ok {
        return false;
      }
      assert byte[0] == byte[..1][0] == bs[i];
      assert bs[i..][1..] == bs[i + 1..];
      i := i + 1;
      if byte[0] < 0x80 {
        return true;
      }
    }
  }

  /** pb_skip_string */
  method PbSkipString(stream: IStream) returns (ok: bool)
    requires stream.Valid()
    modifies stream
    ensures stream.Valid() && stream.End() == old(stream.End())
    ensures ok <==> SkipField(2, old(stream.Left())).Ok?
    ensures ok ==> SkipField(2, old(stream.Left())) == Ok((), stream.Left())
  {
    hide ReadVarint32;
    var length;
    ok, length := PbDecodeVarint32(stream);
    if !ok {
      return false;
    }
    ok := PbRead(stream, null, length);
  }

  /** pb_skip_field */
  method PbSkipField(stream: IStream, wireType: nat) returns (ok: bool)
    requires stream.Valid()
    modifies stream
    ensures stream.Valid() && stream.End() == old(stream.End())
    ensures ok <==> SkipField(wireType, old(stream.Left())).Ok?
    ensures ok ==> SkipField(wireType, old(stream.Left())) == Ok((), stream.Left())
  {
    hide ReadDelimited;
    match wireType
    case 0 => ok := PbSkipVarint(stream);
    case 1 => ok := PbRead(stream, null, 8);
    case 2 => ok := PbSkipString(stream);
    case 5 => ok := PbRead(stream, null, 4);
    case _ => return false; // "invalid wire_type"
  }

  /** pb_decode_tag */
  method PbDecodeTag(stream: IStream) returns (ok: bool, wireType: nat, tag: nat, eof: bool)
    requires stream.Valid()
    modifies stream
    ensures stream.Valid() && stream.End() == old(stream.End())
    ensures old(stream.Left()) != [] ==>
              match DecodeTag(old(stream.Left()))
              case BadTag => !ok && !eof
              case Zero(rest) => !ok && eof && stream.Left() == rest
              case Tag(w, t, rest) => ok && wireType == w && tag == t && stream.Left() == rest
  {
    hide ReadVarint32;
    var temp;
    ok, temp, eof := PbDecodeVarint32Eof(stream);
    if !ok {
      return false, 0, 0, eof;
    }
    if temp == 0 {
      return false, 0, 0, true; // A zero key ends the message.
    }
    return true, temp % 8, temp / 8, eof;
  }

  /** pb_make_string_substream: the child gets its share of the bytes, the parent keeps the rest. */
  method PbMakeStringSubstream(stream: IStream) returns (ok: bool, substream: IStream)
    requires stream.Valid()
    modifies stream
    ensures stream.Valid() && stream.End() <= old(stream.End())
    ensures fresh(substream) && substream.Valid() && substream.buf == stream.buf
    ensures ok <==> ReadDelimited(old(stream.Left())).Ok?
    ensures ok ==> ReadDelimited(old(stream.Left())).value == substream.Left()
    ensures ok ==> substream.state == stream.state && substream.End() + stream.bytesLeft == old(stream.End())
    ensures ok ==> |ReadDelimited(old(stream.Left())).rest| == stream.bytesLeft
    ensures ok ==> ReadDelimited(old(stream.Left())).rest == stream.buf[substream.End()..old(stream.End())]
  {
    hide ReadVarint32;
    var size;
    ok, size := PbDecodeVarint32(stream);
    substream := new IStream.Copy(stream);
    if !ok {
      return;
    }
    if substream.bytesLeft < size {
      ok := false; // "parent stream too short"
      return;
    }
    substream.bytesLeft := size;
    stream.bytesLeft := stream.bytesLeft - size;
  }

  /** pb_close_string_substream: whatever the child left unread is skipped. */
  method PbCloseStringSubstream(stream: IStream, substream: IStream) returns (ok: bool)
    requires stream.Valid() && substream.Valid() && substream != stream && substream.buf == stream.buf
    requires substream.End() + stream.bytesLeft <= |stream.buf|
    modifies stream, substream
    ensures ok && stream.Valid()
    ensures stream.state == old(substream.End()) && stream.bytesLeft == old(stream.bytesLeft)
  {
    if substream.bytesLeft != 0 {
      ok := PbRead(substream, null, substream.bytesLeft);
      if !ok {
        return false;
      }
    }
    stream.state := substream.state;
    return true;
  }

  // ---------------------------------------------------------------------------------------------
  // Values
  // ---------------------------------------------------------------------------------------------

  /** `(uint32_t)b0 << 0 | (uint32_t)b1 << 8 | (uint32_t)b2 << 16 | (uint32_t)b3 << 24` of four bytes */
  function Word(b0: nat, b1: nat, b2: nat, b3: nat): nat {
    b0 + 0x100 * b1 + 0x1_0000 * b2 + 0x100_0000 * b3
  }

  lemma {:induction false} FourBytes(bs: seq<Byte>)
    requires |bs| == 4
    ensures FromLittleEndian(bs) == Word(bs[0], bs[1], bs[2], bs[3])
  {
    assert bs[1..][1..] == bs[2..] && bs[2..][1..] == bs[3..] && bs[3..][1..] == [];
    assert FromLittleEndian(bs[3..]) == bs[3];
    assert FromLittleEndian(bs[2..]) == Word(bs[2], bs[3], 0, 0);
  }

  /** pb_decode_fixed32 */
  method PbDecodeFixed32(stream: IStream) returns (ok: bool, dest: nat)
    requires stream.Valid()
    modifies stream
    ensures stream.Valid() && stream.End() == old(stream.End())
    ensures ok <==> ReadFixed(old(stream.Left()), 4).Ok?
    ensures ok ==> ReadFixed(old(stream.Left()), 4) == Ok(dest, stream.Left())
  {
    hide FromLittleEndian;
    var bytes := new Byte[4];
    ok := PbRead(stream, bytes, 4);
    if !ok {
      return false, 0;
    }
    assert bytes[..4] == [bytes[0], bytes[1], bytes[2], bytes[3]];
    FourBytes(bytes[..4]);
    dest := Word(bytes[0], bytes[1], bytes[2], bytes[3]);
  }

  /** pb_decode_fixed64 */
  method PbDecodeFixed64(stream: IStream) returns (ok: bool, dest: nat)
    requires stream.Valid()
    modifies stream
    ensures stream.Valid() && stream.End() == old(stream.End())
    ensures ok <==> ReadFixed(old(stream.Left()), 8).Ok?
    ensures ok ==> ReadFixed(old(stream.Left()), 8) == Ok(dest, stream.Left())
  {
    hide FromLittleEndian;
    var bytes := new Byte[8];
    ok := PbRead(stream, bytes, 8);
    if !ok {
      return false, 0;
    }
    EightBytes(bytes[..8]);
    FourBytes(bytes[..8][..4]);
    FourBytes(bytes[..8][4..]);
    dest := Word(bytes[0], bytes[1], bytes[2], bytes[3])
          + TWO_TO_32 * Word(bytes[4], bytes[5], bytes[6], bytes[7]);
  }

  lemma {:induction false} EightBytes(bs: seq<Byte>)
    requires |bs| == 8
    ensures FromLittleEndian(bs) == FromLittleEndian(bs[..4]) + 0x1_0000_0000 * FromLittleEndian(bs[4..])
  {
    LittleEndianSplit(bs, 4);
    assert Pow2(8 * 4) == TWO_TO_32 by { PowerValues(); }
  }

  lemma {:induction false} LittleEndianSplit(bs: seq<Byte>, n: nat)
    requires n <= |bs|
    ensures FromLittleEndian(bs) == FromLittleEndian(bs[..n]) + Pow2(8 * n) * FromLittleEndian(bs[n..])
  {
    if n == 0 {
      assert bs[0..] == bs;
    } else {
      hide Pow2;
      LittleEndianSplit(bs[1..], n - 1);
      assert bs[..n][1..] == bs[1..][..n - 1] && bs[1..][n - 1..] == bs[n..];
      assert 8 * n == 8 + 8 * (n - 1);
      Pow2Add(8, 8 * (n - 1));
      EightBits();
      Distribute(FromLittleEndian(bs[1..][..n - 1]), Pow2(8 * (n - 1)), FromLittleEndian(bs[n..]));
    }
  }

  lemma {:induction false} EightBits()
    ensures Pow2(8) == 256
  {
  }

  lemma {:induction false} Distribute(a: nat, p: nat, h: nat)
    ensures 256 * (a + p * h) == 256 * a + (256 * p) * h
  {
  }

  /** pb_dec_bool, pb_dec_varint, pb_dec_uvarint, pb_dec_svarint, pb_dec_fixed32 and pb_dec_fixed64: the number is
      converted to the type of the field, and rejected if that changes it. */
  method PbDecNumber(stream: IStream, f: Field) returns (ok: bool, n: int)
    requires stream.Valid() && f.ltype.Packable()
    modifies stream
    ensures stream.Valid() && stream.End() == old(stream.End())
    ensures ok <==> DecodeNumber(f, old(stream.Left())).Ok?
    ensures ok ==> DecodeNumber(f, old(stream.Left())) == Ok(n, stream.Left())
  {
    hide ReadVarint32, ReadVarint64, ReadFixed;
    var v: nat;
    match f.ltype
    case Bool =>
      ok, v := PbDecodeVarint32(stream);
      n := if v != 0 then 1 else 0;
    case Varint =>
      ok, v := PbDecodeVarint(stream);
      if !ok || !IntegerSize(f.dataSize) {
        return false, 0; // "invalid data_size"
      }
      // Up to 32 bits, the sign is that of the low half.
      var svalue := if f.dataSize == 8 then ToInt64(v) else ToInt32(v);
      n := ToSigned(svalue, f.dataSize);
      ok := n == svalue; // "integer too large"
    case UVarint =>
      ok, v := PbDecodeVarint(stream);
      if !ok || !IntegerSize(f.dataSize) {
        return false, 0; // "invalid data_size"
      }
      n := v % Modulus(f.dataSize);
      ok := n == v; // "integer too large"
    case SVarint =>
      ok, v := PbDecodeVarint(stream);
      if !ok || !IntegerSize(f.dataSize) {
        return false, 0; // "invalid data_size"
      }
      var svalue := if v % 2 == 1 then ToInt64(Not64(v / 2)) else ToInt64(v / 2);
      n := ToSigned(svalue, f.dataSize);
      ok := n == svalue; // "integer too large"
    case Fixed32 => ok, n := PbDecodeFixed32(stream);
    case Fixed64 => ok, n := PbDecodeFixed64(stream);
  }

  /** pb_dec_bytes, pb_dec_string and pb_dec_fixed_length_bytes */
  method PbDecBlob(stream: IStream, f: Field) returns (ok: bool, data: seq<Byte>)
    requires stream.Valid() && (f.ltype.Bytes? || f.ltype.String? || f.ltype.FixedLengthBytes?)
    modifies stream
    ensures stream.Valid() && stream.End() == old(stream.End())
    ensures ok <==> DecodeBlob(f, old(stream.Left())).Ok?
    ensures ok ==> DecodeBlob(f, old(stream.Left())) == Ok(data, stream.Left())
  {
    hide ReadVarint32;
    data := [];
    var size;
    ok, size := PbDecodeVarint32(stream);
    if !ok {
      return;
    }
    match f.ltype {
      case Bytes(header) =>
        if size + header > f.dataSize {
          return false, []; // "bytes overflow"
        }
      case String =>
        if size + 1 > f.dataSize {
          return false, []; // "string overflow"
        }
      case FixedLengthBytes =>
        if size == 0 {
          // Nothing stands for all zeros.
          return true, seq(f.dataSize, _ => 0);
        }
        if size != f.dataSize {
          return false, []; // "incorrect fixed length bytes size"
        }
    }
    var dest := new Byte[size];
    ok := PbRead(stream, dest, size);
    data := dest[..];
    assert dest[..size] == dest[..];
  }

  // ---------------------------------------------------------------------------------------------
  // Default values
  // ---------------------------------------------------------------------------------------------

  /** A struct in memory. */
  class Message {
    var slots: seq<Slot>

    constructor (slots: seq<Slot>)
      ensures this.slots == slots
    {
      this.slots := slots;
    }
  }

  /** The value pb_field_set_to_default gives a field of its own. */
  method FieldDefault(f: Field) returns (v: Value)
    requires NavigableField(f)
    ensures v == InitValue(f)
    decreases f, 0
  {
    if f.ltype.Submessage? {
      var sub := new Message(seq(SlotsBefore(f.sub, |f.sub|), _ => Plain(Num(0))));
      PbMessageSetToDefaults(f.sub, sub);
      return Sub(sub.slots);
    } else if f.preset.Some? {
      return f.preset.value;
    } else {
      return ZeroValue(f);
    }
  }

  /** pb_field_set_to_default */
  method PbFieldSetToDefault(iter: FieldIter, dest: Message)
    requires iter.Valid() && iter.pos < |iter.fields| && iter.slot < |dest.slots|
    modifies dest
    ensures dest.slots == old(dest.slots)[iter.slot := InitSlot(iter.fields[iter.pos])]
    decreases iter.fields[iter.pos], 1
  {
    hide InitValue;
    var f := iter.fields[iter.pos];
    match f.htype
    case Required =>
      var v := FieldDefault(f);
      dest.slots := dest.slots[iter.slot := Plain(v)];
    case Optional =>
      // Absent, and its value a default all the same.
      var v := FieldDefault(f);
      dest.slots := dest.slots[iter.slot := if f.Sized() then Tracked(false, v) else Plain(v)];
    case Repeated =>
      // The contents of a fixed-count array are taken to be defaults.
      if f.Sized() {
        dest.slots := dest.slots[iter.slot := Counted([])];
      } else {
        var v := FieldDefault(f);
        dest.slots := dest.slots[iter.slot := FixedCount(seq(f.arraySize, _ => v))];
      }
    case OneOf =>
      dest.slots := dest.slots[iter.slot := Union(0, Num(0))];
  }

  /** pb_message_set_to_defaults */
  method PbMessageSetToDefaults(fields: seq<Field>, dest: Message)
    requires Navigable(fields) && |dest.slots| == SlotsBefore(fields, |fields|)
    modifies dest
    ensures dest.slots == InitMessage(fields)
    decreases fields, 0
  {
    hide InitSlot, InitValue, NavigableField, Navigable, ByteOffset, RequiredBefore;
    var iter := new FieldIter(fields);
    var more := iter.Begin();
    if !more {
      return;
    }
    while more
      invariant iter.Valid() && iter.fields == fields && fresh(iter)
      invariant more ==> iter.pos < |fields|
      invariant |dest.slots| == SlotsBefore(fields, |fields|)
      invariant more ==> Initialised(fields, dest.slots, iter.pos)
      invariant !more ==> Initialised(fields, dest.slots, |fields|)
      decreases more, |fields| - iter.pos
    {
      ghost var i, before := iter.pos, dest.slots;
      SlotInRange(fields, i, |fields|);
      PbFieldSetToDefault(iter, dest);
      InitStep(fields, before, i);
      more := iter.Next();
    }
    assert dest.slots[..|dest.slots|] == dest.slots;
  }

  /** The slots of the first n fields hold their defaults. */
  predicate Initialised(fields: seq<Field>, slots: seq<Slot>, n: nat)
    requires n <= |fields|
  {
    SlotsBefore(fields, n) <= |slots| && slots[..SlotsBefore(fields, n)] == InitSlots(fields, n)
  }

  /** Writing the default of field i extends the initialised part by it; a further union member rewrites it. */
  lemma {:induction false} InitStep(fields: seq<Field>, slots: seq<Slot>, i: nat)
    requires i < |fields| && SlotOf(fields, i) < |slots|
    requires Initialised(fields, slots, i)
    ensures Initialised(fields, slots[SlotOf(fields, i) := InitSlot(fields[i])], i + 1)
  {
    hide InitValue;
    var s := SlotOf(fields, i);
    var slots' := slots[s := InitSlot(fields[i])];
    if Continues(fields, i) {
      assert s == SlotOf(fields, i - 1);
      InitSlotsAt(fields, i, i - 1);
      assert InitSlot(fields[i]) == InitSlot(fields[i - 1]);
      assert slots'[..s + 1] == slots[..s + 1];
    } else {
      assert slots'[..s + 1] == slots[..s] + [InitSlot(fields[i])];
    }
  }

  // ---------------------------------------------------------------------------------------------
  // One field
  // ---------------------------------------------------------------------------------------------

  /** pb_dec_submessage: new array entries start from their defaults, others are merged into what is there. However
      much the inner decoder reads, the parent ends up just past the payload. */
  method PbDecSubmessage(stream: IStream, f: Field, prior: Value) returns (ok: bool, v: Value)
    requires stream.Valid() && f.ltype.Submessage? && WellFormedField(f)
    requires !f.htype.Repeated? ==> ValueHasShape(f, prior)
    modifies stream
    ensures stream.Valid() && stream.End() <= old(stream.End()) && (ok ==> stream.End() == old(stream.End()))
    ensures ok <==> DecodeValue(f, prior, old(stream.Left())).Ok?
    ensures ok ==> DecodeValue(f, prior, old(stream.Left())) == Ok(v, stream.Left())
    decreases stream.bytesLeft, 0
  {
    hide ReadDelimited, DecodeNoinit, WellFormed, HasShape, InitMessage;
    ghost var bs := stream.Left();
    v := Num(0);
    var substream;
    ok, substream := PbMakeStringSubstream(stream);
    if !ok {
      return;
    }
    ghost var payload := substream.Left();
    var dest;
    if f.htype.Repeated? {
      dest := new Message(seq(SlotsBefore(f.sub, |f.sub|), _ => Plain(Num(0))));
      ok := PbDecode(substream, f.sub, dest);
    } else {
      dest := new Message(prior.slots);
      ok := PbDecodeNoinit(substream, f.sub, dest);
    }
    var _ := PbCloseStringSubstream(stream, substream);
    v := Sub(dest.slots);
  }

  /** The field decoder PB_DECODERS has for the type. */
  method DecodeFieldValue(stream: IStream, f: Field, prior: Value) returns (ok: bool, v: Value)
    requires stream.Valid() && WellFormedField(f)
    requires f.ltype.Submessage? && !f.htype.Repeated? ==> ValueHasShape(f, prior)
    modifies stream
    ensures stream.Valid() && stream.End() <= old(stream.End()) && (ok ==> stream.End() == old(stream.End()))
    ensures ok <==> DecodeValue(f, prior, old(stream.Left())).Ok?
    ensures ok ==> DecodeValue(f, prior, old(stream.Left())) == Ok(v, stream.Left())
    decreases stream.bytesLeft, 1
  {
    hide DecodeNumber, DecodeBlob, DecodeMessage, DecodeNoinit, WellFormedField, ValueHasShape, ReadDelimited;
    if f.ltype.Submessage? {
      ok, v := PbDecSubmessage(stream, f, prior);
    } else if f.ltype.Packable() {
      var n;
      ok, n := PbDecNumber(stream, f);
      v := Num(n);
    } else {
      var data;
      ok, data := PbDecBlob(stream, f);
      v := Blob(data);
    }
  }

  /** Packed items read so far, in front of what the rest of the payload gives. */
  function Prepend(done: seq<Value>, more: Option<seq<Value>>): Option<seq<Value>> {
    if more.Some? then Some(done + more.value) else None
  }

  lemma {:induction false} PackedStep(f: Field, room: nat, payload: seq<Byte>, done: seq<Value>)
    requires payload != [] && room > 0 && DecodeNumber(f, payload).Ok?
    ensures var r := DecodeNumber(f, payload);
            Prepend(done, DecodePacked(f, room, payload))
              == Prepend(done + [Num(r.value)], DecodePacked(f, room - 1, r.rest))
  {
    hide DecodeNumber;
    var more := DecodePacked(f, room - 1, DecodeNumber(f, payload).rest);
    if more.Some? {
      var v := Num(DecodeNumber(f, payload).value);
      assert done + ([v] + more.value) == done + [v] + more.value;
    }
  }

  lemma {:induction false} StoreStep(s: Slot, have: nat, done: seq<Value>, v: Value)
    requires s.Counted? || (s.FixedCount? && have + |done| < |s.items|)
    ensures var s1 := Store(s, have, done).0;
            Store(s, have, done + [v]).0 ==
              (if s.Counted? then Counted(s1.items + [v]) else FixedCount(s1.items[have + |done| := v]))
  {
    if s.Counted? {
      assert s.items + (done + [v]) == s.items + done + [v];
    }
  }

  /** The loop over the items of a packed array: they go into the struct one by one, up to the size of the array. */
  method FillArray(substream: IStream, iter: FieldIter, dest: Message, count: nat) returns (status: bool, have: nat)
    requires substream.Valid() && iter.Valid() && iter.pos < |iter.fields| && iter.slot < |dest.slots|
    requires iter.fields[iter.pos].ltype.Packable()
    requires var s := dest.slots[iter.slot];
             s.Counted? || (s.FixedCount? && |s.items| == iter.fields[iter.pos].arraySize)
    modifies substream, dest
    ensures substream.Valid() && substream.End() == old(substream.End())
    ensures var s := old(dest.slots)[iter.slot];
            var have0 := if s.Counted? then |s.items| else count;
            var items := DecodePacked(iter.fields[iter.pos], Room(iter.fields[iter.pos], have0), old(substream.Left()));
            if items.Some? then
              && status && substream.bytesLeft == 0 && have == have0 + |items.value|
              && dest.slots == old(dest.slots)[iter.slot := Store(s, have0, items.value).0]
            else !status || substream.bytesLeft != 0
  {
    hide DecodeNumber, DecodePacked;
    var f := iter.fields[iter.pos];
    var s := dest.slots[iter.slot];
    have := if s.Counted? then |s.items| else count;
    ghost var have0, before, done := have, dest.slots, [];
    ghost var goal := DecodePacked(f, Room(f, have0), substream.Left());
    assert goal == Prepend(done, goal) by { if goal.Some? { assert [] + goal.value == goal.value; } }
    StoreNothing(s, have0);
    assert dest.slots == before[iter.slot := s];
    while substream.bytesLeft > 0 && have < f.arraySize
      invariant substream.Valid() && substream.End() == old(substream.End())
      invariant have == have0 + |done| && (|done| > 0 ==> have <= f.arraySize)
      invariant dest.slots == before[iter.slot := Store(s, have0, done).0]
      invariant goal == Prepend(done, DecodePacked(f, Room(f, have), substream.Left()))
      decreases substream.bytesLeft
    {
      ghost var left := substream.Left();
      var ok, n := PbDecNumber(substream, f);
      if !ok {
        PackedFails(f, Room(f, have), left);
        return false, have;
      }
      PackedStep(f, Room(f, have), left, done);
      StoreStep(s, have0, done, Num(n));
      var stored := dest.slots[iter.slot];
      dest.slots := dest.slots[iter.slot :=
        if s.Counted? then Counted(stored.items + [Num(n)]) else FixedCount(stored.items[have := Num(n)])];
      done := done + [Num(n)];
      have := have + 1;
    }
    PackedEnds(f, Room(f, have), substream.Left());
    assert done + [] == done;
    return true, have;
  }

  /** decode_static_field, a packed array. */
  method DecodePackedField(stream: IStream, iter: FieldIter, dest: Message, count: nat)
    returns (ok: bool, newCount: nat)
    requires stream.Valid() && iter.Valid() && iter.pos < |iter.fields| && iter.slot < |dest.slots|
    requires iter.fields[iter.pos].ltype.Packable()
    requires var s := dest.slots[iter.slot];
             s.Counted? || (s.FixedCount? && |s.items| == iter.fields[iter.pos].arraySize)
    modifies stream, dest
    ensures stream.Valid() && stream.End() <= old(stream.End()) && (ok ==> stream.End() == old(stream.End()))
    ensures var r := DecodeRepeated(iter.fields[iter.pos], 2, old(dest.slots)[iter.slot], count, old(stream.Left()));
            && (ok <==> r.Ok?)
            && (ok ==> dest.slots == old(dest.slots)[iter.slot := r.value.0] && newCount == r.value.1)
            && (ok ==> stream.Left() == r.rest)
  {
    hide ReadDelimited, DecodeNumber, DecodePacked;
    newCount := count;
    var counted := dest.slots[iter.slot].Counted?;
    var substream;
    ok, substream := PbMakeStringSubstream(stream);
    if !ok {
      return;
    }
    var status, have := FillArray(substream, iter, dest, count);
    if substream.bytesLeft != 0 {
      return false, count; // "array overflow"
    }
    var _ := PbCloseStringSubstream(stream, substream);
    newCount := if counted then 0 else have;
    return status, newCount;
  }

  lemma {:induction false} StoreNothing(s: Slot, have: nat)
    requires s.Counted? || s.FixedCount?
    ensures Store(s, have, []).0 == s
  {
    if s.Counted? {
      assert s.items + [] == s.items;
    } else if have <= |s.items| {
      assert s.items[..have] + [] + s.items[have..] == s.items;
    }
  }

  lemma {:induction false} PackedFails(f: Field, room: nat, payload: seq<Byte>)
    requires payload != [] && room > 0 && DecodeNumber(f, payload).Fail?
    ensures DecodePacked(f, room, payload).None?
  {
  }

  lemma {:induction false} PackedEnds(f: Field, room: nat, payload: seq<Byte>)
    ensures payload == [] ==> DecodePacked(f, room, payload) == Some([])
    ensures payload != [] && room == 0 ==> DecodePacked(f, room, payload).None?
  {
  }

  /** decode_static_field, a repeated field: one packed array or one more item. */
  method DecodeRepeatedField(stream: IStream, wireType: nat, iter: FieldIter, dest: Message, count: nat)
    returns (ok: bool, newCount: nat)
    requires stream.Valid() && iter.Valid() && iter.pos < |iter.fields| && WellFormedField(iter.fields[iter.pos])
    requires iter.slot < |dest.slots| && iter.fields[iter.pos].htype.Repeated?
    requires var s := dest.slots[iter.slot];
             s.Counted? || (s.FixedCount? && |s.items| == iter.fields[iter.pos].arraySize)
    modifies stream, dest
    ensures stream.Valid() && stream.End() <= old(stream.End()) && (ok ==> stream.End() == old(stream.End()))
    ensures var r := DecodeRepeated(iter.fields[iter.pos], wireType, old(dest.slots)[iter.slot], count, old(stream.Left()));
            && (ok <==> r.Ok?)
            && (ok ==> dest.slots == old(dest.slots)[iter.slot := r.value.0] && newCount == r.value.1)
            && (ok ==> stream.Left() == r.rest)
    decreases stream.bytesLeft, 2
  {
    hide DecodeValue, WellFormedField, ReadDelimited, DecodePacked;
    var f := iter.fields[iter.pos];
    var s := dest.slots[iter.slot];
    if wireType == 2 && f.ltype.Packable() {
      ok, newCount := DecodePackedField(stream, iter, dest, count);
      return;
    }
    var have := if s.Counted? then |s.items| else count;
    newCount := count;
    if have >= f.arraySize {
      return false, count; // "array overflow"
    }
    var v;
    ok, v := DecodeFieldValue(stream, f, Num(0));
    StoreNothing(s, have);
    StoreStep(s, have, [], v);
    assert [] + [v] == [v];
    dest.slots := dest.slots[iter.slot := if s.Counted? then Counted(s.items + [v]) else FixedCount(s.items[have := v])];
    newCount := if s.Counted? then 0 else have + 1;
  }

  /** decode_static_field. For a fixed-count array, count is the number of items it got so far. */
  method DecodeStaticField(stream: IStream, wireType: nat, iter: FieldIter, dest: Message, count: nat)
    returns (ok: bool, newCount: nat)
    requires stream.Valid() && iter.Valid() && iter.pos < |iter.fields| && WellFormedField(iter.fields[iter.pos])
    requires iter.slot < |dest.slots| && SlotHasShape(iter.fields[iter.pos], dest.slots[iter.slot])
    modifies stream, dest
    ensures stream.Valid() && stream.End() <= old(stream.End()) && (ok ==> stream.End() == old(stream.End()))
    ensures var r := DecodeSlot(iter.fields[iter.pos], wireType, old(dest.slots)[iter.slot], count, old(stream.Left()));
            && (ok <==> r.Ok?)
            && (ok ==> dest.slots == old(dest.slots)[iter.slot := r.value.0] && newCount == r.value.1)
            && (ok ==> stream.Left() == r.rest)
    decreases stream.bytesLeft, 3
  {
    hide DecodeValue, DecodeRepeated, WellFormedField, ValueHasShape, InitMessage;
    var f := iter.fields[iter.pos];
    var slot := dest.slots[iter.slot];
    newCount := count;
    var v;
    match f.htype
    case Required =>
      ok, v := DecodeFieldValue(stream, f, slot.value);
      dest.slots := dest.slots[iter.slot := Plain(v)];
    case Optional =>
      ok, v := DecodeFieldValue(stream, f, slot.value);
      dest.slots := dest.slots[iter.slot := if f.Sized() then Tracked(true, v) else Plain(v)];
    case Repeated =>
      ok, newCount := DecodeRepeatedField(stream, wireType, iter, dest, if f.Sized() then 0 else count);
      newCount := if f.Sized() then count else newCount;
    case OneOf =>
      var prior := slot.value;
      if f.ltype.Submessage? && slot.which != f.tag {
        // The old contents belong to some other union field.
        WellFormedFieldIsNavigable(f);
        InitValueHasShape(f);
        prior := FieldDefault(f);
      }
      ok, v := DecodeFieldValue(stream, f, prior);
      dest.slots := dest.slots[iter.slot := Union(f.tag, v)];
  }

  // ---------------------------------------------------------------------------------------------
  // Whole messages
  // ---------------------------------------------------------------------------------------------

  /** The numbers in seen are those of required fields the mask has room for. */
  predicate SeenInRange(fields: seq<Field>, seen: set<nat>) {
    forall k | k in seen :: k < TrackedRequired(fields)
  }

  lemma {:induction false} RequiredIndex(fields: seq<Field>, i: nat, n: nat)
    requires i < n <= |fields|
    ensures RequiredBefore(fields, i) + (if fields[i].htype.Required? then 1 else 0) <= RequiredBefore(fields, n)
    decreases n
  {
    if i < n - 1 {
      RequiredIndex(fields, i, n - 1);
    }
  }

  /** What one turn of the loop keeps: the shape of the struct and the range of the mask. */
  lemma {:induction false} TurnKeeps(fields: seq<Field>, i: nat, wireType: nat, st: Progress, bs: seq<Byte>)
    requires WellFormed(fields) && i < |fields| && HasShape(fields, st.slots) && SeenInRange(fields, st.seen)
    requires DecodeField(fields, i, wireType, st, bs).Ok?
    ensures HasShape(fields, DecodeField(fields, i, wireType, st, bs).value.slots)
    ensures SeenInRange(fields, DecodeField(fields, i, wireType, st, bs).value.seen)
  {
    hide DecodeSlot, WellFormed, HasShape;
    var st' := DecodeField(fields, i, wireType, st, bs).value;
    GoodMeans(fields, st.slots);
    FieldGood(false, fields, i, wireType, st, bs);
    GoodMeans(fields, st'.slots);
    RequiredIndex(fields, i, |fields|);
  }

  /** Distinct tags make the field the iterator finds the only one. */
  lemma {:induction false} FoundIsTheField(fields: seq<Field>, tag: nat, found: bool, pos: nat)
    requires WellFormed(fields)
    requires found <==> exists i :: 0 <= i < |fields| && fields[i].tag == tag
    requires found ==> pos < |fields| && fields[pos].tag == tag
    ensures FindField(fields, tag, |fields|) == (if found then Some(pos) else None)
  {
  }

  /** One turn of the loop, by the key and the field it names. */
  lemma {:induction false} LoopUnfolds(fields: seq<Field>, st: Progress, bs: seq<Byte>)
    requires bs != []
    ensures DecodeTag(bs).BadTag? ==> DecodeLoop(fields, st, bs) == Failed
    ensures DecodeTag(bs).Zero? ==> DecodeLoop(fields, st, bs) == Done(st, DecodeTag(bs).rest, true)
    ensures DecodeTag(bs).Tag? ==>
              DecodeLoop(fields, st, bs) ==
                match FindField(fields, DecodeTag(bs).tag, |fields|)
                case None => AfterSkip(fields, st, SkipField(DecodeTag(bs).wireType, DecodeTag(bs).rest))
                case Some(i) => AfterField(fields, DecodeField(fields, i, DecodeTag(bs).wireType, st, DecodeTag(bs).rest))
  {
    hide DecodeTag, SkipField, DecodeField;
  }

  lemma {:induction false} LoopEnds(fields: seq<Field>)
    ensures forall st :: DecodeLoop(fields, st, []) == Done(st, [], false)
  {
  }

  function AfterSkip(fields: seq<Field>, st: Progress, r: Parsed<()>): Outcome {
    match r
    case Fail => Failed
    case Ok(_, rest) => DecodeLoop(fields, st, rest)
  }

  function AfterField(fields: seq<Field>, r: Parsed<Progress>): Outcome {
    match r
    case Fail => Failed
    case Ok(st, rest) => DecodeLoop(fields, st, rest)
  }

  /** The part of the loop in pb_decode_noinit for a field the iterator found. */
  method DecodeKnownField(
      stream: IStream, wireType: nat, iter: FieldIter, dest: Message, fieldsSeen: array<bv32>, ghost seen: set<nat>,
      fixedField: Option<nat>, fixedCount: nat)
    returns (ok: bool, newField: Option<nat>, newCount: nat, ghost newSeen: set<nat>)
    requires stream.Valid() && iter.Valid() && iter.pos < |iter.fields| && WellFormed(iter.fields)
    requires HasShape(iter.fields, dest.slots) && Represents(fieldsSeen[..], seen)
    requires fixedField.Some? ==> fixedField.value < |iter.fields|
    modifies stream, dest, fieldsSeen
    ensures stream.Valid() && stream.End() <= old(stream.End()) && (ok ==> stream.End() == old(stream.End()))
    ensures var st := Progress(old(dest.slots), seen, fixedField, fixedCount);
            var r := DecodeField(iter.fields, iter.pos, wireType, st, old(stream.Left()));
            && (ok <==> r.Ok?)
            && (ok ==> r == Ok(Progress(dest.slots, newSeen, newField, newCount), stream.Left()))
    ensures ok ==> Represents(fieldsSeen[..], newSeen) && (newField.Some? ==> newField.value < |iter.fields|)
    decreases stream.bytesLeft, 4
  {
    hide DecodeSlot, WellFormed, HasShape, Represents, RequiredBefore, ByteOffset, SlotHasShape, WellFormedField;
    newField, newCount, newSeen := fixedField, fixedCount, seen;
    ghost var st := Progress(dest.slots, seen, fixedField, fixedCount);
    ShapeAt(iter.fields, dest.slots, iter.pos);
    FieldsWellFormed(iter.fields, iter.pos);
    var f := iter.fields[iter.pos];
    // The counter of such an array is the loop's.
    if f.htype.Repeated? && iter.pSize == iter.pData {
      if fixedField != Some(iter.pos) {
        if fixedField.Some? && fixedCount != iter.fields[fixedField.value].arraySize {
          return false, fixedField, fixedCount, seen; // "wrong size for fixed count field"
        }
        newField := Some(iter.pos);
        newCount := 0;
      }
    }
    if f.htype.Required? && iter.requiredFieldIndex < MAX_REQUIRED_FIELDS {
      MarkRequired(fieldsSeen, iter.requiredFieldIndex, seen);
      newSeen := seen + {iter.requiredFieldIndex};
    }
    assert Enter(iter.fields, iter.pos, st) == Some(Progress(dest.slots, newSeen, newField, newCount));
    ok, newCount := DecodeStaticField(stream, wireType, iter, dest, newCount);
  }

  /** `fields_seen[index >> 5] |= 1 << (index & 31)` */
  method MarkRequired(fieldsSeen: array<bv32>, index: nat, ghost seen: set<nat>)
    requires index < MAX_REQUIRED_FIELDS && Represents(fieldsSeen[..], seen)
    modifies fieldsSeen
    ensures Represents(fieldsSeen[..], seen + {index})
  {
    hide Represents, BitSet, Bit;
    ghost var words := fieldsSeen[..];
    TwoWords(words, seen);
    MarkSeen(words, seen, index);
    var word := index / 32;
    var marked := fieldsSeen[word] | Bit(index % 32);
    fieldsSeen[word] := marked;
    assert fieldsSeen[..] == words[word := marked];
  }

  /** The body of the loop in pb_decode_noinit; stop is a zero key. */
  method DecodeTurn(
      stream: IStream, iter: FieldIter, dest: Message, fieldsSeen: array<bv32>, ghost seen: set<nat>,
      fixedField: Option<nat>, fixedCount: nat)
    returns (ok: bool, stop: bool, newField: Option<nat>, newCount: nat, ghost newSeen: set<nat>)
    requires stream.Valid() && stream.bytesLeft != 0 && iter.Valid() && WellFormed(iter.fields)
    requires HasShape(iter.fields, dest.slots) && Represents(fieldsSeen[..], seen) && SeenInRange(iter.fields, seen)
    requires fixedField.Some? ==> fixedField.value < |iter.fields|
    modifies stream, iter, dest, fieldsSeen
    ensures stream.Valid() && stream.End() <= old(stream.End()) && (ok ==> stream.End() == old(stream.End()))
    ensures iter.Valid()
    ensures ok ==> HasShape(iter.fields, dest.slots) && Represents(fieldsSeen[..], newSeen)
    ensures ok ==> SeenInRange(iter.fields, newSeen) && (newField.Some? ==> newField.value < |iter.fields|)
    ensures ok && !stop ==> stream.bytesLeft < old(stream.bytesLeft)
    ensures var before := Progress(old(dest.slots), seen, fixedField, fixedCount);
            var after := Progress(dest.slots, newSeen, newField, newCount);
            DecodeLoop(iter.fields, before, old(stream.Left()))
              == if !ok then Failed
                 else if stop then Done(after, stream.Left(), true)
                 else DecodeLoop(iter.fields, after, stream.Left())
    decreases stream.bytesLeft, 5
  {
    hide DecodeLoop, DecodeTag, SkipField, DecodeField, WellFormed, HasShape, Represents, RequiredBefore, ByteOffset, FindField;
    ghost var st, left := Progress(dest.slots, seen, fixedField, fixedCount), stream.Left();
    newField, newCount, newSeen, stop := fixedField, fixedCount, seen, false;
    LoopUnfolds(iter.fields, st, left);
    var wireType, tag, eof;
    ok, wireType, tag, eof := PbDecodeTag(stream);
    if !ok {
      return eof, eof, newField, newCount, newSeen;
    }
    ghost var payload := stream.Left();
    // In an empty descriptor the terminator itself would match tag 0.
    var found := false;
    if tag != 0 || iter.fields != [] {
      found := iter.Find(tag);
    }
    FoundIsTheField(iter.fields, tag, found, iter.pos);
    if found {
      ghost var i := iter.pos;
      ok, newField, newCount, newSeen :=
        DecodeKnownField(stream, wireType, iter, dest, fieldsSeen, seen, fixedField, fixedCount);
      if ok {
        TurnKeeps(iter.fields, i, wireType, st, payload);
      }
    } else {
      ok := PbSkipField(stream, wireType);
    }
  }

  /** pb_decode_noinit */
  method PbDecodeNoinit(stream: IStream, fields: seq<Field>, dest: Message) returns (ok: bool)
    requires stream.Valid() && WellFormed(fields) && HasShape(fields, dest.slots)
    modifies stream, dest
    ensures stream.Valid() && stream.End() <= old(stream.End()) && (ok ==> stream.End() == old(stream.End()))
    ensures ok <==> DecodeNoinit(fields, old(dest.slots), old(stream.Left())).Ok?
    ensures ok ==> DecodeNoinit(fields, old(dest.slots), old(stream.Left())) == Ok(dest.slots, stream.Left())
    decreases stream.bytesLeft, 6
  {
    hide DecodeLoop, WellFormed, HasShape, Represents, RequiredBefore, ByteOffset;
    var fieldsSeen := new bv32[2];
    fieldsSeen[0], fieldsSeen[1] := 0, 0;
    var fixedField: Option<nat> := None;
    var fixedCount: nat := 0;
    WellFormedIsNavigable(fields);
    var iter := new FieldIter(fields);

    ghost var goal := DecodeLoop(fields, Start(dest.slots), stream.Left());
    LoopEnds(fields);
    ghost var seen: set<nat> := {};
    ghost var terminated := false;
    NothingSeen();
    assert fieldsSeen[..] == [0, 0];
    while stream.bytesLeft != 0
      invariant stream.Valid() && stream.End() == old(stream.End())
      invariant iter.Valid() && iter.fields == fields && fresh(iter) && fresh(fieldsSeen) && !terminated
      invariant HasShape(fields, dest.slots) && Represents(fieldsSeen[..], seen) && SeenInRange(fields, seen)
      invariant fixedField.Some? ==> fixedField.value < |fields|
      invariant goal == DecodeLoop(fields, Progress(dest.slots, seen, fixedField, fixedCount), stream.Left())
      decreases stream.bytesLeft
    {
      var stop;
      ok, stop, fixedField, fixedCount, seen := DecodeTurn(stream, iter, dest, fieldsSeen, seen, fixedField, fixedCount);
      if !ok {
        return false;
      }
      if stop {
        terminated := true;
        break;
      }
    }
    assert goal == Done(Progress(dest.slots, seen, fixedField, fixedCount), stream.Left(), terminated);

    // The array last filled must be complete.
    if fixedField.Some? && fixedCount != fields[fixedField.value].arraySize {
      return false; // "wrong size for fixed count field"
    }
    ok := RequiredFieldsPresent(iter, fieldsSeen, seen);
  }

  /** The end of pb_decode_noinit: finds the number of required fields by seeking to the end of the descriptor. */
  method RequiredFieldsPresent(iter: FieldIter, fieldsSeen: array<bv32>, ghost seen: set<nat>) returns (ok: bool)
    requires iter.Valid() && Represents(fieldsSeen[..], seen) && SeenInRange(iter.fields, seen)
    modifies iter
    ensures ok <==> RequiredPresent(iter.fields, seen)
  {
    hide Represents, Navigable;
    var reqFieldCount: nat := 0;
    var lastIsRequired := false;
    var more := true;
    while more
      invariant iter.Valid()
      invariant !more ==> iter.pos == 0
      invariant !more ==> iter.fields == [] ==> reqFieldCount == 0
      invariant !more && iter.fields != [] ==>
                  var n := |iter.fields|;
                  reqFieldCount == RequiredBefore(iter.fields, n - 1) && lastIsRequired == iter.fields[n - 1].htype.Required?
      decreases more, |iter.fields| - iter.pos
    {
      reqFieldCount := iter.requiredFieldIndex;
      // The terminator has type 0, which reads as required.
      lastIsRequired := iter.pos == |iter.fields| || iter.fields[iter.pos].htype.Required?;
      more := iter.Next();
    }
    // The step that wrapped around did not count the last field.
    assert iter.fields != [] ==> TagAt(iter.fields, iter.pos) != 0 by {
      if iter.fields != [] { NavigableAt(iter.fields, iter.pos); }
    }
    if lastIsRequired && TagAt(iter.fields, iter.pos) != 0 {
      reqFieldCount := reqFieldCount + 1;
    }
    assert reqFieldCount == RequiredBefore(iter.fields, |iter.fields|);
    if reqFieldCount > MAX_REQUIRED_FIELDS {
      reqFieldCount := MAX_REQUIRED_FIELDS;
    }
    ok := AllPresent(fieldsSeen, reqFieldCount, seen);
  }

  /** pb_decode */
  method PbDecode(stream: IStream, fields: seq<Field>, dest: Message) returns (ok: bool)
    requires stream.Valid() && WellFormed(fields) && |dest.slots| == SlotsBefore(fields, |fields|)
    modifies stream, dest
    ensures stream.Valid() && stream.End() <= old(stream.End()) && (ok ==> stream.End() == old(stream.End()))
    ensures ok <==> DecodeMessage(fields, old(stream.Left())).Ok?
    ensures ok ==> DecodeMessage(fields, old(stream.Left())) == Ok(dest.slots, stream.Left())
    decreases stream.bytesLeft, 7
  {
    hide DecodeNoinit, WellFormed, HasShape, InitMessage;
    WellFormedIsNavigable(fields);
    InitHasShape(fields);
    PbMessageSetToDefaults(fields, dest);
    ok := PbDecodeNoinit(stream, fields, dest);
  }

  /** pb_decode_delimited: the stream ends up just past the payload, however much the decoder read. */
  method PbDecodeDelimited(stream: IStream, fields: seq<Field>, dest: Message) returns (ok: bool)
    requires stream.Valid() && WellFormed(fields) && |dest.slots| == SlotsBefore(fields, |fields|)
    modifies stream, dest
    ensures stream.Valid() && (ok ==> stream.End() == old(stream.End()))
    ensures ok <==> DecodeDelimited(fields, old(stream.Left())).Ok?
    ensures ok ==> DecodeDelimited(fields, old(stream.Left())) == Ok(dest.slots, stream.Left())
  {
    hide ReadDelimited, DecodeMessage, WellFormed;
    var substream;
    ok, substream := PbMakeStringSubstream(stream);
    if !ok {
      return false;
    }
    var status := PbDecode(substream, fields, dest);
    var closed := PbCloseStringSubstream(stream, substream);
    if !closed {
      return false;
    }
    return status;
  }
}
