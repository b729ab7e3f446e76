/** pb_encode.c: the encoder over output streams, step by step, against the bytes Encoding says it emits. */
module Encoder {
  import opened Wrappers
  import opened Wire
  import opened Descriptors
  import opened Encoding
  import opened FieldIterator

  // ---------------------------------------------------------------------------------------------
  // Output streams
  // ---------------------------------------------------------------------------------------------

  /** Contents of a stream at one moment. */
  datatype Snapshot = Snapshot(writes: bool, maxSize: nat, bytesWritten: nat, state: nat, contents: seq<Byte>)
  {
    predicate Valid() {
      && bytesWritten < TWO_TO_64
      && (writes ==> bytesWritten <= maxSize < TWO_TO_64 && state + (maxSize - bytesWritten) <= |contents|)
    }

    /** The end of the room the stream has. */
    function Limit(): nat
      requires Valid() && writes
    {
      state + (maxSize - bytesWritten)
    }

    /** Whether n more bytes fit. A sizing stream only counts. */
    predicate HasRoom(n: nat) {
      writes ==> bytesWritten + n <= maxSize
    }
  }

  /** What emitting `bytes` (None: an encoding error) does to a stream: it succeeds exactly when the bytes exist and
      fit; then they follow what was written before. Nothing before them or beyond the limit is touched. */
  predicate Emits(before: Snapshot, after: Snapshot, bytes: Option<seq<Byte>>, ok: bool)
    requires before.Valid()
  {
    && after.Valid() && after.writes == before.writes && after.maxSize == before.maxSize
    && (ok <==> bytes.Some? && before.HasRoom(|bytes.value|))
    && (if before.writes then
          && |after.contents| == |before.contents|
          && before.state <= after.state && after.state - before.state == after.bytesWritten - before.bytesWritten
          && after.contents[..before.state] == before.contents[..before.state]
          && after.contents[before.Limit()..] == before.contents[before.Limit()..]
          && (ok ==> after.contents[before.state..after.state] == bytes.value)
        else
          && after.state == before.state && after.contents == before.contents
          && (ok ==> after.bytesWritten == (before.bytesWritten + |bytes.value|) % TWO_TO_64))
  }

  /** Bytes i to j of b, and then j to k of c, which leaves what b had before. */
  lemma {:induction false} SlicesThen(a: seq<Byte>, b: seq<Byte>, c: seq<Byte>, i: nat, j: nat, k: nat)
    requires i <= j <= k <= |a| == |b| == |c| && b[..i] == a[..i] && c[..j] == b[..j]
    ensures c[..i] == a[..i] && c[i..k] == b[i..j] + c[j..k]
  {
    assert c[..i] == c[..j][..i] && b[..i] == b[..j][..i];
    assert c[i..k] == c[..j][i..] + c[j..k];
    assert c[..j][i..] == b[..j][i..] == b[i..j];
  }

  lemma {:induction false} EmitsThen(a: Snapshot, b: Snapshot, c: Snapshot, x: seq<Byte>, y: Option<seq<Byte>>, ok: bool)
    requires a.Valid() && Emits(a, b, Some(x), true) && Emits(b, c, y, ok)
    ensures Emits(a, c, Join(Some(x), y), ok)
  {
    if a.writes {
      SlicesThen(a.contents, b.contents, c.contents, a.state, b.state, c.state);
    }
  }

  lemma {:induction false} EmitsStop(a: Snapshot, b: Snapshot, x: Option<seq<Byte>>, y: Option<seq<Byte>>)
    requires a.Valid() && Emits(a, b, x, false)
    ensures Emits(a, b, Join(x, y), false)
  {
  }

  lemma {:induction false} EmitsNothing(a: Snapshot)
    requires a.Valid()
    ensures Emits(a, a, Some([]), true)
  {
  }

  lemma {:induction false} EmitsFail(a: Snapshot, b: Snapshot, x: Option<seq<Byte>>, ok: bool)
    requires a.Valid() && Emits(a, b, x, ok)
    ensures Emits(a, b, None, false)
  {
  }

  lemma {:induction false} JoinAssociative(a: Option<seq<Byte>>, b: Option<seq<Byte>>, c: Option<seq<Byte>>)
    ensures Join(Join(a, b), c) == Join(a, Join(b, c))
  {
    if a.Some? && b.Some? && c.Some? {
      assert a.value + b.value + c.value == a.value + (b.value + c.value);
    }
  }

  /** One step of a loop that emits one piece after another, of which `pre` has been written already. */
  lemma {:induction false} EmitsStep(
      a: Snapshot, b: Snapshot, c: Snapshot,
      all: Option<seq<Byte>>, pre: seq<Byte>, piece: Option<seq<Byte>>, more: Option<seq<Byte>>, ok: bool)
    requires a.Valid() && Emits(a, b, Some(pre), true) && Emits(b, c, piece, ok)
    requires all == Join(Some(pre), Join(piece, more))
    ensures ok ==> piece.Some? && Emits(a, c, Some(pre + piece.value), true) && all == Join(Some(pre + piece.value), more)
    ensures !ok ==> Emits(a, c, all, false)
  {
    EmitsThen(a, b, c, pre, piece, ok);
    JoinAssociative(Some(pre), piece, more);
    if !ok {
      EmitsStop(a, c, Join(Some(pre), piece), more);
    }
  }

  class OStream {
    // Whether there is a callback (buf_write); a stream without one only counts.
    var writes: bool
    var buffer: array<Byte>
    var state: nat
    var maxSize: nat
    var bytesWritten: nat

    ghost function Snap(): Snapshot
      reads this, buffer
    {
      Snapshot(writes, maxSize, bytesWritten, state, buffer[..])
    }

    /** pb_ostream_from_buffer */
    constructor FromBuffer(buf: array<Byte>, bufSize: nat)
      requires bufSize <= buf.Length && bufSize < TWO_TO_64
      ensures buffer == buf && Snap() == Snapshot(true, bufSize, 0, 0, buf[..]) && Snap().Valid()
    {
      writes, buffer, state, maxSize, bytesWritten := true, buf, 0, bufSize, 0;
    }

    /** PB_OSTREAM_SIZING */
    constructor Sizing()
      ensures !writes && bytesWritten == 0 && fresh(buffer) && Snap().Valid()
    {
      writes, state, maxSize, bytesWritten := false, 0, 0, 0;
      buffer := new Byte[0];
    }

    /** buf_write */
    method BufWrite(data: seq<Byte>, count: nat)
      requires count <= |data| && state + count <= buffer.Length
      modifies this`state, buffer
      ensures state == old(state) + count
      ensures buffer[..] == old(buffer[..state] + data[..count] + buffer[state + count..])
    {
      var dest := state;
      state := dest + count;
      for i := 0 to count
        invariant state == dest + count
        invariant forall k :: 0 <= k < buffer.Length ==>
                    buffer[k] == if dest <= k < dest + i then data[k - dest] else old(buffer[k])
      {
        buffer[dest + i] := data[i];
      }
    }
  }

  /** Bytes written at the position of a stream with room for them. */
  lemma {:induction false} EmitsWritten(a: Snapshot, b: Snapshot, data: seq<Byte>)
    requires a.Valid() && a.writes && a.HasRoom(|data|)
    requires b == a.(bytesWritten := a.bytesWritten + |data|, state := a.state + |data|,
                     contents := a.contents[..a.state] + data + a.contents[a.state + |data|..])
    ensures Emits(a, b, Some(data), true)
  {
    assert b.contents[a.Limit()..] == a.contents[a.Limit()..];
  }

  /** pb_write */
  method PbWrite(stream: OStream, data: seq<Byte>, count: nat) returns (ok: bool)
    requires stream.Snap().Valid() && count < TWO_TO_64
    requires stream.writes ==> count == |data|
    modifies stream, stream.buffer
    ensures stream.buffer == old(stream.buffer) && stream.Snap().Valid()
    ensures count == |data| ==> Emits(old(stream.Snap()), stream.Snap(), Some(data), ok)
    ensures !old(stream.writes) ==> ok && stream.Snap() == old(stream.Snap()).(bytesWritten := (old(stream.bytesWritten) + count) % TWO_TO_64)
  {
    if count > 0 && stream.writes {
      if (stream.bytesWritten + count) % TWO_TO_64 < stream.bytesWritten
         || (stream.bytesWritten + count) % TWO_TO_64 > stream.maxSize {
        return false;
      }
      assert stream.bytesWritten + count <= stream.maxSize;
      ghost var before := stream.Snap();
      stream.BufWrite(data, count);
      stream.bytesWritten := (stream.bytesWritten + count) % TWO_TO_64;
      assert data[..count] == data;
      EmitsWritten(before, stream.Snap(), data);
      return true;
    }
    stream.bytesWritten := (stream.bytesWritten + count) % TWO_TO_64;
    return true;
  }

  // ---------------------------------------------------------------------------------------------
  // Integers, keys and strings
  // ---------------------------------------------------------------------------------------------

  /** Between two turns of the varint loop: the digits written, and what is left of the value. Once nothing is left, the
      last digit still has its continuation bit. */
  predicate DigitsWritten(value: nat, digits: seq<Byte>, left: nat) {
    if left > 0 then VarintBytes(value) == digits + VarintBytes(left)
    else digits != [] && digits[|digits| - 1] >= 0x80
         && VarintBytes(value) == digits[..|digits| - 1] + [digits[|digits| - 1] - 0x80]
  }

  lemma {:induction false} NextDigitWritten(value: nat, digits: seq<Byte>, left: nat)
    requires left > 0 && DigitsWritten(value, digits, left)
    ensures DigitsWritten(value, digits + [left % 128 + 0x80], left / 128)
    ensures |digits| < |VarintBytes(value)|
  {
    var more := digits + [left % 128 + 0x80];
    assert more[..|more| - 1] == digits;
    if left > 0x7F {
      assert VarintBytes(left) == [left % 128 + 0x80] + VarintBytes(left / 128);
    } else {
      assert VarintBytes(left) == [left];
    }
    hide VarintBytes;
  }

  lemma {:induction false} NoDigitsWritten(value: nat)
    requires value > 0
    ensures DigitsWritten(value, [], value)
  {
    hide VarintBytes;
    assert [] + VarintBytes(value) == VarintBytes(value);
  }

  lemma {:induction false} SomeDigitsWritten(value: nat, digits: seq<Byte>)
    requires DigitsWritten(value, digits, 0)
    ensures digits != []
  {
    hide VarintBytes;
  }

  lemma {:induction false} AllDigitsWritten(value: nat, digits: seq<Byte>)
    requires DigitsWritten(value, digits, 0)
    ensures digits[..|digits| - 1] + [digits[|digits| - 1] % 128] == VarintBytes(value)
  {
    hide VarintBytes;
  }

  lemma {:induction false} OneByteVarint(value: nat)
    requires value <= 0x7F
    ensures VarintBytes(value) == [value]
  {
  }

  /** pb_encode_varint */
  method PbEncodeVarint(stream: OStream, value: nat) returns (ok: bool)
    requires stream.Snap().Valid() && value < TWO_TO_64
    modifies stream, stream.buffer
    ensures stream.buffer == old(stream.buffer) && stream.Snap().Valid()
    ensures Emits(old(stream.Snap()), stream.Snap(), Some(VarintBytes(value)), ok)
  {
    hide Emits, VarintBytes, DigitsWritten;
    if value <= 0x7F {
      OneByteVarint(value);
      ok := PbWrite(stream, [value], 1);
      return;
    }
    var buffer := new Byte[10];
    var i: nat, v: nat := 0, value;
    TenBytesSuffice(value);
    NoDigitsWritten(value);
    assert buffer[..0] == [];
    while v != 0
      invariant i <= 10 && DigitsWritten(value, buffer[..i], v)
      invariant fresh(buffer) && unchanged(stream) && unchanged(stream.buffer)
      decreases v
    {
      ghost var digits := buffer[..i];
      NextDigitWritten(value, digits, v);
      buffer[i] := v % 128 + 0x80;
      assert buffer[..i + 1] == digits + [v % 128 + 0x80];
      v := v / 128;
      i := i + 1;
    }
    ghost var digits := buffer[..i];
    SomeDigitsWritten(value, digits);
    AllDigitsWritten(value, digits);
    buffer[i - 1] := buffer[i - 1] % 128;
    assert buffer[..i] == digits[..i - 1] + [digits[i - 1] % 128];
    ok := PbWrite(stream, buffer[..i], i);
  }

  /** pb_encode_svarint */
  method PbEncodeSVarint(stream: OStream, value: int) returns (ok: bool)
    requires stream.Snap().Valid() && -TWO_TO_63 <= value < TWO_TO_63
    modifies stream, stream.buffer
    ensures stream.buffer == old(stream.buffer) && stream.Snap().Valid()
    ensures Emits(old(stream.Snap()), stream.Snap(), Some(VarintBytes(ZigZag(value))), ok)
  {
    var zigzagged;
    if value < 0 {
      zigzagged := Not64(2 * ToUInt64(value) % TWO_TO_64);
    } else {
      zigzagged := 2 * ToUInt64(value) % TWO_TO_64;
    }
    ok := PbEncodeVarint(stream, zigzagged);
  }

  /** pb_encode_fixed32 and pb_encode_fixed64: the bytes of val, lowest first. */
  method PbEncodeFixed(stream: OStream, val: nat, width: nat) returns (ok: bool)
    requires stream.Snap().Valid() && (width == 4 || width == 8)
    modifies stream, stream.buffer
    ensures stream.buffer == old(stream.buffer) && stream.Snap().Valid()
    ensures Emits(old(stream.Snap()), stream.Snap(), Some(LittleEndian(val, width)), ok)
  {
    hide Emits;
    var bytes := new Byte[width];
    var v := val;
    for i := 0 to width
      invariant LittleEndian(val, width) == bytes[..i] + LittleEndian(v, width - i)
      invariant fresh(bytes) && unchanged(stream) && unchanged(stream.buffer)
    {
      bytes[i] := v % 256;
      v := v / 256;
    }
    assert bytes[..] == bytes[..width] == LittleEndian(val, width);
    ok := PbWrite(stream, bytes[..], width);
  }

  /** pb_encode_tag */
  method PbEncodeTag(stream: OStream, wt: WireType, fieldNumber: nat) returns (ok: bool)
    requires stream.Snap().Valid() && fieldNumber < TWO_TO_32
    modifies stream, stream.buffer
    ensures stream.buffer == old(stream.buffer) && stream.Snap().Valid()
    ensures Emits(old(stream.Snap()), stream.Snap(), Some(Key(fieldNumber, wt)), ok)
  {
    ok := PbEncodeVarint(stream, 8 * fieldNumber + wt.Code());
  }

  /** pb_encode_string: a length and the bytes. */
  method PbEncodeString(stream: OStream, data: seq<Byte>) returns (ok: bool)
    requires stream.Snap().Valid() && |data| < TWO_TO_64
    modifies stream, stream.buffer
    ensures stream.buffer == old(stream.buffer) && stream.Snap().Valid()
    ensures Emits(old(stream.Snap()), stream.Snap(), Some(Delimited(data)), ok)
  {
    hide Emits;
    ghost var s0 := stream.Snap();
    ok := PbEncodeVarint(stream, |data|);
    assert |data| % TWO_TO_64 == |data|;
    if !ok {
      EmitsStop(s0, stream.Snap(), Some(VarintBytes(|data|)), Some(data));
      return;
    }
    ghost var s1 := stream.Snap();
    ok := PbWrite(stream, data, |data|);
    EmitsThen(s0, s1, stream.Snap(), VarintBytes(|data|), Some(data), ok);
  }

  // ---------------------------------------------------------------------------------------------
  // The proto3 zero check
  // ---------------------------------------------------------------------------------------------

  /** pb_check_proto3_default_value */
  method PbCheckProto3Default(f: Field, s: Slot) returns (isDefault: bool)
    requires NavigableField(f) && SlotHasShape(f, s)
    ensures isDefault == IsProto3Default(f, s)
    decreases f, 0
  {
    match f.htype
    case Required => return false;
    case Repeated => return if f.Sized() then |s.items| == 0 else false;
    case OneOf => return s.which == 0;
    case Optional =>
      if f.Sized() {
        return !s.has;
      }
      match f.ltype {
        case Bytes(_) => return |s.value.data| == 0;
        case String => return s.value.data == [] || s.value.data[0] == 0;
        case FixedLengthBytes => return f.dataSize == 0;
        case Submessage =>
          isDefault := PbCheckAllFields(f.sub, s.value.slots);
        case _ => return s.value.n == 0;
      }
  }

  /** PB_LTYPE_SUBMESSAGE of the zero check: every field of the submessage, by an iterator of its own. */
  method PbCheckAllFields(fields: seq<Field>, slots: seq<Slot>) returns (isDefault: bool)
    requires Navigable(fields) && HasShape(fields, slots)
    ensures isDefault == AllDefault(fields, slots, 0)
    decreases fields, 1
  {
    hide IsProto3Default, SlotHasShape, NavigableField, Navigable, HasShape, ByteOffset, RequiredBefore;
    var iter := new FieldIter(fields);
    var more := iter.Begin();
    while more
      invariant iter.Valid() && iter.fields == fields && fresh(iter)
      invariant more ==> iter.pos < |fields|
      invariant AllDefault(fields, slots, 0) <==> AllDefault(fields, slots, if more then iter.pos else |fields|)
      decreases more, |fields| - iter.pos
    {
      NavigableAt(fields, iter.pos);
      ShapeAt(fields, slots, iter.pos);
      var r := PbCheckProto3Default(fields[iter.pos], slots[iter.slot]);
      if !r {
        return false;
      }
      more := iter.Next();
    }
    return true;
  }

  // ---------------------------------------------------------------------------------------------
  // Values
  // ---------------------------------------------------------------------------------------------

  /** pb_enc_bool, pb_enc_varint, pb_enc_uvarint, pb_enc_svarint, pb_enc_fixed32 and pb_enc_fixed64 */
  method PbEncNumber(stream: OStream, f: Field, n: int) returns (ok: bool)
    requires stream.Snap().Valid() && f.ltype.Packable() && NumberFits(f, n)
    modifies stream, stream.buffer
    ensures stream.buffer == old(stream.buffer) && stream.Snap().Valid()
    ensures Emits(old(stream.Snap()), stream.Snap(), EncodeNumber(f, n), ok)
  {
    hide VarintBytes, LittleEndian;
    match f.ltype
    case Bool => ok := PbEncodeVarint(stream, if n != 0 then 1 else 0);
    case Varint =>
      if !IntegerSize(f.dataSize) {
        return false; // "invalid data_size"
      }
      ok := PbEncodeVarint(stream, ToUInt64(n));
    case UVarint =>
      if !IntegerSize(f.dataSize) {
        return false; // "invalid data_size"
      }
      ok := PbEncodeVarint(stream, ToUInt64(n));
    case SVarint =>
      if !IntegerSize(f.dataSize) {
        return false; // "invalid data_size"
      }
      ok := PbEncodeSVarint(stream, n);
    case Fixed32 => ok := PbEncodeFixed(stream, n, 4);
    case Fixed64 => ok := PbEncodeFixed(stream, n, 8);
  }

  /** pb_enc_string: the length is found by looking for the terminator. */
  method PbEncString(stream: OStream, f: Field, data: seq<Byte>) returns (ok: bool)
    requires stream.Snap().Valid() && |data| <= f.dataSize < TWO_TO_32
    modifies stream, stream.buffer
    ensures stream.buffer == old(stream.buffer) && stream.Snap().Valid()
    ensures Emits(old(stream.Snap()), stream.Snap(), Some(Delimited(data[..CStringLength(data)])), ok)
  {
    var size := 0;
    // The byte after data, if the buffer has one, is a terminator.
    while size < f.dataSize && size < |data| && data[size] != 0
      invariant size <= CStringLength(data)
    {
      size := size + 1;
    }
    ok := PbEncodeString(stream, data[..size]);
  }

  /** Packed fixed-width items take four or eight bytes each. */
  lemma {:induction false} PackedFixedSize(f: Field, items: seq<Value>, k: nat)
    requires f.ltype.Fixed32? || f.ltype.Fixed64?
    requires k <= |items| && forall j | 0 <= j < |items| :: ValueHasShape(f, items[j])
    ensures EncodePacked(f, items, k).Some?
    ensures |EncodePacked(f, items, k).value| == (if f.ltype.Fixed32? then 4 else 8) * (|items| - k)
    decreases |items| - k
  {
    hide LittleEndian;
    if k < |items| {
      PackedFixedSize(f, items, k + 1);
    }
  }

  lemma {:induction false} PackedPiece(f: Field, items: seq<Value>, k: nat)
    requires k < |items| && f.ltype.Packable() && ValueHasShape(f, items[k])
    ensures NumberFits(f, items[k].n) && items[k].Num?
    ensures EncodePacked(f, items, k) == Join(EncodeNumber(f, items[k].n), EncodePacked(f, items, k + 1))
  {
  }

  /** The size of a packed array: computed, or found by encoding to a sizing stream. */
  method PackedArraySize(f: Field, items: seq<Value>) returns (ok: bool, size: nat)
    requires f.ltype.Packable() && forall k | 0 <= k < |items| :: ValueHasShape(f, items[k])
    ensures ok <==> EncodePacked(f, items, 0).Some?
    ensures ok ==> size == |EncodePacked(f, items, 0).value| % TWO_TO_64
  {
    if f.ltype.Fixed32? {
      PackedFixedSize(f, items, 0);
      return true, 4 * |items| % TWO_TO_64;
    } else if f.ltype.Fixed64? {
      PackedFixedSize(f, items, 0);
      return true, 8 * |items| % TWO_TO_64;
    }
    var sizestream := new OStream.Sizing();
    ghost var s0 := sizestream.Snap();
    EmitsNothing(s0);
    ok := WritePacked(sizestream, f, items);
    size := sizestream.bytesWritten;
  }

  /** The items of a packed array, one after the other. */
  method WritePacked(stream: OStream, f: Field, items: seq<Value>) returns (ok: bool)
    requires stream.Snap().Valid()
    requires f.ltype.Packable() && forall k | 0 <= k < |items| :: ValueHasShape(f, items[k])
    modifies stream, stream.buffer
    ensures stream.buffer == old(stream.buffer) && stream.Snap().Valid()
    ensures Emits(old(stream.Snap()), stream.Snap(), EncodePacked(f, items, 0), ok)
  {
    hide Emits, EncodePacked, EncodeNumber, ValueHasShape;
    ghost var s0 := stream.Snap();
    ghost var pre: seq<Byte> := [];
    EmitsNothing(s0);
    assert EncodePacked(f, items, |items|) == Some([]) by { PackedEnd(f, items); }
    assert EncodePacked(f, items, 0) == Join(Some(pre), EncodePacked(f, items, 0)) by { JoinNothing(EncodePacked(f, items, 0)); }
    for i := 0 to |items|
      invariant stream.buffer == old(stream.buffer) && stream.Snap().Valid()
      invariant Emits(s0, stream.Snap(), Some(pre), true)
      invariant EncodePacked(f, items, 0) == Join(Some(pre), EncodePacked(f, items, i))
    {
      ghost var s1 := stream.Snap();
      PackedPiece(f, items, i);
      ok := PbEncNumber(stream, f, items[i].n);
      EmitsStep(s0, s1, stream.Snap(), EncodePacked(f, items, 0), pre, EncodeNumber(f, items[i].n),
                EncodePacked(f, items, i + 1), ok);
      if !ok {
        return false;
      }
      pre := pre + EncodeNumber(f, items[i].n).value;
    }
    JoinNothing(Some(pre));
    return true;
  }

  lemma {:induction false} PackedEnd(f: Field, items: seq<Value>)
    ensures EncodePacked(f, items, |items|) == Some([])
  {
  }

  lemma {:induction false} JoinNothing(x: Option<seq<Byte>>)
    ensures Join(Some([]), x) == x == Join(x, Some([]))
  {
    if x.Some? {
      assert [] + x.value == x.value == x.value + [];
    }
  }

  // ---------------------------------------------------------------------------------------------
  // Fields
  // ---------------------------------------------------------------------------------------------

  /** The field encoder PB_ENCODERS has for the type. */
  method EncodeFieldValue(stream: OStream, f: Field, v: Value) returns (ok: bool)
    requires stream.Snap().Valid() && NavigableField(f) && ValueHasShape(f, v)
    modifies stream, stream.buffer
    ensures stream.buffer == old(stream.buffer) && stream.Snap().Valid()
    ensures Emits(old(stream.Snap()), stream.Snap(), EncodeValue(f, v), ok)
    decreases f, 2
  {
    hide EncodeNumber, Emits, EncodeMessage, Delimited, CStringLength;
    match f.ltype
    case Bytes(header) =>
      if |v.data| + header > f.dataSize {
        EmitsNothing(stream.Snap());
        EmitsFail(stream.Snap(), stream.Snap(), Some([]), true);
        return false; // "bytes size exceeded"
      }
      ok := PbEncodeString(stream, v.data);
    case String => ok := PbEncString(stream, f, v.data);
    case FixedLengthBytes => ok := PbEncodeString(stream, v.data);
    case Submessage => ok := PbEncodeSubmessage(stream, f.sub, v.slots);
    case _ => ok := PbEncNumber(stream, f, v.n);
  }

  /** pb_encode_tag_for_field, then the value. */
  method EncodeTagAndValue(stream: OStream, f: Field, v: Value) returns (ok: bool)
    requires stream.Snap().Valid() && NavigableField(f) && ValueHasShape(f, v)
    modifies stream, stream.buffer
    ensures stream.buffer == old(stream.buffer) && stream.Snap().Valid()
    ensures Emits(old(stream.Snap()), stream.Snap(), EncodeRecord(f, v), ok)
    decreases f, 3
  {
    hide Emits, EncodeValue, Key, ValueHasShape;
    ghost var s0 := stream.Snap();
    ghost var key := Key(f.tag, WireTypeOf(f.ltype));
    ok := PbEncodeTag(stream, WireTypeOf(f.ltype), f.tag);
    ghost var s1 := stream.Snap();
    if !ok {
      EmitsStop(s0, s1, Some(key), EncodeValue(f, v));
      return false;
    }
    ok := EncodeFieldValue(stream, f, v);
    EmitsThen(s0, s1, stream.Snap(), key, EncodeValue(f, v), ok);
  }

  /** encode_array */
  method EncodeArrayField(stream: OStream, f: Field, items: seq<Value>) returns (ok: bool)
    requires stream.Snap().Valid() && NavigableField(f) && forall k | 0 <= k < |items| :: ValueHasShape(f, items[k])
    modifies stream, stream.buffer
    ensures stream.buffer == old(stream.buffer) && stream.Snap().Valid()
    ensures Emits(old(stream.Snap()), stream.Snap(), EncodeArray(f, items), ok)
    decreases f, 5
  {
    hide Emits, EncodePacked, EncodeUnpacked, Key, ValueHasShape;
    EmitsNothing(stream.Snap());
    if |items| == 0 {
      return true;
    }
    if |items| > f.arraySize {
      EmitsFail(stream.Snap(), stream.Snap(), Some([]), true);
      return false; // "array max size exceeded"
    }
    if f.ltype.Packable() {
      ok := EncodePackedField(stream, f, items);
    } else {
      ok := EncodeUnpackedField(stream, f, items);
    }
  }

  /** The packed half of encode_array. */
  method EncodePackedField(stream: OStream, f: Field, items: seq<Value>) returns (ok: bool)
    requires stream.Snap().Valid() && NavigableField(f) && f.ltype.Packable() && 0 < |items| <= f.arraySize
    requires forall k | 0 <= k < |items| :: ValueHasShape(f, items[k])
    modifies stream, stream.buffer
    ensures stream.buffer == old(stream.buffer) && stream.Snap().Valid()
    ensures Emits(old(stream.Snap()), stream.Snap(), EncodeArray(f, items), ok)
    decreases f, 4
  {
    hide Emits, EncodePacked, Key, ValueHasShape, VarintBytes;
    ghost var s0 := stream.Snap();
    ghost var key := Key(f.tag, WT_STRING);
    ghost var payload := EncodePacked(f, items, 0);
    ok := PbEncodeTag(stream, WT_STRING, f.tag);
    ghost var s1 := stream.Snap();
    if !ok {
      if payload.Some? {
        EmitsStop(s0, s1, Some(key), Some(Delimited(payload.value)));
      } else {
        EmitsFail(s0, s1, Some(key), false);
      }
      return false;
    }
    var size;
    ok, size := PackedArraySize(f, items);
    if !ok {
      EmitsFail(s0, s1, Some(key), true);
      return false;
    }
    ghost var data := payload.value;
    ok := PbEncodeVarint(stream, size);
    ghost var s2 := stream.Snap();
    EmitsStep(s0, s1, s2, EncodeArray(f, items), key, Some(VarintBytes(size)), Some(data), ok);
    if !ok {
      return false;
    }
    if !stream.writes {
      ok := PbWrite(stream, [], size); // Only the count matters.
      CountedAsWritten(s2, stream.Snap(), data);
    } else {
      ok := WritePacked(stream, f, items);
    }
    EmitsThen(s0, s2, stream.Snap(), key + VarintBytes(size), Some(data), ok);
  }

  /** On a sizing stream, adding a size to the count is as good as emitting the bytes. */
  lemma {:induction false} CountedAsWritten(a: Snapshot, b: Snapshot, data: seq<Byte>)
    requires a.Valid() && !a.writes
    requires b == a.(bytesWritten := (a.bytesWritten + |data| % TWO_TO_64) % TWO_TO_64)
    ensures Emits(a, b, Some(data), true)
  {
    AddSizes(a.bytesWritten, |data|);
  }

  lemma {:induction false} AddSizes(a: nat, n: nat)
    ensures (a + n % TWO_TO_64) % TWO_TO_64 == (a + n) % TWO_TO_64
  {
    assert a + n == a + n % TWO_TO_64 + TWO_TO_64 * (n / TWO_TO_64);
  }

  /** The other half: a tag and a value for every item. */
  method EncodeUnpackedField(stream: OStream, f: Field, items: seq<Value>) returns (ok: bool)
    requires stream.Snap().Valid() && NavigableField(f) && forall k | 0 <= k < |items| :: ValueHasShape(f, items[k])
    modifies stream, stream.buffer
    ensures stream.buffer == old(stream.buffer) && stream.Snap().Valid()
    ensures Emits(old(stream.Snap()), stream.Snap(), EncodeUnpacked(f, items, 0), ok)
    decreases f, 4
  {
    hide Emits, EncodeRecord, ValueHasShape;
    ghost var s0 := stream.Snap();
    ghost var pre: seq<Byte> := [];
    EmitsNothing(s0);
    JoinNothing(EncodeUnpacked(f, items, 0));
    for i := 0 to |items|
      invariant stream.buffer == old(stream.buffer) && stream.Snap().Valid()
      invariant Emits(s0, stream.Snap(), Some(pre), true)
      invariant EncodeUnpacked(f, items, 0) == Join(Some(pre), EncodeUnpacked(f, items, i))
    {
      ghost var s1 := stream.Snap();
      ok := EncodeTagAndValue(stream, f, items[i]);
      EmitsStep(s0, s1, stream.Snap(), EncodeUnpacked(f, items, 0), pre, EncodeRecord(f, items[i]),
                EncodeUnpacked(f, items, i + 1), ok);
      if !ok {
        return false;
      }
      pre := pre + EncodeRecord(f, items[i]).value;
    }
    JoinNothing(Some(pre));
    return true;
  }

  /** encode_basic_field */
  method EncodeBasicField(stream: OStream, f: Field, s: Slot) returns (ok: bool)
    requires stream.Snap().Valid() && NavigableField(f) && SlotHasShape(f, s)
    modifies stream, stream.buffer
    ensures stream.buffer == old(stream.buffer) && stream.Snap().Valid()
    ensures Emits(old(stream.Snap()), stream.Snap(), EncodeField(f, s), ok)
    decreases f, 6
  {
    hide Emits, EncodeRecord, EncodeArray, ValueHasShape, IsProto3Default;
    EmitsNothing(stream.Snap());
    match f.htype
    case Required => ok := EncodeTagAndValue(stream, f, s.value);
    case Optional =>
      var has;
      if f.Sized() {
        has := s.has;
      } else {
        var isDefault := PbCheckProto3Default(f, s);
        has := !isDefault;
      }
      if has {
        ok := EncodeTagAndValue(stream, f, s.value);
      } else {
        ok := true;
      }
    case Repeated => ok := EncodeArrayField(stream, f, s.items);
    case OneOf =>
      if s.which == f.tag {
        ok := EncodeTagAndValue(stream, f, s.value);
      } else {
        ok := true;
      }
  }

  // ---------------------------------------------------------------------------------------------
  // Messages
  // ---------------------------------------------------------------------------------------------

  lemma {:induction false} FieldPiece(fields: seq<Field>, slots: seq<Slot>, i: nat)
    requires HasShape(fields, slots) && i < |fields|
    ensures |slots| == SlotsBefore(fields, |fields|) && SlotOf(fields, i) < |slots|
    ensures EncodeFrom(fields, slots, i)
              == Join(EncodeField(fields[i], slots[SlotOf(fields, i)]), EncodeFrom(fields, slots, i + 1))
    ensures EncodeMessage(fields, slots) == EncodeFrom(fields, slots, 0)
    ensures EncodeFrom(fields, slots, |fields|) == Some([])
  {
    hide EncodeField;
  }

  /** pb_encode: fields in descriptor order; on either kind of stream, the same bytes. */
  method PbEncode(stream: OStream, fields: seq<Field>, slots: seq<Slot>) returns (ok: bool)
    requires stream.Snap().Valid() && Navigable(fields) && HasShape(fields, slots)
    modifies stream, stream.buffer
    ensures stream.buffer == old(stream.buffer) && stream.Snap().Valid()
    ensures Emits(old(stream.Snap()), stream.Snap(), EncodeMessage(fields, slots), ok)
    decreases fields, 1
  {
    hide Emits, EncodeField, EncodeFrom, EncodeMessage, Navigable, NavigableField, HasShape, SlotHasShape, ByteOffset,
         RequiredBefore;
    ghost var s0 := stream.Snap();
    ghost var all := EncodeMessage(fields, slots);
    ghost var pre: seq<Byte> := [];
    EmitsNothing(s0);
    var iter := new FieldIter(fields);
    var more := iter.Begin();
    if !more {
      assert all == Some([]) by { EmptyMessage(fields, slots); }
      return true;
    }
    FieldPiece(fields, slots, 0);
    JoinNothing(all);
    while true
      invariant iter.Valid() && iter.fields == fields && fresh(iter) && iter.pos < |fields|
      invariant stream.buffer == old(stream.buffer) && stream.Snap().Valid()
      invariant Emits(s0, stream.Snap(), Some(pre), true)
      invariant all == Join(Some(pre), EncodeFrom(fields, slots, iter.pos))
      decreases |fields| - iter.pos
    {
      ghost var i := iter.pos;
      ghost var s1 := stream.Snap();
      NavigableAt(fields, iter.pos);
      ShapeAt(fields, slots, iter.pos);
      FieldPiece(fields, slots, iter.pos);
      ghost var piece := EncodeField(fields[i], slots[SlotOf(fields, i)]);
      ok := EncodeBasicField(stream, fields[iter.pos], slots[iter.slot]);
      EmitsStep(s0, s1, stream.Snap(), all, pre, piece, EncodeFrom(fields, slots, i + 1), ok);
      if !ok {
        return false;
      }
      pre := pre + piece.value;
      more := iter.Next();
      if !more {
        JoinNothing(Some(pre));
        return true;
      }
    }
  }

  lemma {:induction false} EmptyMessage(fields: seq<Field>, slots: seq<Slot>)
    requires fields == [] && HasShape(fields, slots)
    ensures EncodeMessage(fields, slots) == Some([])
  {
  }

  /** pb_encode_submessage: encodes to a sizing stream, writes the size, then encodes to a stream of just that size.
      Both passes agree: "submsg size changed" would take a payload of two to the 64 bytes. */
  method PbEncodeSubmessage(stream: OStream, fields: seq<Field>, slots: seq<Slot>) returns (ok: bool)
    requires stream.Snap().Valid() && Navigable(fields) && HasShape(fields, slots)
    modifies stream, stream.buffer
    ensures stream.buffer == old(stream.buffer) && stream.Snap().Valid()
    ensures Emits(old(stream.Snap()), stream.Snap(), EncodeDelimited(fields, slots), ok)
    decreases fields, 2
  {
    hide EncodeMessage, VarintBytes, Navigable, HasShape;
    ghost var s0 := stream.Snap();
    ghost var encoded := EncodeMessage(fields, slots);
    // The first pass counts.
    var substream := new OStream.Sizing();
    ok := PbEncode(substream, fields, slots);
    if !ok {
      return false;
    }
    ghost var payload := encoded.value;
    var size := substream.bytesWritten;
    assert size == |payload| % TWO_TO_64;

    ok := PbEncodeVarint(stream, size);
    ghost var s1 := stream.Snap();
    if !ok {
      EmitsStop(s0, s1, Some(VarintBytes(size)), encoded);
      return false;
    }
    if !stream.writes {
      ok := PbWrite(stream, [], size); // Only the count matters.
      CountedAsWritten(s1, stream.Snap(), payload);
      EmitsThen(s0, s1, stream.Snap(), VarintBytes(size), encoded, ok);
      return;
    }
    if stream.bytesWritten + size > stream.maxSize {
      assert |payload| >= size;
      EmitsRefused(s1, payload);
      EmitsThen(s0, s1, s1, VarintBytes(size), encoded, false);
      return false; // "stream full"
    }
    // The second pass writes, with room for what was counted.
    substream.writes := true;
    substream.buffer := stream.buffer;
    substream.state := stream.state;
    substream.maxSize := size;
    substream.bytesWritten := 0;
    ghost var sub0 := substream.Snap();
    ok := PbEncode(substream, fields, slots);
    ghost var sub1 := substream.Snap();

    stream.bytesWritten := stream.bytesWritten + substream.bytesWritten;
    stream.state := substream.state;
    EmitsThroughSubstream(s1, stream.Snap(), sub0, sub1, payload, ok);
    EmitsThen(s0, s1, stream.Snap(), VarintBytes(size), encoded, ok);

    if substream.bytesWritten != size {
      assert |payload| >= TWO_TO_64;
      return false; // "submsg size changed"
    }
  }

  lemma {:induction false} EmitsRefused(a: Snapshot, data: seq<Byte>)
    requires a.Valid() && !a.HasRoom(|data|)
    ensures Emits(a, a, Some(data), false)
  {
  }

  /** What a substream limited to the payload's size wrote, the parent wrote. */
  lemma {:induction false} EmitsThroughSubstream(a: Snapshot, b: Snapshot, sub0: Snapshot, sub1: Snapshot, payload: seq<Byte>, ok: bool)
    requires a.Valid() && a.writes && a.bytesWritten + |payload| % TWO_TO_64 <= a.maxSize
    requires sub0 == Snapshot(true, |payload| % TWO_TO_64, 0, a.state, a.contents)
    requires sub0.Valid() && Emits(sub0, sub1, Some(payload), ok)
    requires b == Snapshot(true, a.maxSize, a.bytesWritten + sub1.bytesWritten, sub1.state, sub1.contents)
    ensures Emits(a, b, Some(payload), ok)
    ensures ok <==> |payload| < TWO_TO_64
    ensures ok ==> sub1.bytesWritten == |payload|
  {
    assert |payload| < TWO_TO_64 <==> |payload| % TWO_TO_64 == |payload|;
    assert a.contents[a.Limit()..] == a.contents[sub0.Limit()..][a.Limit() - sub0.Limit()..];
    assert b.contents[a.Limit()..] == b.contents[sub0.Limit()..][a.Limit() - sub0.Limit()..];
  }

  /** pb_encode_delimited */
  method PbEncodeDelimited(stream: OStream, fields: seq<Field>, slots: seq<Slot>) returns (ok: bool)
    requires stream.Snap().Valid() && Navigable(fields) && HasShape(fields, slots)
    modifies stream, stream.buffer
    ensures stream.buffer == old(stream.buffer) && stream.Snap().Valid()
    ensures Emits(old(stream.Snap()), stream.Snap(), EncodeDelimited(fields, slots), ok)
  {
    ok := PbEncodeSubmessage(stream, fields, slots);
  }

  /** pb_encode_nullterminated */
  method PbEncodeNullTerminated(stream: OStream, fields: seq<Field>, slots: seq<Slot>) returns (ok: bool)
    requires stream.Snap().Valid() && Navigable(fields) && HasShape(fields, slots)
    modifies stream, stream.buffer
    ensures stream.buffer == old(stream.buffer) && stream.Snap().Valid()
    ensures Emits(old(stream.Snap()), stream.Snap(), EncodeNullTerminated(fields, slots), ok)
  {
    hide EncodeMessage, Navigable, HasShape;
    ghost var s0 := stream.Snap();
    ok := PbEncode(stream, fields, slots);
    ghost var s1 := stream.Snap();
    if !ok {
      EmitsStop(s0, s1, EncodeMessage(fields, slots), Some([0]));
      return false;
    }
    ok := PbWrite(stream, [0], 1);
    EmitsThen(s0, s1, stream.Snap(), EncodeMessage(fields, slots).value, Some([0]), ok);
  }

  /** pb_get_encoded_size */
  method PbGetEncodedSize(fields: seq<Field>, slots: seq<Slot>) returns (ok: bool, size: nat)
    requires Navigable(fields) && HasShape(fields, slots)
    ensures ok <==> EncodeMessage(fields, slots).Some?
    ensures ok ==> size == |EncodeMessage(fields, slots).value| % TWO_TO_64
  {
    hide EncodeMessage, Navigable, HasShape;
    size := 0;
    var stream := new OStream.Sizing();
    ok := PbEncode(stream, fields, slots);
    if ok {
      size := stream.bytesWritten;
    }
  }

  /** Encoding to a buffer succeeds exactly when sizing does and the size is at most that of the buffer; the buffer
      then starts with the encoding, and nothing past the given size is touched in any case. */
  method EncodeToBuffer(buffer: array<Byte>, bufSize: nat, fields: seq<Field>, slots: seq<Slot>)
    returns (ok: bool, written: nat)
    requires bufSize <= buffer.Length && bufSize < TWO_TO_64
    requires Navigable(fields) && HasShape(fields, slots)
    modifies buffer
    ensures ok <==> EncodeMessage(fields, slots).Some? && |EncodeMessage(fields, slots).value| <= bufSize
    ensures ok ==> written == |EncodeMessage(fields, slots).value| <= buffer.Length
    ensures ok ==> buffer[..written] == EncodeMessage(fields, slots).value
    ensures buffer[bufSize..] == old(buffer[bufSize..])
  {
    hide EncodeMessage, Navigable, HasShape;
    var stream := new OStream.FromBuffer(buffer, bufSize);
    ghost var s0 := stream.Snap();
    ok := PbEncode(stream, fields, slots);
    written := stream.bytesWritten;
    assert stream.Snap().contents == buffer[..];
    assert buffer[bufSize..] == buffer[..][s0.Limit()..];
  }
}
