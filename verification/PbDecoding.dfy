/** What the decoder makes of some bytes, as functions of the bytes that are left in the stream.
    Fail stands for every decoding error; the struct a failed decode leaves is not described. */
module Decoding {
  import opened Wrappers
  import opened Wire
  import opened Descriptors

  // ---------------------------------------------------------------------------------------------
  // Tags and skipped fields
  // ---------------------------------------------------------------------------------------------

  /** pb_decode_tag: a key, the zero that ends a message early (with what follows it), or an error. */
  datatype Tagged = Tag(wireType: nat, tag: nat, rest: seq<Byte>) | Zero(rest: seq<Byte>) | BadTag

  function DecodeTag(bs: seq<Byte>): (t: Tagged)
    ensures t.Tag? ==> |t.rest| < |bs| && t.wireType < 8 && t.tag < 0x2000_0000
  {
    match ReadVarint32(bs)
    case Fail => BadTag
    case Ok(key, rest) => if key == 0 then Zero(rest) else Tag(key % 8, key / 8, rest)
  }

  /** A length and that many bytes. */
  function ReadDelimited(bs: seq<Byte>): (r: Parsed<seq<Byte>>)
    ensures r.Ok? ==> |r.value| + |r.rest| < |bs|
  {
    var (size, rest) :- ReadVarint32(bs);
    if |rest| < size then Fail else Ok(rest[..size], rest[size..])
  }

  /** pb_skip_field: the bytes after the field. */
  function SkipField(wireType: nat, bs: seq<Byte>): (r: Parsed<()>)
    ensures r.Ok? ==> |r.rest| < |bs|
  {
    if wireType == 0 then
      var n := VarintLength(bs);
      if n == 0 then Fail else Ok((), bs[n..])
    else if wireType == 1 then
      if |bs| < 8 then Fail else Ok((), bs[8..])
    else if wireType == 2 then
      var (_, rest) :- ReadDelimited(bs);
      Ok((), rest)
    else if wireType == 5 then
      if |bs| < 4 then Fail else Ok((), bs[4..])
    else Fail
  }

  // ---------------------------------------------------------------------------------------------
  // Values
  // ---------------------------------------------------------------------------------------------

  /** Conversion to the signed type of the given size. */
  function ToSigned(x: int, size: nat): int
    requires IntegerSize(size)
  {
    var m := x % Modulus(size);
    if m < Modulus(size) / 2 then m else m - Modulus(size)
  }

  /** Conversion to the type of the field, an error if that changes the number. */
  function Narrow(n: int, converted: int, rest: seq<Byte>): Parsed<int> {
    if converted == n then Ok(n, rest) else Fail
  }

  function DecodeNumber(f: Field, bs: seq<Byte>): (r: Parsed<int>)
    ensures r.Ok? ==> |r.rest| < |bs|
  {
    match f.ltype
    case Bool =>
      var (v, rest) :- ReadVarint32(bs);
      Ok(if v != 0 then 1 else 0, rest)
    case Varint =>
      var (v, rest) :- ReadVarint64(bs);
      var n := if f.dataSize == 8 then ToInt64(v) else ToInt32(v);
      if IntegerSize(f.dataSize) then Narrow(n, ToSigned(n, f.dataSize), rest) else Fail
    case UVarint =>
      var (v, rest) :- ReadVarint64(bs);
      if IntegerSize(f.dataSize) then Narrow(v, v % Modulus(f.dataSize), rest) else Fail
    case SVarint =>
      var (v, rest) :- ReadVarint64(bs);
      var n := UnZigZag(v);
      if IntegerSize(f.dataSize) then Narrow(n, ToSigned(n, f.dataSize), rest) else Fail
    case Fixed32 => ReadFixed(bs, 4)
    case Fixed64 => ReadFixed(bs, 8)
    case _ => Fail
  }

  /** pb_dec_bytes, pb_dec_string and pb_dec_fixed_length_bytes. */
  function DecodeBlob(f: Field, bs: seq<Byte>): (r: Parsed<seq<Byte>>)
    ensures r.Ok? ==> |r.rest| < |bs|
  {
    var (size, rest) :- ReadVarint32(bs);
    match f.ltype
    case Bytes(header) =>
      if size + header > f.dataSize || |rest| < size then Fail else Ok(rest[..size], rest[size..])
    case String =>
      if size + 1 > f.dataSize || |rest| < size then Fail else Ok(rest[..size], rest[size..])
    case FixedLengthBytes =>
      if size == 0 then Ok(seq(f.dataSize, _ => 0), rest)
      else if size != f.dataSize || |rest| < size then Fail
      else Ok(rest[..size], rest[size..])
    case _ => Fail
  }

  /** The field decoders: the value read over `prior`, which only a submessage is merged into. */
  function DecodeValue(f: Field, prior: Value, bs: seq<Byte>): (r: Parsed<Value>)
    ensures r.Ok? ==> |r.rest| < |bs|
    decreases |bs|, 0
  {
    match f.ltype
    case Bytes(_) =>
      var (data, rest) :- DecodeBlob(f, bs);
      Ok(Blob(data), rest)
    case String =>
      var (data, rest) :- DecodeBlob(f, bs);
      Ok(Blob(data), rest)
    case FixedLengthBytes =>
      var (data, rest) :- DecodeBlob(f, bs);
      Ok(Blob(data), rest)
    case Submessage =>
      var (payload, rest) :- ReadDelimited(bs);
      if f.htype.Repeated? then
        var (slots, _) :- DecodeMessage(f.sub, payload);
        Ok(Sub(slots), rest)
      else if prior.Sub? then
        var (slots, _) :- DecodeNoinit(f.sub, prior.slots, payload);
        Ok(Sub(slots), rest)
      else Fail
    case _ =>
      var (n, rest) :- DecodeNumber(f, bs);
      Ok(Num(n), rest)
  }

  /** A packed array of at most `room` items that fills the payload exactly. */
  function DecodePacked(f: Field, room: nat, payload: seq<Byte>): Option<seq<Value>>
    decreases |payload|
  {
    if payload == [] then Some([])
    else if room == 0 then None
    else
      match DecodeNumber(f, payload)
      case Fail => None
      case Ok(n, rest) =>
        var more :- DecodePacked(f, room - 1, rest);
        Some([Num(n)] + more)
  }

  // ---------------------------------------------------------------------------------------------
  // Fields
  // ---------------------------------------------------------------------------------------------

  /** Where a decode of one message stands: the struct, the required fields met so far, by number, and the
      fixed-count array being filled with the number of items it got. */
  datatype Progress = Progress(
    slots: seq<Slot>,
    seen: set<nat>,
    fixedField: Option<nat>,
    fixedCount: nat)

  function Start(slots: seq<Slot>): Progress {
    Progress(slots, {}, None, 0)
  }

  /** PB_MAX_REQUIRED_FIELDS */
  const MAX_REQUIRED_FIELDS: nat := 64

  /** The fixed-count array last filled got all its items. */
  predicate FixedComplete(fields: seq<Field>, st: Progress) {
    st.fixedField.Some? ==>
      st.fixedField.value < |fields| && st.fixedCount == fields[st.fixedField.value].arraySize
  }

  /** Bookkeeping before field i is decoded; None if a fixed-count array was left incomplete. */
  function Enter(fields: seq<Field>, i: nat, st: Progress): Option<Progress>
    requires i < |fields|
  {
    var f := fields[i];
    if f.htype.Repeated? && !f.Sized() && st.fixedField != Some(i) then
      if FixedComplete(fields, st) then Some(st.(fixedField := Some(i), fixedCount := 0)) else None
    else if f.htype.Required? && RequiredBefore(fields, i) < MAX_REQUIRED_FIELDS then
      Some(st.(seen := st.seen + {RequiredBefore(fields, i)}))
    else Some(st)
  }

  /** Items of an array after new ones were written from index `at` on. */
  function Overwrite(items: seq<Value>, at: nat, more: seq<Value>): seq<Value> {
    if at + |more| <= |items| then items[..at] + more + items[at + |more|..] else items
  }

  function Room(f: Field, count: nat): nat {
    if count < f.arraySize then f.arraySize - count else 0
  }

  /** The storage of a field and, for a fixed-count array, its item count. */
  type Stored = (Slot, nat)

  /** A repeated field; items are appended, or overwrite a fixed-count array from `count` on. */
  function DecodeRepeated(f: Field, wireType: nat, s: Slot, count: nat, bs: seq<Byte>): (r: Parsed<Stored>)
    requires s.Counted? || s.FixedCount?
    ensures r.Ok? ==> |r.rest| < |bs|
    decreases |bs|, 1
  {
    var have := if s.Counted? then |s.items| else count;
    if wireType == 2 && f.ltype.Packable() then
      var (payload, rest) :- ReadDelimited(bs);
      match DecodePacked(f, Room(f, have), payload)
      case None => Fail
      case Some(more) => Ok(Store(s, have, more), rest)
    else if have >= f.arraySize then Fail
    else
      var (v, rest) :- DecodeValue(f, Num(0), bs);
      Ok(Store(s, have, [v]), rest)
  }

  function Store(s: Slot, have: nat, more: seq<Value>): Stored
    requires s.Counted? || s.FixedCount?
  {
    if s.Counted? then (Counted(s.items + more), 0)
    else (FixedCount(Overwrite(s.items, have, more)), have + |more|)
  }

  /** decode_static_field; `count` matters to fixed-count arrays only. */
  function DecodeSlot(f: Field, wireType: nat, s: Slot, count: nat, bs: seq<Byte>): (r: Parsed<Stored>)
    ensures r.Ok? ==> |r.rest| < |bs|
    decreases |bs|, 2
  {
    match f.htype
    case Required =>
      if !s.Plain? then Fail else
      var (v, rest) :- DecodeValue(f, s.value, bs);
      Ok((Plain(v), count), rest)
    case Optional =>
      if f.Sized() then
        if !s.Tracked? then Fail else
        var (v, rest) :- DecodeValue(f, s.value, bs);
        Ok((Tracked(true, v), count), rest)
      else
        if !s.Plain? then Fail else
        var (v, rest) :- DecodeValue(f, s.value, bs);
        Ok((Plain(v), count), rest)
    case Repeated =>
      if f.Sized() && s.Counted? then
        var (stored, rest) :- DecodeRepeated(f, wireType, s, 0, bs);
        Ok((stored.0, count), rest)
      else if !f.Sized() && s.FixedCount? then
        DecodeRepeated(f, wireType, s, count, bs)
      else Fail
    case OneOf =>
      if !s.Union? then Fail else
      var prior := if f.ltype.Submessage? && s.which != f.tag then Sub(InitMessage(f.sub)) else s.value;
      var (v, rest) :- DecodeValue(f, prior, bs);
      Ok((Union(f.tag, v), count), rest)
  }

  /** Field i, once its key has been read. */
  function DecodeField(fields: seq<Field>, i: nat, wireType: nat, st: Progress, bs: seq<Byte>): (r: Parsed<Progress>)
    requires i < |fields|
    ensures r.Ok? ==> |r.rest| < |bs|
    decreases |bs|, 3
  {
    match Enter(fields, i, st)
    case None => Fail
    case Some(st1) =>
      var s := SlotOf(fields, i);
      if s >= |st1.slots| then Fail else
      var (stored, rest) :- DecodeSlot(fields[i], wireType, st1.slots[s], st1.fixedCount, bs);
      Ok(st1.(slots := st1.slots[s := stored.0], fixedCount := stored.1), rest)
  }

  // ---------------------------------------------------------------------------------------------
  // Messages
  // ---------------------------------------------------------------------------------------------

  /** The field with the given tag among the first n, the last such one. */
  function FindField(fields: seq<Field>, tag: nat, n: nat): (r: Option<nat>)
    requires n <= |fields|
    ensures r.Some? ==> r.value < n && fields[r.value].tag == tag
    ensures r.None? ==> forall i | 0 <= i < n :: fields[i].tag != tag
  {
    if n == 0 then None
    else if fields[n - 1].tag == tag then Some(n - 1)
    else FindField(fields, tag, n - 1)
  }

  /** How the loop over the fields ends: at the end of the input or after a zero key, or on an error. */
  datatype Outcome = Done(st: Progress, rest: seq<Byte>, terminated: bool) | Failed

  /** One turn of the loop in pb_decode_noinit. */
  datatype Turn = Next(st: Progress, rest: seq<Byte>) | Stop(out: Outcome)

  function DecodeOne(fields: seq<Field>, st: Progress, bs: seq<Byte>): (t: Turn)
    ensures t.Next? ==> |t.rest| < |bs|
    decreases |bs|, 4
  {
    match DecodeTag(bs)
    case BadTag => Stop(Failed)
    case Zero(rest) => Stop(Done(st, rest, true))
    case Tag(wireType, tag, rest) =>
      match FindField(fields, tag, |fields|)
      case None =>
        (match SkipField(wireType, rest)
         case Fail => Stop(Failed)
         case Ok(_, rest') => Next(st, rest'))
      case Some(i) =>
        match DecodeField(fields, i, wireType, st, rest)
        case Fail => Stop(Failed)
        case Ok(st', rest') => Next(st', rest')
  }

  function DecodeLoop(fields: seq<Field>, st: Progress, bs: seq<Byte>): Outcome
    decreases |bs|, 5
  {
    if bs == [] then Done(st, [], false)
    else
      match DecodeOne(fields, st, bs)
      case Stop(out) => out
      case Next(st', rest) => DecodeLoop(fields, st', rest)
  }

  /** Required fields the decoder keeps track of. */
  function TrackedRequired(fields: seq<Field>): nat {
    var n := RequiredBefore(fields, |fields|);
    if n > MAX_REQUIRED_FIELDS then MAX_REQUIRED_FIELDS else n
  }

  predicate RequiredPresent(fields: seq<Field>, seen: set<nat>) {
    forall k: nat | k < TrackedRequired(fields) :: k in seen
  }

  function Finish(fields: seq<Field>, out: Outcome): Parsed<seq<Slot>> {
    if out.Done? && FixedComplete(fields, out.st) && RequiredPresent(fields, out.st.seen)
    then Ok(out.st.slots, out.rest)
    else Fail
  }

  /** pb_decode_noinit: the struct after decoding over `slots`, and the bytes left in the stream. */
  function DecodeNoinit(fields: seq<Field>, slots: seq<Slot>, bs: seq<Byte>): Parsed<seq<Slot>>
    decreases |bs|, 6
  {
    Finish(fields, DecodeLoop(fields, Start(slots), bs))
  }

  /** pb_decode */
  function DecodeMessage(fields: seq<Field>, bs: seq<Byte>): Parsed<seq<Slot>>
    decreases |bs|, 7
  {
    DecodeNoinit(fields, InitMessage(fields), bs)
  }

  /** pb_decode_delimited: what follows the payload is left in the stream, however much of it was read. */
  function DecodeDelimited(fields: seq<Field>, bs: seq<Byte>): Parsed<seq<Slot>> {
    var (payload, rest) :- ReadDelimited(bs);
    var (slots, _) :- DecodeMessage(fields, payload);
    Ok(slots, rest)
  }
}
