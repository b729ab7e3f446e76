/** MultipartFormData: the in-memory encoder, the encoder that streams to a file, and reading a form back. */
module Multipart {

  import Wire
  import opened Wrappers

  type Byte = Wire.Byte

  type Bytes = seq<Byte>

  const CRLF: Bytes := [13, 10]
  const DASHES: Bytes := [45, 45]
  const COLON_SPACE: Bytes := [58, 32]
  const STREAM_BUFFER_SIZE := 1024

  datatype Header = Header(name: Bytes, value: Bytes)

  datatype EncodingError =
    | InvalidPart
    | InputStreamReadFailed
    | UnexpectedInputStreamLength(bytesExpected: nat, bytesRead: nat)
    | OutputStreamWriteFailed

  datatype Result<+T> = Ok(value: T) | Err(error: EncodingError)

  /** A body part as its stream will deliver it; length is the declared length. */
  datatype Part = Part(headers: seq<Header>, content: Bytes, length: nat)

  // ---------------------------------------------------------------------------------------------
  // What a form is in bytes
  // ---------------------------------------------------------------------------------------------

  datatype BoundaryType = Initial | Encapsulated | Final

  function BoundaryData(boundaryType: BoundaryType, boundary: Bytes): Bytes {
    match boundaryType
    case Initial => DASHES + boundary + CRLF
    case Encapsulated => CRLF + DASHES + boundary + CRLF
    case Final => CRLF + DASHES + boundary + DASHES + CRLF
  }

  function HeaderLine(h: Header): Bytes {
    h.name + COLON_SPACE + h.value
  }

  function HeaderBlock(headers: seq<Header>): Bytes {
    if headers == [] then CRLF else HeaderLine(headers[0]) + CRLF + HeaderBlock(headers[1..])
  }

  /** What stands between two boundaries. */
  function Payload(p: Part): Bytes {
    HeaderBlock(p.headers) + p.content
  }

  function PartBytes(boundary: Bytes, p: Part, initial: bool, final: bool): Bytes {
    BoundaryData(if initial then Initial else Encapsulated, boundary)
    + HeaderBlock(p.headers) + p.content
    + (if final then BoundaryData(Final, boundary) else [])
  }

  /** The parts from the i-th on. */
  function FormFrom(boundary: Bytes, parts: seq<Part>, i: nat): Bytes
    requires i <= |parts|
    decreases |parts| - i
  {
    if i == |parts| then []
    else PartBytes(boundary, parts[i], i == 0, i == |parts| - 1) + FormFrom(boundary, parts, i + 1)
  }

  /** The whole form is what was before and the parts from the i-th on. */
  ghost predicate Reached(boundary: Bytes, parts: seq<Part>, i: nat, before: Bytes)
    requires i <= |parts|
  {
    before + FormFrom(boundary, parts, i) == FormFrom(boundary, parts, 0)
  }

  lemma {:induction false} FormStep(boundary: Bytes, parts: seq<Part>, i: nat, before: Bytes)
    requires i < |parts| && Reached(boundary, parts, i, before)
    ensures Reached(boundary, parts, i + 1, before + PartBytes(boundary, parts[i], i == 0, i == |parts| - 1))
  {
    var bytes := PartBytes(boundary, parts[i], i == 0, i == |parts| - 1);
    assert before + bytes + FormFrom(boundary, parts, i + 1) == before + (bytes + FormFrom(boundary, parts, i + 1));
  }

  lemma {:induction false} FormStarts(boundary: Bytes, parts: seq<Part>)
    ensures Reached(boundary, parts, 0, [])
  {
    assert [] + FormFrom(boundary, parts, 0) == FormFrom(boundary, parts, 0);
  }

  /** The first part whose stream does not hold what was declared. */
  function FirstMismatch(parts: seq<Part>): (r: Option<Part>)
    ensures r.None? <==> forall p | p in parts :: |p.content| == p.length
    ensures r.Some? ==> r.value in parts && |r.value.content| != r.value.length
  {
    if parts == [] then None
    else if |parts[0].content| != parts[0].length then Some(parts[0])
    else
      assert parts == [parts[0]] + parts[1..];
      FirstMismatch(parts[1..])
  }

  lemma {:induction false} NothingLeft(boundary: Bytes, parts: seq<Part>, before: Bytes)
    requires Reached(boundary, parts, |parts|, before)
    ensures before == FormFrom(boundary, parts, 0)
    ensures FirstMismatch(parts[|parts|..]).None?
  {
  }

  lemma {:induction false} FirstMismatchStep(parts: seq<Part>, i: nat)
    requires i < |parts|
    ensures FirstMismatch(parts[i..])
            == if |parts[i].content| != parts[i].length then Some(parts[i]) else FirstMismatch(parts[i + 1..])
  {
    assert parts[i..][1..] == parts[i + 1..];
  }

  /** What encode() gives when no stream fails. */
  function Encoded(boundary: Bytes, parts: seq<Part>): Result<Bytes> {
    match FirstMismatch(parts)
    case None => Ok(FormFrom(boundary, parts, 0))
    case Some(p) => Err(UnexpectedInputStreamLength(p.length, |p.content|))
  }

  /** The streaming encoder stops at the declared length, and at the end of a shorter stream. */
  function Sent(p: Part): Part {
    if |p.content| <= p.length then p else p.(content := p.content[..p.length])
  }

  function AllSent(parts: seq<Part>): (r: seq<Part>)
    ensures |r| == |parts|
    ensures forall i | 0 <= i < |r| :: r[i] == Sent(parts[i])
  {
    if parts == [] then [] else [Sent(parts[0])] + AllSent(parts[1..])
  }

  /** What writeEncodedData writes when no stream fails and there is room. */
  function Streamed(boundary: Bytes, parts: seq<Part>): Bytes {
    FormFrom(boundary, AllSent(parts), 0)
  }

  /** The streaming encoder writes what encode() gives exactly when every stream holds what was declared; and it writes
      every stream in full exactly when none holds more. */
  lemma {:induction false} StreamedIsEncodedIff(boundary: Bytes, parts: seq<Part>)
    ensures Encoded(boundary, parts) == Ok(Streamed(boundary, parts)) <==> forall p | p in parts :: |p.content| == p.length
    ensures Streamed(boundary, parts) == FormFrom(boundary, parts, 0) <==> forall p | p in parts :: |p.content| <= p.length
  {
    StreamedLength(boundary, parts, 0);
    if forall p | p in parts :: |p.content| <= p.length {
      assert AllSent(parts) == parts;
    } else {
      assert Omitted(parts, 0) > 0;
    }
  }

  lemma {:induction false} SentPartLength(boundary: Bytes, p: Part, initial: bool, final: bool)
    ensures |PartBytes(boundary, p, initial, final)| - |PartBytes(boundary, Sent(p), initial, final)|
            == if |p.content| > p.length then |p.content| - p.length else 0
  {
    hide BoundaryData, HeaderBlock;
  }

  /** How many bytes the streaming encoder leaves out. */
  function Omitted(parts: seq<Part>, i: nat): (n: nat)
    requires i <= |parts|
    ensures n == 0 <==> forall j | i <= j < |parts| :: |parts[j].content| <= parts[j].length
    decreases |parts| - i
  {
    if i == |parts| then 0
    else (if |parts[i].content| > parts[i].length then |parts[i].content| - parts[i].length else 0) + Omitted(parts, i + 1)
  }

  lemma {:induction false} StreamedLength(boundary: Bytes, parts: seq<Part>, i: nat)
    requires i <= |parts|
    ensures |FormFrom(boundary, parts, i)| - |FormFrom(boundary, AllSent(parts), i)| == Omitted(parts, i)
    decreases |parts| - i
  {
    hide PartBytes, Sent, AllSent;
    if i < |parts| {
      SentPartLength(boundary, parts[i], i == 0, i == |parts| - 1);
      StreamedLength(boundary, parts, i + 1);
    }
  }

  /** Where encode() reports a wrong length, the streaming encoder may write a form all the same, even a correct one. */
  lemma {:induction false} WrongLengthIsStreamed(boundary: Bytes)
    ensures var parts := [Part([], [1, 2], 1)];
            && Encoded(boundary, parts) == Err(UnexpectedInputStreamLength(1, 2))
            && Streamed(boundary, parts) == Encoded(boundary, [Part([], [1], 1)]).value
  {
    var parts := [Part([], [1, 2], 1)];
    assert parts[0].content[..1] == [1];
    assert AllSent(parts) == [Part([], [1], 1)];
    assert FirstMismatch([Part([], [1], 1)]).None?;
  }

  // ---------------------------------------------------------------------------------------------
  // The streams
  // ---------------------------------------------------------------------------------------------

  /** Delivers its content in reads of any size it likes, or fails. */
  class InputStream {
    const content: Bytes
    var position: nat
    var streamError: bool

    ghost predicate Valid()
      reads this
    {
      position <= |content|
    }

    constructor (content: Bytes)
      ensures this.content == content && position == 0 && !streamError && Valid()
    {
      this.content := content;
      position, streamError := 0, false;
    }

    /** hasBytesAvailable; at the end a stream may still answer that one has to try. */
    method HasBytesAvailable() returns (available: bool)
      requires Valid()
      ensures position < |content| ==> available
    {
      available := true;
      if position == |content| {
        available := *;
      }
    }

    /** read(_:maxLength:) */
    method Read(buffer: array<Byte>, maxLength: nat) returns (bytesRead: int)
      requires Valid() && !streamError && 0 < maxLength <= buffer.Length
      modifies this, buffer
      ensures Valid()
      ensures !streamError ==> (bytesRead <= 0 <==> old(position) == |content|)
      ensures bytesRead <= 0 ==> position == old(position)
      ensures bytesRead > 0 ==> bytesRead <= maxLength && position == old(position) + bytesRead
                                && buffer[..bytesRead] == content[old(position)..position]
    {
      var fails: bool := *;
      if fails {
        streamError := true;
        return -1;
      }
      if position == |content| {
        return 0;
      }
      var n :| 1 <= n <= maxLength && position + n <= |content|;
      for i := 0 to n
        invariant position == old(position) && !streamError
        invariant forall j | 0 <= j < i :: buffer[j] == content[position + j]
      {
        buffer[i] := content[position + i];
      }
      position := position + n;
      return n;
    }
  }

  /** Accepts as much of each write as it likes, as long as there is room, or fails. */
  class OutputStream {
    const capacity: Option<nat>
    var written: Bytes
    var streamError: bool

    ghost predicate Valid()
      reads this
    {
      written == Room(capacity, written)
    }

    constructor (capacity: Option<nat>)
      ensures this.capacity == capacity && written == [] && !streamError && Valid()
    {
      this.capacity := capacity;
      written, streamError := [], false;
    }

    function HasSpaceAvailable(): bool
      reads this
    {
      capacity.None? || |written| < capacity.value
    }

    /** write(_:maxLength:) */
    method Write(buffer: Bytes) returns (bytesWritten: int)
      requires Valid() && !streamError && buffer != [] && HasSpaceAvailable()
      modifies this
      ensures Valid()
      ensures !streamError ==> 0 < bytesWritten <= |buffer| && written == old(written) + buffer[..bytesWritten]
      ensures streamError ==> written == old(written)
    {
      var fails: bool := *;
      if fails {
        streamError := true;
        return -1;
      }
      assert |written| + 1 <= |written| + |buffer|;
      bytesWritten :| 1 <= bytesWritten <= |buffer|
                      && (capacity.Some? ==> |written| + bytesWritten <= capacity.value);
      written := written + buffer[..bytesWritten];
    }
  }

  /** The bytes for which there is room. */
  function Room(capacity: Option<nat>, bytes: Bytes): Bytes {
    if capacity.None? || |bytes| <= capacity.value then bytes else bytes[..capacity.value]
  }

  /** Streaming refines encoding in memory: where encode() succeeds, the file gets the same bytes, exactly when there
      is room for them. Without room the rest is dropped, and no error says so. */
  lemma {:induction false} StreamingRefinesEncoding(boundary: Bytes, parts: seq<Part>, capacity: Option<nat>)
    requires Encoded(boundary, parts).Ok?
    ensures var bytes := Encoded(boundary, parts).value;
            && Streamed(boundary, parts) == bytes
            && (Room(capacity, Streamed(boundary, parts)) == bytes
                <==> capacity.None? || |bytes| <= capacity.value)
  {
    assert AllSent(parts) == parts;
  }

  lemma {:induction false} RoomOfMore(capacity: Option<nat>, a: Bytes, b: Bytes)
    ensures Room(capacity, Room(capacity, a) + b) == Room(capacity, a + b)
  {
    if capacity.Some? && |a| > capacity.value {
      assert (a[..capacity.value] + b)[..capacity.value] == (a + b)[..capacity.value];
    }
  }

  /** The position a stream is left at after sending a part. */
  lemma {:induction false} SentPrefix(p: Part, position: nat)
    requires position <= |p.content| && position <= p.length
    requires position == |p.content| || position == p.length
    ensures p.content[..position] == Sent(p).content
  {
  }

  /** A chunk read from position `from` to `to`, written after what was before it. */
  lemma {:induction false} ChunkWritten(capacity: Option<nat>, before: Bytes, content: Bytes, from: nat, to: nat)
    requires from <= to <= |content|
    ensures Room(capacity, Room(capacity, before + content[..from]) + content[from..to])
            == Room(capacity, before + content[..to])
  {
    RoomOfMore(capacity, before + content[..from], content[from..to]);
    assert before + content[..from] + content[from..to] == before + content[..to];
  }

  // ---------------------------------------------------------------------------------------------
  // The encoders
  // ---------------------------------------------------------------------------------------------

  class BodyPart {
    const headers: seq<Header>
    const bodyStream: InputStream
    const bodyContentLength: nat
    var hasInitialBoundary: bool
    var hasFinalBoundary: bool

    constructor (headers: seq<Header>, bodyStream: InputStream, bodyContentLength: nat)
      ensures this.headers == headers && this.bodyStream == bodyStream && this.bodyContentLength == bodyContentLength
      ensures !hasInitialBoundary && !hasFinalBoundary
    {
      this.headers := headers;
      this.bodyStream := bodyStream;
      this.bodyContentLength := bodyContentLength;
      hasInitialBoundary, hasFinalBoundary := false, false;
    }

    function AsPart(): Part {
      Part(headers, bodyStream.content, bodyContentLength)
    }
  }

  lemma {:induction false} HeaderStep(headers: seq<Header>, i: nat, before: Bytes)
    requires i < |headers|
    ensures before + HeaderBlock(headers[i..]) == before + HeaderLine(headers[i]) + CRLF + HeaderBlock(headers[i + 1..])
  {
    assert headers[i..][1..] == headers[i + 1..];
  }

  /** encodeHeaders */
  method EncodeHeaders(headers: seq<Header>) returns (bytes: Bytes)
    ensures bytes == HeaderBlock(headers)
  {
    bytes := [];
    assert HeaderBlock([]) == CRLF;
    hide HeaderBlock, HeaderLine;
    for i := 0 to |headers|
      invariant bytes + HeaderBlock(headers[i..]) == HeaderBlock(headers)
    {
      HeaderStep(headers, i, bytes);
      bytes := bytes + HeaderLine(headers[i]) + CRLF;
    }
    assert headers[|headers|..] == [];
    bytes := bytes + CRLF;
  }

  /** encodeBodyStream */
  method EncodeBodyStream(part: BodyPart) returns (r: Result<Bytes>)
    requires part.bodyStream.Valid() && !part.bodyStream.streamError && part.bodyStream.position == 0
    modifies part.bodyStream
    ensures part.bodyStream.Valid()
    ensures part.bodyStream.streamError ==> r == Err(InputStreamReadFailed)
    ensures !part.bodyStream.streamError ==>
      r == if |part.bodyStream.content| == part.bodyContentLength then Ok(part.bodyStream.content)
           else Err(UnexpectedInputStreamLength(part.bodyContentLength, |part.bodyStream.content|))
  {
    var inputStream := part.bodyStream;
    var encoded: Bytes := [];
    var available := inputStream.HasBytesAvailable();
    while available
      invariant inputStream.Valid() && !inputStream.streamError
      invariant encoded == inputStream.content[..inputStream.position]
      invariant inputStream.position < |inputStream.content| ==> available
      decreases |inputStream.content| - inputStream.position, available
    {
      var buffer := new Byte[STREAM_BUFFER_SIZE];
      ghost var before := inputStream.position;
      var bytesRead := inputStream.Read(buffer, STREAM_BUFFER_SIZE);
      if inputStream.streamError {
        return Err(InputStreamReadFailed);
      }
      if bytesRead > 0 {
        encoded := encoded + buffer[..bytesRead];
        assert inputStream.content[..before] + inputStream.content[before..inputStream.position]
            == inputStream.content[..inputStream.position];
      } else {
        break;
      }
      available := inputStream.HasBytesAvailable();
    }
    assert encoded == inputStream.content;
    if |encoded| != part.bodyContentLength {
      return Err(UnexpectedInputStreamLength(part.bodyContentLength, |encoded|));
    }
    return Ok(encoded);
  }

  /** encode(_ bodyPart:) */
  method EncodePart(boundary: Bytes, part: BodyPart) returns (r: Result<Bytes>)
    requires part.bodyStream.Valid() && !part.bodyStream.streamError && part.bodyStream.position == 0
    modifies part.bodyStream
    ensures part.bodyStream.Valid()
    ensures part.bodyStream.streamError ==> r == Err(InputStreamReadFailed)
    ensures !part.bodyStream.streamError ==>
      r == if |part.bodyStream.content| == part.bodyContentLength
           then Ok(PartBytes(boundary, part.AsPart(), part.hasInitialBoundary, part.hasFinalBoundary))
           else Err(UnexpectedInputStreamLength(part.bodyContentLength, |part.bodyStream.content|))
  {
    var encoded := BoundaryData(if part.hasInitialBoundary then Initial else Encapsulated, boundary);
    var headerData := EncodeHeaders(part.headers);
    encoded := encoded + headerData;
    var bodyStreamData := EncodeBodyStream(part);
    if bodyStreamData.Err? {
      return bodyStreamData;
    }
    encoded := encoded + bodyStreamData.value;
    if part.hasFinalBoundary {
      encoded := encoded + BoundaryData(Final, boundary);
    }
    assert encoded == PartBytes(boundary, part.AsPart(), part.hasInitialBoundary, part.hasFinalBoundary);
    return Ok(encoded);
  }

  /** write(_ buffer:to:) */
  method WriteBuffer(data: Bytes, outputStream: OutputStream) returns (r: Result<()>)
    requires outputStream.Valid() && !outputStream.streamError
    modifies outputStream
    ensures outputStream.Valid()
    ensures r == if outputStream.streamError then Err(OutputStreamWriteFailed) else Ok(())
    ensures !outputStream.streamError ==>
      outputStream.written == Room(outputStream.capacity, old(outputStream.written) + data)
  {
    var buffer := data;
    var bytesToWrite := |buffer|;
    ghost var goal := old(outputStream.written) + data;
    while bytesToWrite > 0 && outputStream.HasSpaceAvailable()
      invariant bytesToWrite == |buffer| && outputStream.Valid() && !outputStream.streamError
      invariant outputStream.written + buffer == goal
      decreases bytesToWrite
    {
      var bytesWritten := outputStream.Write(buffer);
      if outputStream.streamError {
        return Err(OutputStreamWriteFailed);
      }
      bytesToWrite := bytesToWrite - bytesWritten;
      assert buffer == buffer[..bytesWritten] + buffer[bytesWritten..];
      buffer := buffer[bytesWritten..];
    }
    return Ok(());
  }

  /** writeBodyStream */
  method WriteBodyStream(part: BodyPart, outputStream: OutputStream) returns (r: Result<()>)
    requires part.bodyStream.Valid() && !part.bodyStream.streamError && part.bodyStream.position == 0
    requires outputStream.Valid() && !outputStream.streamError
    modifies part.bodyStream, outputStream
    ensures part.bodyStream.Valid() && outputStream.Valid()
    ensures r == if part.bodyStream.streamError then Err(InputStreamReadFailed)
                 else if outputStream.streamError then Err(OutputStreamWriteFailed) else Ok(())
    ensures r.Ok? ==> outputStream.written
                        == Room(outputStream.capacity, old(outputStream.written) + Sent(part.AsPart()).content)
  {
    assert Room(outputStream.capacity, outputStream.written) == outputStream.written;
    hide Room, Sent;
    var inputStream := part.bodyStream;
    var bytesLeftToRead: nat := part.bodyContentLength;
    ghost var before := outputStream.written;
    assert before + inputStream.content[..0] == before;
    var available := inputStream.HasBytesAvailable();
    while available && bytesLeftToRead > 0
      invariant inputStream.Valid() && !inputStream.streamError
      invariant outputStream.Valid() && !outputStream.streamError
      invariant bytesLeftToRead + inputStream.position == part.bodyContentLength
      invariant outputStream.written == Room(outputStream.capacity, before + inputStream.content[..inputStream.position])
      invariant inputStream.position < |inputStream.content| ==> available
      decreases bytesLeftToRead
    {
      var bufferSize := if STREAM_BUFFER_SIZE < bytesLeftToRead then STREAM_BUFFER_SIZE else bytesLeftToRead;
      var buffer := new Byte[bufferSize];
      ghost var p := inputStream.position;
      var bytesRead := inputStream.Read(buffer, bufferSize);
      if inputStream.streamError {
        return Err(InputStreamReadFailed);
      }
      if bytesRead > 0 {
        ChunkWritten(outputStream.capacity, before, inputStream.content, p, inputStream.position);
        var written := WriteBuffer(buffer[..bytesRead], outputStream);
        if written.Err? {
          return written;
        }
        bytesLeftToRead := bytesLeftToRead - bytesRead;
      } else {
        break;
      }
      available := inputStream.HasBytesAvailable();
    }
    SentPrefix(part.AsPart(), inputStream.position);
    return Ok(());
  }

  /** The pieces WritePart writes, one after the other, are the bytes of the part sent. */
  lemma {:induction false} SentBytes(boundary: Bytes, p: Part, initial: bool, final: bool, before: Bytes)
    ensures var soFar := before + BoundaryData(if initial then Initial else Encapsulated, boundary)
                         + HeaderBlock(p.headers) + Sent(p).content;
            before + PartBytes(boundary, Sent(p), initial, final)
              == if final then soFar + BoundaryData(Final, boundary) else soFar
  {
    hide BoundaryData, HeaderBlock;
    assert Sent(p).headers == p.headers;
  }

  /** write(_ bodyPart:to:) */
  method WritePart(boundary: Bytes, part: BodyPart, outputStream: OutputStream) returns (r: Result<()>)
    requires part.bodyStream.Valid() && !part.bodyStream.streamError && part.bodyStream.position == 0
    requires outputStream.Valid() && !outputStream.streamError
    modifies part.bodyStream, outputStream
    ensures part.bodyStream.Valid() && outputStream.Valid()
    ensures r == if part.bodyStream.streamError then Err(InputStreamReadFailed)
                 else if outputStream.streamError then Err(OutputStreamWriteFailed) else Ok(())
    ensures r.Ok? ==>
      outputStream.written
        == Room(outputStream.capacity, old(outputStream.written)
             + PartBytes(boundary, Sent(part.AsPart()), part.hasInitialBoundary, part.hasFinalBoundary))
  {
    hide Room, BoundaryData, HeaderBlock, Sent, PartBytes;
    ghost var before, c := outputStream.written, outputStream.capacity;
    var initialData := BoundaryData(if part.hasInitialBoundary then Initial else Encapsulated, boundary);
    r := WriteBuffer(initialData, outputStream);
    if r.Err? {
      return;
    }
    var headerData := EncodeHeaders(part.headers);
    r := WriteBuffer(headerData, outputStream);
    RoomOfMore(c, before + initialData, headerData);
    if r.Err? {
      return;
    }
    r := WriteBodyStream(part, outputStream);
    ghost var sent := Sent(part.AsPart());
    RoomOfMore(c, before + initialData + headerData, sent.content);
    if r.Err? {
      return;
    }
    ghost var soFar := before + initialData + headerData + sent.content;
    if part.hasFinalBoundary {
      r := WriteBuffer(BoundaryData(Final, boundary), outputStream);
      RoomOfMore(c, soFar, BoundaryData(Final, boundary));
    }
    SentBytes(boundary, part.AsPart(), part.hasInitialBoundary, part.hasFinalBoundary, before);
  }

  function PartsOf(bodyParts: seq<BodyPart>): (r: seq<Part>)
    ensures |r| == |bodyParts|
    ensures forall i | 0 <= i < |r| :: r[i] == bodyParts[i].AsPart()
  {
    seq(|bodyParts|, i requires 0 <= i < |bodyParts| => bodyParts[i].AsPart())
  }

  function StreamsOf(bodyParts: seq<BodyPart>): (r: set<InputStream>)
    ensures forall i | 0 <= i < |bodyParts| :: bodyParts[i].bodyStream in r
  {
    set p | p in bodyParts :: p.bodyStream
  }

  class FormData {
    const boundary: Bytes
    var bodyParts: seq<BodyPart>
    var bodyPartError: Option<EncodingError>

    constructor (boundary: Bytes)
      ensures this.boundary == boundary && bodyParts == [] && bodyPartError.None? && Unused()
    {
      this.boundary := boundary;
      bodyParts, bodyPartError := [], None;
    }

    function Streams(): set<InputStream>
      reads this
    {
      StreamsOf(bodyParts)
    }

    /** No part and no stream is used twice. */
    ghost predicate Distinct()
      reads this
    {
      forall i, j | 0 <= i < j < |bodyParts| ::
        bodyParts[i] != bodyParts[j] && bodyParts[i].bodyStream != bodyParts[j].bodyStream
    }

    /** No stream has failed, and those from the i-th on have not been read. */
    ghost predicate Unread(i: nat)
      reads this, Streams()
    {
      forall j | 0 <= j < |bodyParts| ::
        !bodyParts[j].bodyStream.streamError && (i <= j ==> bodyParts[j].bodyStream.position == 0)
    }

    /** The first part has the initial boundary and the last the final one. */
    ghost predicate Flagged()
      reads this, bodyParts
    {
      forall j | 0 <= j < |bodyParts| ::
        bodyParts[j].hasInitialBoundary == (j == 0) && bodyParts[j].hasFinalBoundary == (j == |bodyParts| - 1)
    }

    /** No part has been encoded yet. */
    ghost predicate Unused()
      reads this, bodyParts, Streams()
    {
      Distinct() && Unread(0) && forall i | 0 <= i < |bodyParts| :: !bodyParts[i].hasInitialBoundary && !bodyParts[i].hasFinalBoundary
    }

    function Parts(): seq<Part>
      reads this
    {
      PartsOf(bodyParts)
    }

    ghost predicate SomeStreamFailed()
      reads this, Streams()
    {
      exists i | 0 <= i < |bodyParts| :: bodyParts[i].bodyStream.streamError
    }

    /** append(_:withLength:headers:) */
    method Append(stream: InputStream, length: nat, headers: seq<Header>)
      requires Unused() && stream !in Streams() && stream.position == 0 && !stream.streamError
      modifies this`bodyParts
      ensures Unused() && Parts() == old(Parts()) + [Part(headers, stream.content, length)]
    {
      var bodyPart := new BodyPart(headers, stream, length);
      assert forall p | p in bodyParts :: p.bodyStream in Streams();
      bodyParts := bodyParts + [bodyPart];
    }

    /** setBodyPartError; the first error stays. */
    method SetBodyPartError(error: EncodingError)
      modifies this`bodyPartError
      ensures bodyPartError == Some(if old(bodyPartError).Some? then old(bodyPartError).value else error)
    {
      if bodyPartError.Some? {
        return;
      }
      bodyPartError := Some(error);
    }

    /** The boundary flags of the first and the last part, as both encoders set them. */
    method SetBoundaryFlags()
      requires Unused()
      modifies bodyParts
      ensures Flagged() && Unread(0)
    {
      if bodyParts != [] {
        bodyParts[0].hasInitialBoundary := true;
        bodyParts[|bodyParts| - 1].hasFinalBoundary := true;
      }
    }

    lemma {:induction false} NoneFailed()
      requires Unread(|bodyParts|)
      ensures !SomeStreamFailed()
    {
    }

    /** One part of encode()'s loop. */
    method EncodeNext(i: nat) returns (r: Result<Bytes>)
      requires i < |bodyParts| && Distinct() && Flagged() && Unread(i)
      modifies bodyParts[i].bodyStream
      ensures Flagged() && bodyParts[i].bodyStream.streamError == SomeStreamFailed()
      ensures r.Ok? ==> Unread(i + 1)
      ensures bodyParts[i].bodyStream.streamError ==> r == Err(InputStreamReadFailed)
      ensures !bodyParts[i].bodyStream.streamError ==>
        r == if |bodyParts[i].bodyStream.content| == bodyParts[i].bodyContentLength
             then Ok(PartBytes(boundary, bodyParts[i].AsPart(), i == 0, i == |bodyParts| - 1))
             else Err(UnexpectedInputStreamLength(bodyParts[i].bodyContentLength, |bodyParts[i].bodyStream.content|))
    {
      hide PartBytes;
      ghost var stream := bodyParts[i].bodyStream;
      assert forall j | 0 <= j < |bodyParts| && j != i :: bodyParts[j].bodyStream != stream;
      r := EncodePart(boundary, bodyParts[i]);
    }

    /** The loop of encode(). */
    method EncodeParts() returns (r: Result<Bytes>)
      requires Distinct() && Flagged() && Unread(0)
      modifies Streams()
      ensures r == if SomeStreamFailed() then Err(InputStreamReadFailed) else Encoded(boundary, Parts())
    {
      hide FirstMismatch, PartBytes, FormFrom, Reached, StreamsOf, PartsOf, Flagged, Unread, Distinct, SomeStreamFailed;
      ghost var parts := Parts();
      var encoded: Bytes := [];
      FormStarts(boundary, parts);
      for i := 0 to |bodyParts|
        invariant Flagged() && Unread(i)
        invariant FirstMismatch(parts) == FirstMismatch(parts[i..])
        invariant Reached(boundary, parts, i, encoded)
      {
        FirstMismatchStep(parts, i);
        FormStep(boundary, parts, i, encoded);
        var encodedData := EncodeNext(i);
        if encodedData.Err? {
          return encodedData;
        }
        encoded := encoded + encodedData.value;
      }
      NoneFailed();
      NothingLeft(boundary, parts, encoded);
      return Ok(encoded);
    }

    /** encode() */
    method Encode() returns (r: Result<Bytes>)
      requires Unused()
      modifies bodyParts, Streams()
      ensures r == if bodyPartError.Some? then Err(bodyPartError.value)
                   else if SomeStreamFailed() then Err(InputStreamReadFailed)
                   else Encoded(boundary, Parts())
    {
      if bodyPartError.Some? {
        return Err(bodyPartError.value);
      }
      SetBoundaryFlags();
      hide Encoded, StreamsOf, PartsOf, Flagged, Unread, Distinct, SomeStreamFailed;
      r := EncodeParts();
    }

    /** One part of writeEncodedData's loop. */
    method WriteNext(i: nat, outputStream: OutputStream) returns (r: Result<()>)
      requires i < |bodyParts| && Distinct() && Flagged() && Unread(i)
      requires outputStream.Valid() && !outputStream.streamError
      modifies bodyParts[i].bodyStream, outputStream
      ensures outputStream.Valid() && Flagged()
      ensures r.Ok? ==> Unread(i + 1)
      ensures r == if SomeStreamFailed() then Err(InputStreamReadFailed)
                   else if outputStream.streamError then Err(OutputStreamWriteFailed) else Ok(())
      ensures r.Ok? ==>
        outputStream.written
          == Room(outputStream.capacity, old(outputStream.written)
               + PartBytes(boundary, Sent(bodyParts[i].AsPart()), i == 0, i == |bodyParts| - 1))
    {
      hide PartBytes, Room, Sent;
      ghost var stream := bodyParts[i].bodyStream;
      assert forall j | 0 <= j < |bodyParts| && j != i :: bodyParts[j].bodyStream != stream;
      r := WritePart(boundary, bodyParts[i], outputStream);
    }

    /** The loop of writeEncodedData. */
    method WriteParts(outputStream: OutputStream) returns (r: Result<()>)
      requires Distinct() && Flagged() && Unread(0)
      requires outputStream.written == [] && !outputStream.streamError
      modifies Streams(), outputStream
      ensures r == if SomeStreamFailed() then Err(InputStreamReadFailed)
                   else if outputStream.streamError then Err(OutputStreamWriteFailed) else Ok(())
      ensures r.Ok? ==> outputStream.written == Room(outputStream.capacity, Streamed(boundary, Parts()))
    {
      assert Room(outputStream.capacity, []) == [];
      ghost var sent := AllSent(Parts());
      assert Streamed(boundary, Parts()) == FormFrom(boundary, sent, 0);
      hide PartBytes, Room, Sent, AllSent, FormFrom, Reached, Streamed, StreamsOf, PartsOf, Flagged, Unread, Distinct,
           SomeStreamFailed;
      ghost var before: Bytes := [];
      FormStarts(boundary, sent);
      for i := 0 to |bodyParts|
        invariant Flagged() && Unread(i)
        invariant outputStream.Valid() && !outputStream.streamError
        invariant outputStream.written == Room(outputStream.capacity, before)
        invariant Reached(boundary, sent, i, before)
      {
        ghost var bytes := PartBytes(boundary, sent[i], i == 0, i == |bodyParts| - 1);
        RoomOfMore(outputStream.capacity, before, bytes);
        FormStep(boundary, sent, i, before);
        r := WriteNext(i, outputStream);
        if r.Err? {
          return;
        }
        before := before + bytes;
      }
      NoneFailed();
      NothingLeft(boundary, sent, before);
      return Ok(());
    }

    /** writeEncodedData, once the file is open */
    method WriteEncodedData(outputStream: OutputStream) returns (r: Result<()>)
      requires Unused() && outputStream.written == [] && !outputStream.streamError
      modifies bodyParts, Streams(), outputStream
      ensures bodyPartError.Some? ==> r == Err(bodyPartError.value) && outputStream.written == []
      ensures bodyPartError.None? ==>
        r == if SomeStreamFailed() then Err(InputStreamReadFailed)
             else if outputStream.streamError then Err(OutputStreamWriteFailed) else Ok(())
      ensures r.Ok? ==> outputStream.written == Room(outputStream.capacity, Streamed(boundary, Parts()))
    {
      if bodyPartError.Some? {
        return Err(bodyPartError.value);
      }
      SetBoundaryFlags();
      hide Room, Streamed, StreamsOf, PartsOf, Flagged, Unread, Distinct, SomeStreamFailed;
      r := WriteParts(outputStream);
    }
  }
}
