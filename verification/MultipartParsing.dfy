/** Reading a multipart form back, as section 5.1.1 of RFC 2046 describes its syntax: the form comes back exactly when
    no delimiter occurs inside a part and no header is ambiguous. */
module MultipartParsing {

  import opened Wrappers
  import opened Multipart

  // The syntax as the parser has it, apart from the encoders: carriage return and line feed, two hyphens, colon and space.
  const LINE_END: Bytes := [13, 10]
  const HYPHENS: Bytes := [45, 45]
  const COLON: Bytes := [58, 32]

  // ---------------------------------------------------------------------------------------------
  // Searching
  // ---------------------------------------------------------------------------------------------

  predicate StartsWith(s: Bytes, pattern: Bytes) {
    |pattern| <= |s| && s[..|pattern|] == pattern
  }

  /** Where a pattern first occurs. */
  function Find(s: Bytes, pattern: Bytes): (r: Option<nat>)
    ensures r.Some? ==> r.value + |pattern| <= |s| && s[r.value..r.value + |pattern|] == pattern
  {
    if StartsWith(s, pattern) then Some(0)
    else if s == [] then None
    else
      match Find(s[1..], pattern)
      case None => None
      case Some(i) => Some(i + 1)
  }

  lemma {:induction false} FindStep(s: Bytes, pattern: Bytes)
    requires s != [] && !StartsWith(s, pattern)
    ensures Find(s, pattern) == match Find(s[1..], pattern) case None => None case Some(i) => Some(i + 1)
  {
  }

  lemma {:induction false} NoEarlyStart(p: Bytes, pattern: Bytes, t: Bytes)
    requires p != [] && pattern != [] && pattern[0] !in pattern[1..]
    requires !StartsWith(p, pattern)
    ensures !StartsWith(p + pattern + t, pattern)
  {
    var s := p + pattern + t;
    if |pattern| <= |p| {
      assert s[..|pattern|] == p[..|pattern|];
    } else {
      assert s[..|pattern|][|p|] == s[|p|] == pattern[0];
      assert pattern[|p|] == pattern[1..][|p| - 1];
      assert pattern[|p|] in pattern[1..];
    }
  }

  lemma {:induction false} TailOf(p: Bytes, q: Bytes, t: Bytes)
    requires p != []
    ensures (p + q + t)[1..] == p[1..] + q + t
  {
  }

  lemma {:induction false} FindHere(pattern: Bytes, t: Bytes)
    ensures Find([] + pattern + t, pattern) == Some(0)
  {
    assert ([] + pattern + t)[..|pattern|] == pattern;
  }

  /** A pattern whose first byte occurs in it only once cannot straddle the end of what precedes it. */
  lemma {:induction false} FindAfter(p: Bytes, pattern: Bytes, t: Bytes)
    requires pattern != [] && pattern[0] !in pattern[1..]
    requires Find(p, pattern).None?
    ensures Find(p + pattern + t, pattern) == Some(|p|)
    decreases |p|
  {
    if p == [] {
      hide Find;
      FindHere(pattern, t);
    } else {
      assert !StartsWith(p, pattern) && Find(p[1..], pattern).None?;
      hide StartsWith, Find;
      NoEarlyStart(p, pattern, t);
      FindStep(p + pattern + t, pattern);
      TailOf(p, pattern, t);
      FindAfter(p[1..], pattern, t);
    }
  }

  /** What follows does not move the first occurrence. */
  lemma {:induction false} FindBefore(p: Bytes, pattern: Bytes, t: Bytes)
    requires Find(p, pattern).Some?
    ensures Find(p + t, pattern) == Find(p, pattern)
    decreases |p|
  {
    if StartsWith(p, pattern) {
      assert (p + t)[..|pattern|] == p[..|pattern|];
    } else {
      assert p != [];
      if StartsWith(p + t, pattern) {
        FindShort(p, pattern, t);
      }
      FindBefore(p[1..], pattern, t);
      assert (p + t)[1..] == p[1..] + t;
    }
  }

  lemma {:induction false} FindShort(p: Bytes, pattern: Bytes, t: Bytes)
    requires Find(p, pattern).Some? && StartsWith(p + t, pattern)
    ensures StartsWith(p, pattern)
  {
    assert (p + t)[..|pattern|] == p[..|pattern|];
  }

  // ---------------------------------------------------------------------------------------------
  // Splitting at the delimiters
  // ---------------------------------------------------------------------------------------------

  function Delimiter(boundary: Bytes): Bytes {
    LINE_END + HYPHENS + boundary
  }

  /** The parts after a boundary: either the end, or a line break, a part up to the next delimiter, and the rest. */
  function SplitRest(s: Bytes, boundary: Bytes): Option<seq<Bytes>>
    decreases |s|
  {
    if s == HYPHENS + LINE_END then Some([])
    else if !StartsWith(s, LINE_END) then None
    else
      match Find(s[2..], Delimiter(boundary))
      case None => None
      case Some(i) =>
        var rest := SplitRest(s[2 + i + |Delimiter(boundary)|..], boundary);
        if rest.None? then None else Some([s[2..2 + i]] + rest.value)
  }

  function Split(s: Bytes, boundary: Bytes): Option<seq<Bytes>> {
    if StartsWith(s, HYPHENS + boundary) then SplitRest(s[|HYPHENS + boundary|..], boundary) else None
  }

  function Payloads(parts: seq<Part>): (r: seq<Bytes>)
    ensures |r| == |parts|
    ensures forall i | 0 <= i < |r| :: r[i] == Payload(parts[i])
  {
    if parts == [] then [] else [Payload(parts[0])] + Payloads(parts[1..])
  }

  /** An encoded form after its first boundary. */
  function Rest(boundary: Bytes, parts: seq<Part>): Bytes {
    if parts == [] then DASHES + CRLF
    else CRLF + Payload(parts[0]) + Delimiter(boundary) + Rest(boundary, parts[1..])
  }

  function Before(boundary: Bytes, i: nat): Bytes {
    if i == 0 then DASHES + boundary else Delimiter(boundary)
  }

  lemma {:induction false} PartBetween(boundary: Bytes, p: Part, i: nat)
    ensures PartBytes(boundary, p, i == 0, false) == Before(boundary, i) + (CRLF + Payload(p))
    ensures PartBytes(boundary, p, i == 0, true)
            == Before(boundary, i) + (CRLF + Payload(p)) + Delimiter(boundary) + (DASHES + CRLF)
  {
    hide HeaderBlock;
    assert BoundaryData(if i == 0 then Initial else Encapsulated, boundary) == Before(boundary, i) + CRLF;
    assert BoundaryData(Final, boundary) == Delimiter(boundary) + (DASHES + CRLF);
  }

  lemma {:induction false} Regroup(a: Bytes, b: Bytes, c: Bytes, d: Bytes)
    ensures a + b + c + d == a + (b + c + d) && a + b + (c + d) == a + (b + c + d)
  {
  }

  /** One part and what follows it. */
  lemma {:induction false} PartThenRest(boundary: Bytes, parts: seq<Part>, i: nat)
    requires i < |parts|
    requires i < |parts| - 1 ==>
               FormFrom(boundary, parts, i + 1) == Delimiter(boundary) + Rest(boundary, parts[i + 1..])
    ensures FormFrom(boundary, parts, i)
            == Before(boundary, i) + (CRLF + Payload(parts[i]) + Delimiter(boundary) + Rest(boundary, parts[i + 1..]))
  {
    hide PartBytes, Payload, Delimiter, Before;
    var p, rest := parts[i], Rest(boundary, parts[i + 1..]);
    PartBetween(boundary, p, i);
    Regroup(Before(boundary, i), CRLF + Payload(p), Delimiter(boundary), rest);
    if i == |parts| - 1 {
      assert parts[i + 1..] == [];
      assert rest == DASHES + CRLF;
      assert FormFrom(boundary, parts, i + 1) == [];
    }
  }

  lemma {:induction false} FormIsRest(boundary: Bytes, parts: seq<Part>, i: nat)
    requires i < |parts|
    ensures FormFrom(boundary, parts, i) == Before(boundary, i) + Rest(boundary, parts[i..])
    decreases |parts| - i
  {
    hide FormFrom, Payload, Delimiter;
    assert parts[i..][1..] == parts[i + 1..] && parts[i..][0] == parts[i];
    if i < |parts| - 1 {
      FormIsRest(boundary, parts, i + 1);
    }
    PartThenRest(boundary, parts, i);
  }

  /** No part contains the delimiter. */
  predicate Separated(boundary: Bytes, parts: seq<Part>) {
    forall p | p in parts :: Find(Payload(p), Delimiter(boundary)).None?
  }

  lemma {:induction false} DelimiterStarts(boundary: Bytes)
    requires 13 !in boundary
    ensures Delimiter(boundary)[0] == 13 && 13 !in Delimiter(boundary)[1..]
  {
    assert Delimiter(boundary)[1..] == [10] + DASHES + boundary;
  }

  lemma {:induction false} AfterBreak(payload: Bytes, d: Bytes, after: Bytes)
    ensures var s := CRLF + payload + d + after;
            && StartsWith(s, CRLF) && s != DASHES + CRLF
            && s[2..] == payload + d + after && s[2..] == payload + (d + after)
            && s[2..2 + |payload|] == payload && s[2 + |payload| + |d|..] == after
  {
    var s := CRLF + payload + d + after;
    assert s[..2] == CRLF;
    assert s[0] == 13 && (DASHES + CRLF)[0] == 45;
  }

  /** One step of splitting, on what the encoders put after a boundary. */
  lemma {:induction false} SplitStep(boundary: Bytes, payload: Bytes, after: Bytes)
    requires 13 !in boundary && Find(payload, Delimiter(boundary)).None?
    ensures var s := CRLF + payload + Delimiter(boundary) + after;
            var rest := SplitRest(after, boundary);
            SplitRest(s, boundary) == if rest.None? then None else Some([payload] + rest.value)
  {
    DelimiterStarts(boundary);
    hide Delimiter, StartsWith, Find;
    AfterBreak(payload, Delimiter(boundary), after);
    FindAfter(payload, Delimiter(boundary), after);
  }

  /** A delimiter inside a part cuts it short. */
  lemma {:induction false} SplitShort(boundary: Bytes, payload: Bytes, after: Bytes)
    requires Find(payload, Delimiter(boundary)).Some?
    ensures var r := SplitRest(CRLF + payload + Delimiter(boundary) + after, boundary);
            r.Some? ==> r.value != [] && |r.value[0]| < |payload|
  {
    var d := Delimiter(boundary);
    assert |d| > 0;
    hide Delimiter, StartsWith, Find;
    AfterBreak(payload, d, after);
    FindBefore(payload, d, d + after);
  }

  /** Splitting what follows a boundary recovers the parts exactly when they are separated. */
  lemma {:induction false} RestSplits(boundary: Bytes, parts: seq<Part>)
    requires 13 !in boundary
    ensures SplitRest(Rest(boundary, parts), boundary) == Some(Payloads(parts)) <==> Separated(boundary, parts)
  {
    if parts != [] {
      var after := Rest(boundary, parts[1..]);
      assert parts == [parts[0]] + parts[1..];
      RestSplits(boundary, parts[1..]);
      hide Payload, Delimiter, Find, SplitRest;
      if Find(Payload(parts[0]), Delimiter(boundary)).Some? {
        SplitShort(boundary, Payload(parts[0]), after);
      } else {
        SplitStep(boundary, Payload(parts[0]), after);
        var rest := SplitRest(after, boundary);
        if rest.Some? {
          assert ([Payload(parts[0])] + rest.value)[1..] == rest.value;
          assert Payloads(parts)[1..] == Payloads(parts[1..]);
        }
      }
    }
  }

  /** Splitting an encoded form at its delimiters gives back the sequence of parts exactly when no part contains the
      delimiter. */
  lemma {:induction false} FormSplits(boundary: Bytes, parts: seq<Part>)
    requires 13 !in boundary && parts != []
    ensures Split(FormFrom(boundary, parts, 0), boundary) == Some(Payloads(parts)) <==> Separated(boundary, parts)
  {
    var form, dash := FormFrom(boundary, parts, 0), DASHES + boundary;
    FormIsRest(boundary, parts, 0);
    assert parts[0..] == parts;
    assert form[..|dash|] == dash && form[|dash|..] == Rest(boundary, parts);
    RestSplits(boundary, parts);
  }

  // ---------------------------------------------------------------------------------------------
  // The headers of a part
  // ---------------------------------------------------------------------------------------------

  datatype Entity = Entity(headers: seq<Header>, content: Bytes)

  function AddHeader(h: Header, rest: Option<Entity>): Option<Entity> {
    match rest
    case None => None
    case Some(e) => Some(Entity([h] + e.headers, e.content))
  }

  /** Header lines up to an empty one; then the content. */
  function ReadEntity(s: Bytes): Option<Entity>
    decreases |s|
  {
    match Find(s, LINE_END)
    case None => None
    case Some(k) =>
      if k == 0 then Some(Entity([], s[2..]))
      else
        match Find(s[..k], COLON)
        case None => None
        case Some(m) => AddHeader(Header(s[..m], s[m + 2..k]), ReadEntity(s[k + 2..]))
  }

  /** A header line is one line, split at its first colon and space. */
  predicate Unambiguous(h: Header) {
    Find(HeaderLine(h), LINE_END).None? && Find(h.name, COLON).None?
  }

  predicate AllUnambiguous(headers: seq<Header>) {
    forall h | h in headers :: Unambiguous(h)
  }

  /** One line of reading, once its end and its colon are found. */
  lemma {:induction false} ReadStep(s: Bytes, k: nat, m: nat)
    requires Find(s, CRLF) == Some(k) && k > 0 && Find(s[..k], COLON_SPACE) == Some(m)
    ensures m + 2 <= k && ReadEntity(s) == AddHeader(Header(s[..m], s[m + 2..k]), ReadEntity(s[k + 2..]))
  {
    hide Find;
  }

  lemma {:induction false} LineSlices(h: Header, after: Bytes)
    ensures var line := HeaderLine(h);
            var s := line + CRLF + after;
            && s[..|line|] == line && s[|line| + 2..] == after
            && s[..|h.name|] == h.name && s[|h.name| + 2..|line|] == h.value
  {
    var line := HeaderLine(h);
    assert line[..|h.name|] == h.name && line[|h.name| + 2..] == h.value;
  }

  lemma {:induction false} ReadLine(h: Header, after: Bytes)
    ensures Unambiguous(h) ==>
              ReadEntity(HeaderLine(h) + CRLF + after) == AddHeader(h, ReadEntity(after))
  {
    if Unambiguous(h) {
      FindAfter(HeaderLine(h), CRLF, after);
      FindAfter(h.name, COLON_SPACE, h.value);
      LineSlices(h, after);
      hide Find, ReadEntity;
      ReadStep(HeaderLine(h) + CRLF + after, |HeaderLine(h)|, |h.name|);
    }
  }

  lemma {:induction false} ReadBrokenLine(h: Header, after: Bytes)
    requires Find(HeaderLine(h), CRLF).Some?
    ensures var r := ReadEntity(HeaderLine(h) + CRLF + after);
            r.Some? && r.value.headers != [] ==> r.value.headers[0] != h
  {
    hide Find;
    var line := HeaderLine(h);
    var s := line + CRLF + after;
    assert s == line + (CRLF + after);
    FindBefore(line, CRLF, CRLF + after);
    var k := Find(s, CRLF).value;
    var r := ReadEntity(s);
    if r.Some? && r.value.headers != [] {
      assert |HeaderLine(r.value.headers[0])| == k;
    }
  }

  lemma {:induction false} ReadSplitName(h: Header, after: Bytes)
    requires Find(HeaderLine(h), CRLF).None? && Find(h.name, COLON_SPACE).Some?
    ensures var r := ReadEntity(HeaderLine(h) + CRLF + after);
            r.Some? && r.value.headers != [] ==> r.value.headers[0] != h
  {
    hide Find;
    var line := HeaderLine(h);
    var s := line + CRLF + after;
    FindAfter(line, CRLF, after);
    assert s[..|line|] == line && line == h.name + (COLON_SPACE + h.value);
    FindBefore(h.name, COLON_SPACE, COLON_SPACE + h.value);
  }

  /** A part's headers and content are read back exactly when its headers are unambiguous. */
  lemma {:induction false} EntityComesBack(headers: seq<Header>, content: Bytes)
    ensures ReadEntity(HeaderBlock(headers) + content) == Some(Entity(headers, content)) <==> AllUnambiguous(headers)
  {
    if headers == [] {
      var s := HeaderBlock(headers) + content;
      assert s[..2] == CRLF && s[2..] == content;
    } else {
      var h, after := headers[0], HeaderBlock(headers[1..]) + content;
      assert headers == [h] + headers[1..];
      assert HeaderBlock(headers) + content == HeaderLine(h) + CRLF + after;
      EntityComesBack(headers[1..], content);
      if Unambiguous(h) {
        ReadLine(h, after);
        var r := ReadEntity(after);
        if r.Some? {
          assert ([h] + r.value.headers)[1..] == r.value.headers;
        }
      } else {
        if Find(HeaderLine(h), CRLF).Some? {
          ReadBrokenLine(h, after);
        } else {
          ReadSplitName(h, after);
        }
      }
    }
  }

  /** A line and its header, as found in the text. */
  lemma {:induction false} LineIsWritten(s: Bytes, k: nat, m: nat)
    requires Find(s, CRLF) == Some(k) && Find(s[..k], COLON_SPACE) == Some(m)
    ensures s == HeaderLine(Header(s[..m], s[m + 2..k])) + CRLF + s[k + 2..]
  {
    hide Find;
    assert s[..k][m..m + 2] == s[m..m + 2];
    assert s[..k] == s[..m] + COLON_SPACE + s[m + 2..k];
    assert s == s[..k] + s[k..k + 2] + s[k + 2..];
  }

  /** What was read was written so: reading never invents an entity. */
  lemma {:induction false} ReadIsWritten(s: Bytes)
    requires ReadEntity(s).Some?
    ensures var e := ReadEntity(s).value; s == HeaderBlock(e.headers) + e.content
    decreases |s|
  {
    hide Find, HeaderLine;
    var k := Find(s, CRLF).value;
    if k == 0 {
      assert s == s[..2] + s[2..];
    } else {
      var m := Find(s[..k], COLON_SPACE).value;
      var h := Header(s[..m], s[m + 2..k]);
      LineIsWritten(s, k, m);
      ReadIsWritten(s[k + 2..]);
      var e := ReadEntity(s[k + 2..]).value;
      assert ([h] + e.headers)[1..] == e.headers;
      Regroup(HeaderLine(h), CRLF, HeaderBlock(e.headers), e.content);
    }
  }

  // ---------------------------------------------------------------------------------------------
  // A whole form
  // ---------------------------------------------------------------------------------------------

  function ReadAll(payloads: seq<Bytes>): (r: Option<seq<Entity>>)
    ensures r.Some? <==> forall i | 0 <= i < |payloads| :: ReadEntity(payloads[i]).Some?
    ensures r.Some? ==> |r.value| == |payloads|
                        && forall i | 0 <= i < |payloads| :: ReadEntity(payloads[i]) == Some(r.value[i])
  {
    if payloads == [] then Some([])
    else
      assert payloads == [payloads[0]] + payloads[1..];
      var first, rest := ReadEntity(payloads[0]), ReadAll(payloads[1..]);
      if first.None? || rest.None? then None else Some([first.value] + rest.value)
  }

  function ReadForm(s: Bytes, boundary: Bytes): Option<seq<Entity>> {
    match Split(s, boundary)
    case None => None
    case Some(payloads) => ReadAll(payloads)
  }

  /** The parts of a form as a reader sees them. */
  function Entities(parts: seq<Part>): (r: seq<Entity>)
    ensures |r| == |parts|
    ensures forall i | 0 <= i < |r| :: r[i] == Entity(parts[i].headers, parts[i].content)
  {
    if parts == [] then [] else [Entity(parts[0].headers, parts[0].content)] + Entities(parts[1..])
  }

  lemma {:induction false} AllRead(parts: seq<Part>)
    ensures ReadAll(Payloads(parts)) == Some(Entities(parts)) <==> forall p | p in parts :: AllUnambiguous(p.headers)
  {
    hide ReadEntity, AllUnambiguous, Payloads, Entities, ReadAll;
    forall i | 0 <= i < |parts|
      ensures ReadEntity(Payloads(parts)[i]) == Some(Entities(parts)[i]) <==> AllUnambiguous(parts[i].headers)
    {
      EntityComesBack(parts[i].headers, parts[i].content);
    }
    if forall p | p in parts :: AllUnambiguous(p.headers) {
      assert ReadAll(Payloads(parts)).value == Entities(parts);
    }
  }

  /** The payloads a reader saw are determined by what it read. */
  lemma {:induction false} ReadDetermines(payloads: seq<Bytes>, parts: seq<Part>)
    requires ReadAll(payloads) == Some(Entities(parts))
    ensures payloads == Payloads(parts)
  {
    hide ReadEntity, Payloads, Entities, ReadAll;
    forall i | 0 <= i < |payloads|
      ensures payloads[i] == Payloads(parts)[i]
    {
      ReadIsWritten(payloads[i]);
    }
  }

  /** A form is read back, headers and contents in order, exactly when it has a part, no part contains the delimiter,
      and no header is ambiguous. */
  lemma {:induction false} FormComesBack(boundary: Bytes, parts: seq<Part>)
    requires 13 !in boundary
    ensures ReadForm(FormFrom(boundary, parts, 0), boundary) == Some(Entities(parts))
            <==> parts != [] && Separated(boundary, parts) && forall p | p in parts :: AllUnambiguous(p.headers)
  {
    if parts != [] {
      hide Split, ReadAll, Payloads, Entities, Separated, AllUnambiguous, FormFrom;
      FormSplits(boundary, parts);
      AllRead(parts);
      var split := Split(FormFrom(boundary, parts, 0), boundary);
      if split.Some? && ReadAll(split.value) == Some(Entities(parts)) {
        ReadDetermines(split.value, parts);
      }
    }
  }
}
