/** The multipart/form-data format that Alamofire's MultipartFormData writes, and a reader for
    it after section 5.1.1 of RFC 2046. */
module Multipart {
  import opened Bits
  import opened Wrappers

  type Bytes = seq<Byte>

  const CRLF: Bytes := [13, 10]
  const DASHES: Bytes := [45, 45]
  const COLON_SPACE: Bytes := [58, 32]

  datatype Header = Header(name: Bytes, value: Bytes)

  datatype Part = Part(headers: seq<Header>, body: Bytes)

  // ------------------------------------------------ writing

  datatype BoundaryType = Initial | Encapsulated | Final

  /** boundaryData(forBoundaryType:boundary:) */
  function BoundaryData(kind: BoundaryType, boundary: Bytes): Bytes {
    match kind
    case Initial => DASHES + boundary + CRLF
    case Encapsulated => CRLF + DASHES + boundary + CRLF
    case Final => CRLF + DASHES + boundary + DASHES + CRLF
  }

  function HeaderLine(h: Header): Bytes {
    h.name + COLON_SPACE + h.value
  }

  /** encodeHeaders(for:) */
  function EncodeHeaders(headers: seq<Header>): Bytes {
    if headers == [] then CRLF else HeaderLine(headers[0]) + CRLF + EncodeHeaders(headers[1..])
  }

  /** encode(_ bodyPart:), for a part with the given boundary flags. */
  function EncodePart(boundary: Bytes, part: Part, initial: bool, final: bool): Bytes {
    BoundaryData(if initial then Initial else Encapsulated, boundary) + EncodeHeaders(part.headers) + part.body
    + if final then BoundaryData(Final, boundary) else []
  }

  /** encode(): the first part has the initial boundary and the last one the final one. */
  function Encode(boundary: Bytes, parts: seq<Part>): Bytes {
    EncodeFrom(boundary, parts, 0)
  }

  function EncodeFrom(boundary: Bytes, parts: seq<Part>, i: nat): Bytes
    requires i <= |parts|
    decreases |parts| - i
  {
    if i == |parts| then []
    else EncodePart(boundary, parts[i], i == 0, i == |parts| - 1) + EncodeFrom(boundary, parts, i + 1)
  }

  // ------------------------------------------------ reading

  /** Where `pattern` first occurs. */
  function Find(pattern: Bytes, s: Bytes): (k: Option<nat>)
    ensures k.Some? ==> k.value + |pattern| <= |s|
  {
    if |s| < |pattern| then None
    else if s[..|pattern|] == pattern then Some(0)
    else if s == [] then None
    else
      var k :- Find(pattern, s[1..]);
      Some(k + 1)
  }

  function ParseHeader(line: Bytes): Option<Header> {
    var k :- Find(COLON_SPACE, line);
    Some(Header(line[..k], line[k + |COLON_SPACE|..]))
  }

  /** Lines up to an empty one. */
  function ParseHeaders(s: Bytes): (r: Option<(seq<Header>, Bytes)>)
    ensures r.Some? ==> |r.value.1| < |s|
  {
    var k :- Find(CRLF, s);
    var rest := s[k + |CRLF|..];
    if k == 0 then Some(([], rest))
    else
      var h :- ParseHeader(s[..k]);
      var more :- ParseHeaders(rest);
      Some(([h] + more.0, more.1))
  }

  /** The delimiter of section 5.1.1, with the line break that belongs to it. */
  function Delimiter(boundary: Bytes): Bytes {
    CRLF + DASHES + boundary
  }

  /** A body, up to the next delimiter, and what comes after that delimiter. */
  function ParseBody(boundary: Bytes, s: Bytes): (r: Option<(Bytes, Bytes)>)
    ensures r.Some? ==> |r.value.1| < |s|
  {
    var k :- Find(Delimiter(boundary), s);
    Some((s[..k], s[k + |Delimiter(boundary)|..]))
  }

  /** What follows the first delimiter line: one part up to the next delimiter, and then
      either the closing dashes or another part. */
  function ParseParts(boundary: Bytes, s: Bytes): (r: Option<seq<Part>>)
    ensures r.Some? ==> r.value != []
    decreases |s|
  {
    var (headers, rest) :- ParseHeaders(s);
    var (body, after) :- ParseBody(boundary, rest);
    if after == DASHES + CRLF then Some([Part(headers, body)])
    else if CRLF <= after then
      var parts :- ParseParts(boundary, after[|CRLF|..]);
      Some([Part(headers, body)] + parts)
    else None
  }

  function Parse(boundary: Bytes, s: Bytes): Option<seq<Part>> {
    var opening := BoundaryData(Initial, boundary);
    if s == [] then Some([])
    else if opening <= s then ParseParts(boundary, s[|opening|..])
    else None
  }

  // ------------------------------------------------ searching

  predicate OccursAt(pattern: Bytes, s: Bytes, k: nat) {
    k + |pattern| <= |s| && s[k..k + |pattern|] == pattern
  }

  predicate Occurs(pattern: Bytes, s: Bytes) {
    exists k :: 0 <= k <= |s| && OccursAt(pattern, s, k)
  }

  lemma OccursLater(pattern: Bytes, s: Bytes, j: nat)
    requires s != []
    ensures OccursAt(pattern, s, j + 1) == OccursAt(pattern, s[1..], j)
  {
    if j + 1 + |pattern| <= |s| { assert s[j + 1..j + 1 + |pattern|] == s[1..][j..j + |pattern|]; }
  }

  /** Find returns the first place, and fails only when there is none. */
  lemma {:induction false} FindsFirst(pattern: Bytes, s: Bytes)
    ensures Find(pattern, s).Some? ==> OccursAt(pattern, s, Find(pattern, s).value)
    ensures forall j: nat :: OccursAt(pattern, s, j) ==> Find(pattern, s).Some? && Find(pattern, s).value <= j
  {
    if |pattern| <= |s| && s[..|pattern|] != pattern && s != [] {
      FindsFirst(pattern, s[1..]);
      if Find(pattern, s).Some? { OccursLater(pattern, s, Find(pattern, s).value - 1); }
      forall j: nat | OccursAt(pattern, s, j) ensures Find(pattern, s).Some? && Find(pattern, s).value <= j {
        assert j > 0;
        OccursLater(pattern, s, j - 1);
      }
    }
  }

  /** The first byte of the pattern occurs nowhere else in it. */
  predicate Marked(pattern: Bytes) {
    pattern != [] && forall i :: 0 < i < |pattern| ==> pattern[i] != pattern[0]
  }

  /** A marked pattern put after `s` is found there exactly if `s` does not hold it already:
      an earlier find cannot reach into it. */
  lemma FindsMark(pattern: Bytes, s: Bytes, t: Bytes)
    requires Marked(pattern)
    ensures var k := Find(pattern, s + pattern + t);
            k.Some? && if Occurs(pattern, s) then k.value + |pattern| <= |s| else k.value == |s|
  {
    var all := s + pattern + t;
    FindsFirst(pattern, all);
    assert OccursAt(pattern, all, |s|);
    forall j: nat | OccursAt(pattern, s, j) ensures OccursAt(pattern, all, j) {
      assert all[j..j + |pattern|] == s[j..j + |pattern|];
    }
    var k := Find(pattern, all).value;
    if k < |s| {
      MarkNotReached(pattern, s, t, k);
      assert all[k..k + |pattern|] == s[k..k + |pattern|];
      assert OccursAt(pattern, s, k);
    }
  }

  lemma MarkNotReached(pattern: Bytes, s: Bytes, t: Bytes, k: nat)
    requires Marked(pattern) && k < |s| && OccursAt(pattern, s + pattern + t, k)
    ensures k + |pattern| <= |s|
  {
    var i := if k + |pattern| > |s| then |s| - k else 0;
    OccursThroughout(pattern, s + pattern + t, k, i);
  }

  lemma OccursThroughout(pattern: Bytes, s: Bytes, k: nat, i: nat)
    requires OccursAt(pattern, s, k) && i < |pattern|
    ensures s[k + i] == pattern[i]
  {
    assert s[k..k + |pattern|][i] == s[k + i];
  }

  // ------------------------------------------------ what reading gives back

  /** A name ends at the first colon and space, and a line at the first line break. */
  predicate CleanHeader(h: Header) {
    !Occurs(COLON_SPACE, h.name) && !Occurs(CRLF, HeaderLine(h))
  }

  predicate CleanPart(boundary: Bytes, part: Part) {
    (forall h :: h in part.headers ==> CleanHeader(h)) && !Occurs(Delimiter(boundary), part.body)
  }

  lemma HeaderInverts(h: Header)
    ensures ParseHeader(HeaderLine(h)) == Some(h) <==> !Occurs(COLON_SPACE, h.name)
  {
    FindsMark(COLON_SPACE, h.name, h.value);
    var line := HeaderLine(h);
    assert line == h.name + COLON_SPACE + h.value;
    assert line[..|h.name|] == h.name && line[|h.name| + 2..] == h.value;
  }

  /** What is read for a line is the line that was there. */
  lemma HeaderOfLine(line: Bytes)
    ensures ParseHeader(line).Some? ==> HeaderLine(ParseHeader(line).value) == line
  {
    FindsFirst(COLON_SPACE, line);
  }

  lemma Regroup(a: Bytes, b: Bytes, c: Bytes, d: Bytes)
    ensures (a + b + c) + d == a + b + (c + d) == a + (b + c + d)
  {
  }

  /** Reading goes on after the first line exactly if that line is clean. */
  lemma HeadersStep(h: Header, tail: Bytes)
    ensures var r := ParseHeaders(HeaderLine(h) + CRLF + tail);
            if CleanHeader(h) then
              r == (if ParseHeaders(tail).None? then None
                    else Some(([h] + ParseHeaders(tail).value.0, ParseHeaders(tail).value.1)))
            else r.Some? ==> r.value.0 == [] || r.value.0[0] != h
  {
    var line := HeaderLine(h);
    var s := line + CRLF + tail;
    FindsMark(CRLF, line, tail);
    HeaderInverts(h);
    var k := Find(CRLF, s).value;
    HeaderOfLine(s[..k]);
    if !Occurs(CRLF, line) { assert s[..k] == line && s[k + 2..] == tail; }
  }

  lemma {:induction false} HeadersInvert(headers: seq<Header>, rest: Bytes)
    ensures var r := ParseHeaders(EncodeHeaders(headers) + rest);
            if forall h :: h in headers ==> CleanHeader(h) then r == Some((headers, rest))
            else r.Some? ==> r.value.0 != headers
  {
    var s := EncodeHeaders(headers) + rest;
    if headers == [] {
      assert s[..2] == CRLF && s[2..] == rest;
    } else {
      var h, others := headers[0], headers[1..];
      assert headers == [h] + others;
      HeadersInvert(others, rest);
      HeadersStep(h, EncodeHeaders(others) + rest);
      Regroup(HeaderLine(h), CRLF, EncodeHeaders(others), rest);
    }
  }

  // ------------------------------------------------ parts

  /** The parts from the i-th on, without the delimiter that introduces them. */
  function Rest(boundary: Bytes, parts: seq<Part>): Bytes
    requires parts != []
  {
    EncodeHeaders(parts[0].headers) + parts[0].body + Delimiter(boundary)
    + if |parts| == 1 then DASHES + CRLF else CRLF + Rest(boundary, parts[1..])
  }

  lemma LastPart(a: Bytes, b: Bytes, c: Bytes, boundary: Bytes)
    ensures a + b + c + BoundaryData(Final, boundary) + [] == a + (b + c + Delimiter(boundary) + (DASHES + CRLF))
  {
  }

  lemma NextPart(a: Bytes, b: Bytes, c: Bytes, boundary: Bytes, rest: Bytes)
    ensures (a + b + c + []) + (BoundaryData(Encapsulated, boundary) + rest)
         == a + (b + c + Delimiter(boundary) + (CRLF + rest))
  {
  }

  lemma RestAt(boundary: Bytes, parts: seq<Part>, i: nat)
    requires i < |parts|
    ensures Rest(boundary, parts[i..])
         == EncodeHeaders(parts[i].headers) + parts[i].body + Delimiter(boundary)
            + if i == |parts| - 1 then DASHES + CRLF else CRLF + Rest(boundary, parts[i + 1..])
  {
    assert parts[i..][1..] == parts[i + 1..];
  }

  lemma {:induction false} EncodeIsRest(boundary: Bytes, parts: seq<Part>, i: nat)
    requires i < |parts|
    ensures EncodeFrom(boundary, parts, i)
         == BoundaryData(if i == 0 then Initial else Encapsulated, boundary) + Rest(boundary, parts[i..])
    decreases |parts| - i
  {
    var p, opening := parts[i], BoundaryData(if i == 0 then Initial else Encapsulated, boundary);
    RestAt(boundary, parts, i);
    if i == |parts| - 1 {
      LastPart(opening, EncodeHeaders(p.headers), p.body, boundary);
    } else {
      EncodeIsRest(boundary, parts, i + 1);
      NextPart(opening, EncodeHeaders(p.headers), p.body, boundary, Rest(boundary, parts[i + 1..]));
    }
  }

  // ------------------------------------------------ in bytes

  /** Header lines: a name, a colon and a space, a value and a line break. */
  function Lines(headers: seq<Header>): Bytes {
    if headers == [] then [] else headers[0].name + [58, 32] + headers[0].value + [13, 10] + Lines(headers[1..])
  }

  /** The parts, each with an empty line between its headers and its body, and between them
      lines of two dashes and the boundary. */
  function Lined(boundary: Bytes, parts: seq<Part>): Bytes
    requires parts != []
  {
    Lines(parts[0].headers) + [13, 10] + parts[0].body
    + if |parts| == 1 then [] else [13, 10, 45, 45] + boundary + [13, 10] + Lined(boundary, parts[1..])
  }

  lemma {:induction false} HeadersInBytes(headers: seq<Header>)
    ensures EncodeHeaders(headers) == Lines(headers) + [13, 10]
  {
    if headers != [] {
      HeadersInBytes(headers[1..]);
      var line := headers[0].name + [58, 32] + headers[0].value + [13, 10];
      assert (line + Lines(headers[1..])) + [13, 10] == line + (Lines(headers[1..]) + [13, 10]);
    }
  }

  lemma {:induction false} RestInBytes(boundary: Bytes, parts: seq<Part>)
    requires parts != []
    ensures Rest(boundary, parts) == Lined(boundary, parts) + ([13, 10, 45, 45] + boundary + [45, 45, 13, 10])
  {
    var delimiter, close := [13, 10, 45, 45] + boundary, [13, 10, 45, 45] + boundary + [45, 45, 13, 10];
    var first := Lines(parts[0].headers) + [13, 10] + parts[0].body;
    HeadersInBytes(parts[0].headers);
    assert Delimiter(boundary) == delimiter;
    if |parts| == 1 {
      assert DASHES + CRLF == [45, 45, 13, 10];
      assert Rest(boundary, parts) == first + delimiter + [45, 45, 13, 10];
      JoinClose(first, delimiter);
      assert Lined(boundary, parts) == first + [];
    } else {
      RestInBytes(boundary, parts[1..]);
      var more := Lined(boundary, parts[1..]);
      assert Rest(boundary, parts) == first + delimiter + ([13, 10] + (more + close));
      JoinLines(first, delimiter, more, close);
      assert Lined(boundary, parts) == first + ((delimiter + [13, 10]) + more);
    }
  }

  lemma JoinClose(first: Bytes, delimiter: Bytes)
    ensures first + delimiter + [45, 45, 13, 10] == (first + []) + (delimiter + [45, 45, 13, 10])
  {
  }

  lemma JoinLines(first: Bytes, delimiter: Bytes, more: Bytes, close: Bytes)
    ensures first + delimiter + ([13, 10] + (more + close)) == (first + ((delimiter + [13, 10]) + more)) + close
  {
  }

  /** What is sent for a form: a line of two dashes and the boundary, the parts, and a line of
      two dashes, the boundary and two dashes. */
  lemma FormInBytes(boundary: Bytes, parts: seq<Part>)
    ensures parts == [] ==> Encode(boundary, parts) == []
    ensures parts != [] ==>
              Encode(boundary, parts)
              == [45, 45] + boundary + [13, 10] + Lined(boundary, parts) + [13, 10, 45, 45] + boundary + [45, 45, 13, 10]
  {
    if parts != [] {
      EncodeIsRest(boundary, parts, 0);
      assert parts[0..] == parts;
      RestInBytes(boundary, parts);
      var opening := [45, 45] + boundary + [13, 10];
      assert BoundaryData(Initial, boundary) == opening;
      JoinForm(opening, Lined(boundary, parts), boundary);
    }
  }

  lemma JoinForm(opening: Bytes, lined: Bytes, boundary: Bytes)
    ensures opening + (lined + ([13, 10, 45, 45] + boundary + [45, 45, 13, 10]))
         == opening + lined + [13, 10, 45, 45] + boundary + [45, 45, 13, 10]
  {
  }

  lemma BodyInverts(boundary: Bytes, body: Bytes, end: Bytes)
    requires 13 !in boundary
    ensures var d := Delimiter(boundary);
            var r := ParseBody(boundary, body + d + end);
            if Occurs(d, body) then r.Some? && r.value.0 != body else r == Some((body, end))
  {
    var d := Delimiter(boundary);
    FindsMark(d, body, end);
    var s := body + d + end;
    assert s[..|body|] == body && s[|body| + |d|..] == end;
  }

  /** What is read after the first part, given what comes after its delimiter. */
  function ReadOn(boundary: Bytes, p: Part, after: Bytes): Option<seq<Part>> {
    if after == DASHES + CRLF then Some([p])
    else if CRLF <= after && ParseParts(boundary, after[2..]).Some? then
      Some([p] + ParseParts(boundary, after[2..]).value)
    else None
  }

  lemma ReadsOn(boundary: Bytes, s: Bytes, p: Part, rest: Bytes, after: Bytes)
    requires ParseHeaders(s) == Some((p.headers, rest)) && ParseBody(boundary, rest) == Some((p.body, after))
    ensures ParseParts(boundary, s) == ReadOn(boundary, p, after)
  {
  }

  lemma FirstPartRead(boundary: Bytes, s: Bytes)
    requires ParseParts(boundary, s).Some?
    ensures ParseHeaders(s).Some? && ParseBody(boundary, ParseHeaders(s).value.1).Some?
    ensures ParseParts(boundary, s).value[0]
         == Part(ParseHeaders(s).value.0, ParseBody(boundary, ParseHeaders(s).value.1).value.0)
  {
  }

  /** Reading goes on after the first part exactly if that part is clean. */
  lemma PartsStep(boundary: Bytes, p: Part, end: Bytes)
    requires 13 !in boundary
    ensures var r := ParseParts(boundary, EncodeHeaders(p.headers) + p.body + Delimiter(boundary) + end);
            if CleanPart(boundary, p) then r == ReadOn(boundary, p, end) else r.Some? ==> r.value[0] != p
  {
    var s, rest := EncodeHeaders(p.headers) + p.body + Delimiter(boundary) + end, p.body + Delimiter(boundary) + end;
    Regroup(EncodeHeaders(p.headers), p.body, Delimiter(boundary), end);
    HeadersInvert(p.headers, rest);
    BodyInverts(boundary, p.body, end);
    if CleanPart(boundary, p) {
      ReadsOn(boundary, s, p, rest, end);
    } else if ParseParts(boundary, s).Some? {
      FirstPartRead(boundary, s);
    }
  }

  predicate AllClean(boundary: Bytes, parts: seq<Part>) {
    forall p :: p in parts ==> CleanPart(boundary, p)
  }

  lemma AllCleanSplits(boundary: Bytes, p: Part, others: seq<Part>)
    ensures AllClean(boundary, [p] + others) == (CleanPart(boundary, p) && AllClean(boundary, others))
  {
    assert p in [p] + others && forall q :: q in others ==> q in [p] + others;
  }

  lemma ReadsOnToRest(boundary: Bytes, p: Part, rest: Bytes)
    ensures ReadOn(boundary, p, CRLF + rest)
         == if ParseParts(boundary, rest).Some? then Some([p] + ParseParts(boundary, rest).value) else None
  {
    assert (CRLF + rest)[2..] == rest && (CRLF + rest)[0] == 13;
  }

  lemma {:induction false} PartsInvert(boundary: Bytes, parts: seq<Part>)
    requires 13 !in boundary && parts != []
    ensures (ParseParts(boundary, Rest(boundary, parts)) == Some(parts)) == AllClean(boundary, parts)
  {
    var p, others := parts[0], parts[1..];
    assert parts == [p] + others;
    AllCleanSplits(boundary, p, others);
    if others == [] {
      PartsStep(boundary, p, DASHES + CRLF);
      assert parts == [p];
    } else {
      PartsStep(boundary, p, CRLF + Rest(boundary, others));
      PartsInvert(boundary, others);
      ReadsOnToRest(boundary, p, Rest(boundary, others));
    }
  }

  /** Reading gives back the parts that were written exactly if no name holds a colon and a
      space, no header line a line break, and no body a line break followed by two dashes and
      the boundary. */
  lemma {:induction false} ParseInvertsEncode(boundary: Bytes, parts: seq<Part>)
    requires 13 !in boundary
    ensures (Parse(boundary, Encode(boundary, parts)) == Some(parts)) == AllClean(boundary, parts)
  {
    if parts != [] {
      var opening, rest := BoundaryData(Initial, boundary), Rest(boundary, parts);
      EncodeIsRest(boundary, parts, 0);
      assert parts[0..] == parts;
      PartsInvert(boundary, parts);
      assert (opening + rest)[|opening|..] == rest;
    }
  }

  /** So the bytes determine the parts. */
  lemma UniquelyDecodable(boundary: Bytes, parts: seq<Part>, others: seq<Part>)
    requires 13 !in boundary && AllClean(boundary, parts) && AllClean(boundary, others)
    requires Encode(boundary, parts) == Encode(boundary, others)
    ensures parts == others
  {
    ParseInvertsEncode(boundary, parts);
    ParseInvertsEncode(boundary, others);
  }

  /** Headers without a carriage return whose names have no colon are clean. */
  lemma PlainHeaderIsClean(h: Header)
    requires 13 !in h.name && 13 !in h.value && 58 !in h.name
    ensures CleanHeader(h)
  {
    forall k: nat ensures !OccursAt(COLON_SPACE, h.name, k) && !OccursAt(CRLF, HeaderLine(h), k) {
      if k + 2 <= |HeaderLine(h)| { assert HeaderLine(h)[k..k + 2][0] == HeaderLine(h)[k]; }
      if k + 2 <= |h.name| { assert h.name[k..k + 2][0] == h.name[k]; }
    }
  }
}
