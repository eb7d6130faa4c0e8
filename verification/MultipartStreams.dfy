/** MultipartFormData's two encoders over streams: in memory, and chunk by chunk to a file. */
module MultipartStreams {
  import opened Wrappers
  import opened Multipart

  datatype EncodingError =
    | InvalidBodyPart(reason: nat)
    | InputStreamReadFailed
    | UnexpectedInputStreamLength(bytesExpected: nat, bytesRead: nat)
    | OutputStreamWriteFailed

  datatype Outcome<+T> = Ok(value: T) | Throws(error: EncodingError)

  // ------------------------------------------------ streams

  /** An input stream: the bytes it has yet to deliver, in chunks of its own choosing, and
      whether it then fails instead of ending. */
  class BodyStream {
    var remaining: Bytes
    const breaks: bool

    constructor (content: Bytes, breaks: bool)
      ensures remaining == content && this.breaks == breaks
    {
      this.remaining, this.breaks := content, breaks;
    }

    /** At the end a stream may still answer that it has bytes. */
    method HasBytesAvailable() returns (available: bool)
      ensures remaining != [] || breaks ==> available
    {
      available := *;
      available := available || remaining != [] || breaks;
    }

    method Read(maxLength: nat) returns (bytes: Bytes, failed: bool)
      requires maxLength > 0
      modifies this
      ensures failed == (old(remaining) == [] && breaks)
      ensures bytes + remaining == old(remaining) && |bytes| <= maxLength
      ensures old(remaining) != [] ==> bytes != []
    {
      if remaining == [] { return [], breaks; }
      var n: nat :| 1 <= n <= maxLength && n <= |remaining|;
      bytes, failed := remaining[..n], false;
      remaining := remaining[n..];
    }
  }

  /** What a file holds, how many bytes it takes if that is limited, and whether a write past
      the limit fails, or the stream just has no space. */
  datatype File = File(written: Bytes, limit: Option<nat>, breaks: bool) {
    predicate Valid() {
      limit.Some? ==> |written| <= limit.value
    }

    predicate Takes(bytes: Bytes) {
      limit.Some? ==> |written| + |bytes| <= limit.value
    }

    /** The file after an attempt to write `bytes`: as many of them as it takes. */
    function Put(bytes: Bytes): (f: File)
      requires Valid()
      ensures f.Valid()
    {
      this.(written := written + if Takes(bytes) then bytes else bytes[..limit.value - |written|])
    }

    predicate Refuses(bytes: Bytes) {
      breaks && !Takes(bytes)
    }
  }

  class FileStream {
    var file: File

    constructor (limit: Option<nat>, breaks: bool)
      ensures file == File([], limit, breaks)
    {
      file := File([], limit, breaks);
    }

    method HasSpaceAvailable() returns (available: bool)
      ensures available == (file.breaks || !(file.limit.Some? && |file.written| == file.limit.value))
    {
      available := file.breaks || !(file.limit.Some? && |file.written| == file.limit.value);
    }

    /** A write may take only some of the bytes. */
    method Write(buffer: Bytes, maxLength: nat) returns (n: nat, failed: bool)
      requires 0 < maxLength <= |buffer| && file.Valid()
      requires file.breaks || !(file.limit.Some? && |file.written| == file.limit.value)
      modifies this
      ensures file.Valid() && failed == (old(file).limit.Some? && |old(file).written| == old(file).limit.value)
      ensures if failed then file == old(file)
              else 1 <= n <= maxLength && file == old(file).(written := old(file).written + buffer[..n])
    {
      if file.limit.Some? && |file.written| == file.limit.value { return 0, true; }
      n :| 1 <= n <= maxLength && (file.limit.Some? ==> |file.written| + n <= file.limit.value);
      failed := false;
      file := file.(written := file.written + buffer[..n]);
    }
  }

  lemma PutBoth(f: File, a: Bytes, b: Bytes)
    requires f.Valid() && !f.Refuses(a)
    ensures f.Put(a).Put(b) == f.Put(a + b) && f.Put(a).Refuses(b) == f.Refuses(a + b)
  {
    assert f.limit.Some? && f.Takes(a) && !f.Takes(a + b) ==>
             (a + b)[..f.limit.value - |f.written|] == a + b[..f.limit.value - |f.written| - |a|];
    assert f.limit.Some? && !f.Takes(a) ==>
             (a + b)[..f.limit.value - |f.written|] == a[..f.limit.value - |f.written|];
  }

  lemma PutAfterRefusal(f: File, a: Bytes, b: Bytes)
    requires f.Valid() && f.Refuses(a)
    ensures f.Put(a + b) == f.Put(a) && f.Refuses(a + b)
  {
    assert (a + b)[..f.limit.value - |f.written|] == a[..f.limit.value - |f.written|];
  }

  /** write(_ buffer:to:) */
  method WriteBytes(data: Bytes, output: FileStream) returns (r: Outcome<()>)
    requires output.file.Valid()
    modifies output
    ensures output.file == old(output.file).Put(data)
    ensures r == if old(output.file).Refuses(data) then Throws(OutputStreamWriteFailed) else Ok(())
  {
    ghost var f := output.file;
    var buffer := data;
    var bytesToWrite := |buffer|;
    ghost var done := 0;
    var available := output.HasSpaceAvailable();
    while bytesToWrite > 0 && available
      invariant output.file.Valid() && 0 <= done <= |data| && bytesToWrite == |data| - done
      invariant bytesToWrite > 0 ==> buffer == data[done..]
      invariant output.file == f.(written := f.written + data[..done])
      invariant available == (f.breaks || !(f.limit.Some? && |output.file.written| == f.limit.value))
      decreases bytesToWrite
    {
      var bytesWritten, failed := output.Write(buffer, bytesToWrite);
      if failed { return Throws(OutputStreamWriteFailed); }
      assert data[..done + bytesWritten] == data[..done] + data[done..][..bytesWritten];
      done := done + bytesWritten;
      bytesToWrite := bytesToWrite - bytesWritten;
      if bytesToWrite > 0 { buffer := buffer[bytesWritten..]; }
      available := output.HasSpaceAvailable();
    }
    assert bytesToWrite == 0 ==> data[..done] == data;
    return Ok(());
  }

  // ------------------------------------------------ what is to be encoded

  /** A body part as the encoders find it: what its stream is going to deliver, whether the
      stream then fails, the length it was declared with, and its boundary flags. */
  datatype Source = Source(part: Part, breaks: bool, bodyContentLength: nat, initial: bool, final: bool) {
    /** After its stream has been read to the end. */
    function UsedUp(): Source {
      this.(part := this.part.(body := []))
    }
  }

  function PartsOf(sources: seq<Source>): seq<Part> {
    seq(|sources|, i requires 0 <= i < |sources| => sources[i].part)
  }

  /** The encoders first set the initial flag of the first part and the final flag of the
      last one; flags that are set stay set. */
  function AtEnds(sources: seq<Source>): seq<Source> {
    seq(|sources|, i requires 0 <= i < |sources| =>
      sources[i].(initial := sources[i].initial || i == 0, final := sources[i].final || i == |sources| - 1))
  }

  function AllUsedUp(sources: seq<Source>): seq<Source> {
    seq(|sources|, i requires 0 <= i < |sources| => sources[i].UsedUp())
  }

  /** encodeBodyStream: all that the stream delivers, if it ends there and the length is the
      declared one. */
  function BodyOutcome(s: Source): Outcome<Bytes> {
    if s.breaks then Throws(InputStreamReadFailed)
    else if |s.part.body| != s.bodyContentLength then
      Throws(UnexpectedInputStreamLength(s.bodyContentLength, |s.part.body|))
    else Ok(s.part.body)
  }

  /** Bytes already encoded, before the outcome of the rest. */
  function After(encoded: Bytes, rest: Outcome<Bytes>): Outcome<Bytes> {
    if rest.Throws? then rest else Ok(encoded + rest.value)
  }

  /** encode(_ bodyPart:) */
  function PartOutcome(boundary: Bytes, s: Source): Outcome<Bytes> {
    if BodyOutcome(s).Throws? then BodyOutcome(s) else Ok(EncodePart(boundary, s.part, s.initial, s.final))
  }

  /** encode(): the bytes of all parts, or the error of the first part that has one. */
  function EncodeOutcome(boundary: Bytes, sources: seq<Source>, i: nat): Outcome<Bytes>
    requires i <= |sources|
    decreases |sources| - i
  {
    if i == |sources| then Ok([])
    else
      var first := PartOutcome(boundary, sources[i]);
      if first.Throws? then first else After(first.value, EncodeOutcome(boundary, sources, i + 1))
  }

  /** What one part gives to the file: all of it, or, when its stream fails, what comes
      before the failure. */
  function Streamed(boundary: Bytes, s: Source): Bytes {
    EncodePart(boundary, s.part, s.initial, s.final && !s.breaks)
  }

  /** What all parts give to the file, and whether a stream fails. */
  function StreamedFrom(boundary: Bytes, sources: seq<Source>, i: nat): (Bytes, bool)
    requires i <= |sources|
    decreases |sources| - i
  {
    if i == |sources| then ([], false)
    else
      var bytes := Streamed(boundary, sources[i]);
      if sources[i].breaks then (bytes, true)
      else
        var rest := StreamedFrom(boundary, sources, i + 1);
        (bytes + rest.0, rest.1)
  }

  /** The result of writing `bytes` and then failing or not. */
  function WriteOutcome(f: File, bytes: Bytes, breaks: bool): Outcome<()>
    requires f.Valid()
  {
    if f.Refuses(bytes) then Throws(OutputStreamWriteFailed)
    else if breaks then Throws(InputStreamReadFailed)
    else Ok(())
  }

  // ------------------------------------------------ body parts

  class BodyPart {
    const headers: seq<Header>
    const bodyStream: BodyStream
    const bodyContentLength: nat
    var hasInitialBoundary: bool
    var hasFinalBoundary: bool

    constructor (headers: seq<Header>, bodyStream: BodyStream, bodyContentLength: nat)
      ensures this.headers == headers && this.bodyStream == bodyStream && this.bodyContentLength == bodyContentLength
      ensures !hasInitialBoundary && !hasFinalBoundary
    {
      this.headers, this.bodyStream, this.bodyContentLength := headers, bodyStream, bodyContentLength;
      hasInitialBoundary, hasFinalBoundary := false, false;
    }

    ghost function Now(): Source
      reads this, bodyStream
    {
      Source(Part(headers, bodyStream.remaining), bodyStream.breaks, bodyContentLength, hasInitialBoundary, hasFinalBoundary)
    }
  }

  const STREAM_BUFFER_SIZE: nat := 1024

  method EncodeHeaderData(headers: seq<Header>) returns (encoded: Bytes)
    ensures encoded == EncodeHeaders(headers)
  {
    encoded := [];
    for i := 0 to |headers|
      invariant encoded + EncodeHeaders(headers[i..]) == EncodeHeaders(headers)
    {
      assert headers[i..][1..] == headers[i + 1..];
      encoded := encoded + (HeaderLine(headers[i]) + CRLF);
    }
    encoded := encoded + CRLF;
  }

  /** encodeBodyStream(for:) */
  method EncodeBodyStream(part: BodyPart) returns (r: Outcome<Bytes>)
    modifies part.bodyStream
    ensures r == BodyOutcome(old(part.Now()))
    ensures r.Ok? ==> part.bodyStream.remaining == []
  {
    var input := part.bodyStream;
    var encoded: Bytes := [];
    ghost var content := input.remaining;
    var available := input.HasBytesAvailable();
    while available
      invariant encoded + input.remaining == content
      invariant !available ==> input.remaining == [] && !input.breaks
      decreases |input.remaining|, available
    {
      var buffer, failed := input.Read(STREAM_BUFFER_SIZE);
      if failed { return Throws(InputStreamReadFailed); }
      if |buffer| > 0 {
        encoded := encoded + buffer;
        available := input.HasBytesAvailable();
      } else {
        break;
      }
    }
    assert encoded == content;
    if |encoded| != part.bodyContentLength {
      return Throws(UnexpectedInputStreamLength(part.bodyContentLength, |encoded|));
    }
    return Ok(encoded);
  }

  /** writeBodyStream(for:to:), which does not look at bodyContentLength. */
  method WriteBodyStream(part: BodyPart, output: FileStream) returns (r: Outcome<()>)
    requires output.file.Valid()
    modifies part.bodyStream, output
    ensures output.file == old(output.file).Put(old(part.bodyStream.remaining))
    ensures r == WriteOutcome(old(output.file), old(part.bodyStream.remaining), part.bodyStream.breaks)
    ensures r.Ok? ==> part.bodyStream.remaining == []
  {
    var input := part.bodyStream;
    ghost var f, content, done := output.file, input.remaining, [];
    var available := input.HasBytesAvailable();
    while available
      invariant output.file.Valid() && done + input.remaining == content
      invariant output.file == f.Put(done) && !f.Refuses(done)
      invariant !available ==> input.remaining == [] && !input.breaks
      decreases |input.remaining|, available
    {
      var buffer, failed := input.Read(STREAM_BUFFER_SIZE);
      if failed {
        assert done == content;
        return Throws(InputStreamReadFailed);
      }
      if |buffer| == 0 { break; }
      PutBoth(f, done, buffer);
      r := WriteBytes(buffer, output);
      done := done + buffer;
      if r.Throws? {
        assert content == done + input.remaining;
        PutAfterRefusal(f, done, input.remaining);
        return;
      }
      available := input.HasBytesAvailable();
    }
    assert done == content;
    return Ok(());
  }

  /** encode(_ bodyPart:) */
  method EncodeBodyPart(boundary: Bytes, part: BodyPart) returns (r: Outcome<Bytes>)
    modifies part.bodyStream
    ensures r == PartOutcome(boundary, old(part.Now()))
    ensures r.Ok? ==> part.bodyStream.remaining == []
  {
    var encoded := BoundaryData(if part.hasInitialBoundary then Initial else Encapsulated, boundary);
    var headerData := EncodeHeaderData(part.headers);
    encoded := encoded + headerData;
    var body := EncodeBodyStream(part);
    if body.Throws? { return body; }
    encoded := encoded + body.value;
    encoded := encoded + if part.hasFinalBoundary then BoundaryData(Final, boundary) else [];
    return Ok(encoded);
  }

  method WriteInitialBoundaryData(boundary: Bytes, part: BodyPart, output: FileStream) returns (r: Outcome<()>)
    requires output.file.Valid()
    modifies output
    ensures var data := BoundaryData(if part.hasInitialBoundary then Initial else Encapsulated, boundary);
            output.file == old(output.file).Put(data) && r == WriteOutcome(old(output.file), data, false)
  {
    r := WriteBytes(BoundaryData(if part.hasInitialBoundary then Initial else Encapsulated, boundary), output);
  }

  method WriteHeaderData(part: BodyPart, output: FileStream) returns (r: Outcome<()>)
    requires output.file.Valid()
    modifies output
    ensures var data := EncodeHeaders(part.headers);
            output.file == old(output.file).Put(data) && r == WriteOutcome(old(output.file), data, false)
  {
    var headerData := EncodeHeaderData(part.headers);
    r := WriteBytes(headerData, output);
  }

  method WriteFinalBoundaryData(boundary: Bytes, part: BodyPart, output: FileStream) returns (r: Outcome<()>)
    requires output.file.Valid()
    modifies output
    ensures var data := if part.hasFinalBoundary then BoundaryData(Final, boundary) else [];
            output.file == old(output.file).Put(data) && r == WriteOutcome(old(output.file), data, false)
  {
    if part.hasFinalBoundary { r := WriteBytes(BoundaryData(Final, boundary), output); } else { r := Ok(()); }
  }

  /** Two writes in a row, of which the second is not made if the first throws. */
  lemma WriteThen(f: File, a: Bytes, broken: bool, b: Bytes, breaks: bool)
    requires f.Valid()
    ensures if WriteOutcome(f, a, broken).Throws? then
              f.Put(a + if broken then [] else b) == f.Put(a)
              && WriteOutcome(f, a + if broken then [] else b, broken || breaks) == WriteOutcome(f, a, broken)
            else
              f.Put(a + b) == f.Put(a).Put(b) && WriteOutcome(f, a + b, breaks) == WriteOutcome(f.Put(a), b, breaks)
  {
    WriteInTwo(f, a, b);
    assert a + [] == a;
  }

  lemma Append4(a: Bytes, b: Bytes, c: Bytes, d: Bytes)
    ensures a + b + c + d == a + (b + (c + d))
  {
  }

  /** write(_ bodyPart:to:) */
  method WriteBodyPart(boundary: Bytes, part: BodyPart, output: FileStream) returns (r: Outcome<()>)
    requires output.file.Valid()
    modifies part.bodyStream, output
    ensures var s := old(part.Now());
            output.file == old(output.file).Put(Streamed(boundary, s))
            && r == WriteOutcome(old(output.file), Streamed(boundary, s), s.breaks)
    ensures r.Ok? ==> part.bodyStream.remaining == []
  {
    ghost var f, s := output.file, part.Now();
    ghost var a := BoundaryData(if part.hasInitialBoundary then Initial else Encapsulated, boundary);
    ghost var b, c := EncodeHeaders(part.headers), s.part.body;
    ghost var d := if part.hasFinalBoundary && !s.breaks then BoundaryData(Final, boundary) else [];
    Append4(a, b, c, d);
    WriteThen(f, a, false, b + (c + d), s.breaks);
    r := WriteInitialBoundaryData(boundary, part, output);
    if r.Throws? { return; }
    WriteThen(f.Put(a), b, false, c + d, s.breaks);
    r := WriteHeaderData(part, output);
    if r.Throws? { return; }
    WriteThen(f.Put(a).Put(b), c, s.breaks, d, false);
    r := WriteBodyStream(part, output);
    if r.Throws? { return; }
    r := WriteFinalBoundaryData(boundary, part, output);
  }

  lemma WriteInTwo(f: File, a: Bytes, b: Bytes)
    requires f.Valid()
    ensures if f.Refuses(a) then f.Put(a + b) == f.Put(a) && f.Refuses(a + b)
            else f.Put(a + b) == f.Put(a).Put(b) && f.Refuses(a + b) == f.Put(a).Refuses(b)
  {
    if f.Refuses(a) { PutAfterRefusal(f, a, b); } else { PutBoth(f, a, b); }
  }

  lemma EncodesNext(encoded: Bytes, boundary: Bytes, sources: seq<Source>, i: nat)
    requires i < |sources|
    ensures var first := PartOutcome(boundary, sources[i]);
            After(encoded, EncodeOutcome(boundary, sources, i))
            == if first.Throws? then first else After(encoded + first.value, EncodeOutcome(boundary, sources, i + 1))
  {
    var first := PartOutcome(boundary, sources[i]);
    if first.Ok? && EncodeOutcome(boundary, sources, i + 1).Ok? {
      Append3(encoded, first.value, EncodeOutcome(boundary, sources, i + 1).value);
    }
  }

  lemma Append3(a: Bytes, b: Bytes, c: Bytes)
    ensures a + (b + c) == (a + b) + c
  {
  }

  lemma EncodesFirst(boundary: Bytes, sources: seq<Source>)
    ensures After([], EncodeOutcome(boundary, sources, 0)) == EncodeOutcome(boundary, sources, 0)
  {
    var r := EncodeOutcome(boundary, sources, 0);
    assert r.Ok? ==> [] + r.value == r.value;
  }

  /** `done` is what the parts before the i-th give to a file that was `f` before. */
  predicate StreamedSoFar(f: File, done: Bytes, boundary: Bytes, sources: seq<Source>, i: nat)
    requires i <= |sources|
  {
    f.Valid() && !f.Refuses(done)
    && StreamedFrom(boundary, sources, 0).0 == done + StreamedFrom(boundary, sources, i).0
    && StreamedFrom(boundary, sources, 0).1 == StreamedFrom(boundary, sources, i).1
  }

  /** What writing all parts leaves in the file, and how it ends. */
  function Written(f: File, boundary: Bytes, sources: seq<Source>): (File, Outcome<()>)
    requires f.Valid()
  {
    var s := StreamedFrom(boundary, sources, 0);
    (f.Put(s.0), WriteOutcome(f, s.0, s.1))
  }

  lemma StreamsNext(f: File, done: Bytes, boundary: Bytes, sources: seq<Source>, i: nat)
    requires i < |sources| && StreamedSoFar(f, done, boundary, sources, i)
    ensures var bytes := Streamed(boundary, sources[i]);
            var g, r := f.Put(done).Put(bytes), WriteOutcome(f.Put(done), bytes, sources[i].breaks);
            if r.Throws? then (g, r) == Written(f, boundary, sources)
            else g == f.Put(done + bytes) && StreamedSoFar(f, done + bytes, boundary, sources, i + 1)
  {
    var bytes := Streamed(boundary, sources[i]);
    WriteInTwo(f, done, bytes);
    if !sources[i].breaks {
      var rest := StreamedFrom(boundary, sources, i + 1).0;
      Append3(done, bytes, rest);
      if f.Refuses(done + bytes) { PutAfterRefusal(f, done + bytes, rest); }
    }
  }

  lemma StreamsStart(f: File, boundary: Bytes, sources: seq<Source>)
    requires f.Valid()
    ensures f.Put([]) == f && StreamedSoFar(f, [], boundary, sources, 0)
  {
    assert [] + StreamedFrom(boundary, sources, 0).0 == StreamedFrom(boundary, sources, 0).0;
  }

  lemma StreamsEnd(f: File, done: Bytes, boundary: Bytes, sources: seq<Source>)
    requires StreamedSoFar(f, done, boundary, sources, |sources|)
    ensures (f.Put(done), Ok(())) == Written(f, boundary, sources)
  {
    assert done + [] == done;
  }

  // ------------------------------------------------ the form

  class MultipartFormData {
    const boundary: Bytes
    var bodyParts: seq<BodyPart>
    var bodyPartError: Option<EncodingError>

    /** Parts are objects of their own, and only the first has ever been first. They may
        share a stream. */
    ghost predicate Valid()
      reads this, bodyParts
    {
      (forall i, j :: 0 <= i < j < |bodyParts| ==> bodyParts[i] != bodyParts[j])
      && forall i :: 0 < i < |bodyParts| ==> !bodyParts[i].hasInitialBoundary
    }

    ghost function Streams(): set<BodyStream>
      reads this
    {
      set p | p in bodyParts :: p.bodyStream
    }

    ghost predicate SharedSince(i: nat, j: nat)
      requires j < |bodyParts|
      reads this
    {
      exists k :: i <= k < j && bodyParts[k].bodyStream == bodyParts[j].bodyStream
    }

    /** What the j-th part is going to be, when those from the i-th to it have been read. */
    ghost function Turn(i: nat, j: nat): Source
      requires j < |bodyParts|
      reads this, bodyParts, Streams()
    {
      if SharedSince(i, j) then bodyParts[j].Now().UsedUp() else bodyParts[j].Now()
    }

    /** The parts as an encoder will find them, one after the other. */
    ghost function Sources(): seq<Source>
      reads this, bodyParts, Streams()
    {
      seq(|bodyParts|, j requires 0 <= j < |bodyParts| reads this, bodyParts, Streams() => Turn(0, j))
    }

    /** The parts from the i-th on are still as they were listed. */
    ghost predicate Waiting(sources: seq<Source>, i: nat)
      reads this, bodyParts, Streams()
    {
      |sources| == |bodyParts| && forall j :: i <= j < |bodyParts| ==> Turn(i, j) == sources[j]
    }

    /** The streams of the parts before the i-th have been read to the end. */
    ghost predicate Drained(i: nat)
      reads this, bodyParts, Streams()
    {
      forall k :: 0 <= k < i && k < |bodyParts| ==> bodyParts[k].bodyStream.remaining == []
    }

    /** What does not change while the parts are read. */
    ghost predicate Listed(sources: seq<Source>)
      reads this, bodyParts, Streams()
    {
      |sources| == |bodyParts|
      && forall k :: 0 <= k < |bodyParts| ==> bodyParts[k].Now().UsedUp() == sources[k].UsedUp()
    }

    constructor (boundary: Bytes)
      ensures Valid() && bodyParts == [] && bodyPartError.None? && this.boundary == boundary
    {
      this.boundary := boundary;
      bodyParts, bodyPartError := [], None;
    }

    /** append(_ stream:withLength:headers:) */
    method Append(stream: BodyStream, length: nat, headers: seq<Header>)
      requires Valid()
      modifies this`bodyParts
      ensures Valid() && Streams() == old(Streams()) + {stream}
      ensures Sources() == old(Sources())
                           + [Source(Part(headers, if stream in old(Streams()) then [] else stream.remaining),
                                     stream.breaks, length, false, false)]
    {
      var part := new BodyPart(headers, stream, length);
      ghost var before := bodyParts;
      bodyParts := bodyParts + [part];
      assert forall j :: 0 <= j < |before| ==> bodyParts[j] == before[j];
      assert stream in old(Streams()) <==> SharedSince(0, |before|);
      assert forall j :: 0 <= j < |before| ==> Turn(0, j) == old(Turn(0, j));
    }

    /** setBodyPartError(withReason:) keeps the first error. */
    method SetBodyPartError(error: EncodingError)
      modifies this`bodyPartError
      ensures bodyPartError == if old(bodyPartError).Some? then old(bodyPartError) else Some(error)
    {
      if bodyPartError.None? { bodyPartError := Some(error); }
    }

    method MarkBoundaries()
      requires Valid()
      modifies bodyParts
      ensures Valid() && Sources() == AtEnds(old(Sources()))
    {
      if bodyParts != [] {
        bodyParts[0].hasInitialBoundary := true;
        bodyParts[|bodyParts| - 1].hasFinalBoundary := true;
      }
    }

    /** The parts as they are now. */
    ghost function Snapshot(): seq<Source>
      reads this, bodyParts, Streams()
    {
      seq(|bodyParts|, k requires 0 <= k < |bodyParts| reads this, bodyParts, Streams() => bodyParts[k].Now())
    }

    /** Reading the i-th part to its end, when the parts were as in `was`, leaves the later
        ones waiting. */
    lemma ReadOne(sources: seq<Source>, i: nat, was: seq<Source>)
      requires i < |bodyParts| == |sources| == |was|
      requires forall j :: i <= j < |bodyParts| ==> sources[j] == if SharedSince(i, j) then was[j].UsedUp() else was[j]
      requires forall k :: 0 <= k < i ==> was[k].part.body == []
      requires forall k :: 0 <= k < |was| ==> was[k].UsedUp() == sources[k].UsedUp()
      requires forall k :: 0 <= k < |was| ==>
                 bodyParts[k].Now() == if bodyParts[k].bodyStream == bodyParts[i].bodyStream then was[k].UsedUp() else was[k]
      ensures Waiting(sources, i + 1) && Drained(i + 1) && Listed(sources)
    {
      forall j | i + 1 <= j < |bodyParts| ensures Turn(i + 1, j) == sources[j] {
        if bodyParts[j].bodyStream != bodyParts[i].bodyStream { assert SharedSince(i + 1, j) == SharedSince(i, j); }
      }
    }

    method EncodePartAt(ghost sources: seq<Source>, i: nat) returns (r: Outcome<Bytes>)
      requires i < |bodyParts| && Waiting(sources, i) && Drained(i) && Listed(sources)
      modifies bodyParts[i].bodyStream
      ensures r.Ok? ==> Waiting(sources, i + 1) && Drained(i + 1) && Listed(sources)
      ensures r == PartOutcome(boundary, sources[i])
    {
      ghost var was := Snapshot();
      assert forall j :: i <= j < |bodyParts| ==> Turn(i, j) == sources[j];
      r := EncodeBodyPart(boundary, bodyParts[i]);
      if r.Ok? { ReadOne(sources, i, was); }
    }

    method WritePartAt(ghost sources: seq<Source>, i: nat, output: FileStream) returns (r: Outcome<()>)
      requires i < |bodyParts| && Waiting(sources, i) && Drained(i) && Listed(sources) && output.file.Valid()
      modifies bodyParts[i].bodyStream, output
      ensures r.Ok? ==> Waiting(sources, i + 1) && Drained(i + 1) && Listed(sources)
      ensures output.file == old(output.file).Put(Streamed(boundary, sources[i]))
              && r == WriteOutcome(old(output.file), Streamed(boundary, sources[i]), sources[i].breaks)
    {
      ghost var was := Snapshot();
      assert forall j :: i <= j < |bodyParts| ==> Turn(i, j) == sources[j];
      r := WriteBodyPart(boundary, bodyParts[i], output);
      if r.Ok? { ReadOne(sources, i, was); }
    }

    ghost predicate Finished(sources: seq<Source>)
      reads this, bodyParts, Streams()
    {
      Drained(|bodyParts|) && Listed(sources)
    }

    lemma FinishedIsUsedUp(sources: seq<Source>)
      requires Finished(sources)
      ensures Sources() == AllUsedUp(sources)
    {
    }

    method EncodeParts(ghost sources: seq<Source>) returns (r: Outcome<Bytes>)
      requires Waiting(sources, 0) && Listed(sources)
      modifies Streams()
      ensures r == EncodeOutcome(boundary, sources, 0)
      ensures r.Ok? ==> Finished(sources)
    {
      var encoded: Bytes := [];
      EncodesFirst(boundary, sources);
      for i := 0 to |bodyParts|
        invariant Waiting(sources, i) && Drained(i) && Listed(sources)
        invariant EncodeOutcome(boundary, sources, 0) == After(encoded, EncodeOutcome(boundary, sources, i))
      {
        EncodesNext(encoded, boundary, sources, i);
        var data := EncodePartAt(sources, i);
        if data.Throws? { return data; }
        encoded := encoded + data.value;
      }
      assert encoded + [] == encoded;
      return Ok(encoded);
    }

    lemma Starts()
      ensures Waiting(Sources(), 0) && Listed(Sources())
    {
    }

    /** encode(); after it has succeeded every stream is used up and the flags stay. */
    method Encode() returns (r: Outcome<Bytes>)
      requires Valid()
      modifies bodyParts, Streams()
      ensures Valid()
      ensures r == if bodyPartError.Some? then Throws(bodyPartError.value)
                   else EncodeOutcome(boundary, AtEnds(old(Sources())), 0)
      ensures r.Ok? ==> Sources() == AllUsedUp(AtEnds(old(Sources())))
    {
      if bodyPartError.Some? { return Throws(bodyPartError.value); }
      MarkBoundaries();
      ghost var sources := Sources();
      Starts();
      r := EncodeParts(sources);
      if r.Ok? { FinishedIsUsedUp(sources); }
    }

    method WriteParts(ghost sources: seq<Source>, output: FileStream) returns (r: Outcome<()>)
      requires Waiting(sources, 0) && Listed(sources) && output.file.Valid()
      modifies Streams(), output
      ensures (output.file, r) == Written(old(output.file), boundary, sources)
      ensures r.Ok? ==> Finished(sources)
    {
      ghost var f := output.file;
      ghost var done: Bytes := [];
      StreamsStart(f, boundary, sources);
      for i := 0 to |bodyParts|
        invariant Waiting(sources, i) && Drained(i) && Listed(sources)
        invariant output.file == f.Put(done) && StreamedSoFar(f, done, boundary, sources, i)
      {
        StreamsNext(f, done, boundary, sources, i);
        r := WritePartAt(sources, i, output);
        if r.Throws? { return; }
        done := done + Streamed(boundary, sources[i]);
      }
      StreamsEnd(f, done, boundary, sources);
      return Ok(());
    }

    /** writeEncodedData(to:), on the stream of a file that has been opened. */
    method WriteEncodedData(output: FileStream) returns (r: Outcome<()>)
      requires Valid() && output.file.Valid()
      modifies bodyParts, Streams(), output
      ensures Valid()
      ensures if bodyPartError.Some? then r == Throws(bodyPartError.value) && output.file == old(output.file)
              else (output.file, r) == Written(old(output.file), boundary, AtEnds(old(Sources())))
      ensures r.Ok? ==> Sources() == AllUsedUp(AtEnds(old(Sources())))
    {
      if bodyPartError.Some? { return Throws(bodyPartError.value); }
      MarkBoundaries();
      ghost var sources := Sources();
      Starts();
      r := WriteParts(sources, output);
      if r.Ok? { FinishedIsUsedUp(sources); }
    }
  }

  // ------------------------------------------------ the two encoders agree

  /** Every stream ends, after as many bytes as were declared. */
  predicate AllAsDeclared(sources: seq<Source>) {
    forall s :: s in sources ==> !s.breaks && |s.part.body| == s.bodyContentLength
  }

  /** The parts from the i-th on, with the boundaries that their flags ask for. */
  function EncodeMarked(boundary: Bytes, sources: seq<Source>, i: nat): Bytes
    requires i <= |sources|
    decreases |sources| - i
  {
    if i == |sources| then []
    else EncodePart(boundary, sources[i].part, sources[i].initial, sources[i].final) + EncodeMarked(boundary, sources, i + 1)
  }

  lemma {:induction false} EncodeOutcomeFrom(boundary: Bytes, sources: seq<Source>, i: nat)
    requires i <= |sources|
    ensures EncodeOutcome(boundary, sources, i).Ok? == AllAsDeclared(sources[i..])
    ensures AllAsDeclared(sources[i..]) ==>
              EncodeOutcome(boundary, sources, i) == Ok(EncodeMarked(boundary, sources, i))
    decreases |sources| - i
  {
    if i < |sources| {
      EncodeOutcomeFrom(boundary, sources, i + 1);
      assert sources[i..] == [sources[i]] + sources[i + 1..];
    }
  }

  lemma {:induction false} StreamedFromAll(boundary: Bytes, sources: seq<Source>, i: nat)
    requires i <= |sources| && forall s :: s in sources ==> !s.breaks
    ensures StreamedFrom(boundary, sources, i) == (EncodeMarked(boundary, sources, i), false)
    decreases |sources| - i
  {
    if i < |sources| { StreamedFromAll(boundary, sources, i + 1); }
  }

  /** Only the first part has ever been first. */
  predicate FirstIsFirst(sources: seq<Source>) {
    forall i :: 0 < i < |sources| ==> !sources[i].initial
  }

  /** No part that has been last is followed by another. */
  predicate LastIsLast(sources: seq<Source>) {
    forall i :: 0 <= i < |sources| - 1 ==> !sources[i].final
  }

  lemma FinalBoundaryAdds(boundary: Bytes, part: Part, initial: bool)
    ensures |EncodePart(boundary, part, initial, true)| > |EncodePart(boundary, part, initial, false)|
  {
  }

  /** One part before parts that are in the format or longer. */
  lemma PartBeforeFormat(boundary: Bytes, s: Source, i: nat, last: bool, marked: Bytes, format: Bytes)
    requires marked == format || |marked| > |format|
    requires s.initial == (i == 0) && (last ==> s.final)
    ensures var a := EncodePart(boundary, s.part, s.initial, s.final) + marked;
            var b := EncodePart(boundary, s.part, i == 0, last) + format;
            if s.final == last && marked == format then a == b else |a| > |b|
  {
    FinalBoundaryAdds(boundary, s.part, s.initial);
  }

  predicate LastIsLastFrom(sources: seq<Source>, i: nat) {
    forall k :: i <= k < |sources| - 1 ==> !sources[k].final
  }

  lemma {:induction false} MarkedIsFormatFrom(boundary: Bytes, sources: seq<Source>, i: nat)
    requires FirstIsFirst(sources) && i <= |sources|
    ensures var marked, format := EncodeMarked(boundary, AtEnds(sources), i), EncodeFrom(boundary, PartsOf(sources), i);
            if LastIsLastFrom(sources, i) then marked == format else |marked| > |format|
    decreases |sources| - i
  {
    if i < |sources| {
      var last := i == |sources| - 1;
      MarkedIsFormatFrom(boundary, sources, i + 1);
      assert LastIsLastFrom(sources, i) == ((last || !sources[i].final) && LastIsLastFrom(sources, i + 1));
      PartBeforeFormat(boundary, AtEnds(sources)[i], i, last,
                       EncodeMarked(boundary, AtEnds(sources), i + 1), EncodeFrom(boundary, PartsOf(sources), i + 1));
    }
  }

  lemma MarkedIsFormat(boundary: Bytes, sources: seq<Source>)
    requires FirstIsFirst(sources)
    ensures EncodeMarked(boundary, AtEnds(sources), 0) == Multipart.Encode(boundary, PartsOf(sources)) <==> LastIsLast(sources)
  {
    MarkedIsFormatFrom(boundary, sources, 0);
    assert LastIsLastFrom(sources, 0) == LastIsLast(sources);
  }

  lemma SameDeclared(sources: seq<Source>)
    ensures AllAsDeclared(AtEnds(sources)) == AllAsDeclared(sources)
  {
    var marked := AtEnds(sources);
    if AllAsDeclared(marked) {
      forall s | s in sources ensures !s.breaks && |s.part.body| == s.bodyContentLength {
        var i :| 0 <= i < |sources| && sources[i] == s;
        assert marked[i] in marked;
      }
    }
  }

  /** encode() succeeds exactly if every stream ends after its declared length; and then it
      returns the parts in the multipart format exactly if no part that was last in an
      earlier encoding is followed by another. */
  lemma EncodeIsFormat(boundary: Bytes, sources: seq<Source>)
    requires FirstIsFirst(sources)
    ensures var r := EncodeOutcome(boundary, AtEnds(sources), 0);
            r.Ok? == AllAsDeclared(sources)
            && (r == Ok(Multipart.Encode(boundary, PartsOf(sources))) <==> AllAsDeclared(sources) && LastIsLast(sources))
  {
    EncodeOutcomeFrom(boundary, AtEnds(sources), 0);
    assert AtEnds(sources)[0..] == AtEnds(sources);
    SameDeclared(sources);
    MarkedIsFormat(boundary, sources);
  }

  /** A form that has been encoded and had parts appended is not encoded in the format again:
      the part that was last keeps its final boundary. */
  lemma SecondEncodeIsNotFormat(boundary: Bytes, sources: seq<Source>, more: seq<Source>)
    requires FirstIsFirst(sources) && sources != [] && more != [] && forall s :: s in more ==> !s.initial
    ensures var again := AllUsedUp(AtEnds(sources)) + more;
            EncodeOutcome(boundary, AtEnds(again), 0) != Ok(Multipart.Encode(boundary, PartsOf(again)))
  {
    var again := AllUsedUp(AtEnds(sources)) + more;
    assert FirstIsFirst(again) by {
      forall i | 0 < i < |again| ensures !again[i].initial {
        if i >= |sources| { assert again[i] == more[i - |sources|]; }
      }
    }
    assert again[|sources| - 1].final;
    EncodeIsFormat(boundary, again);
  }

  /** When encode() would succeed, writeEncodedData writes the same bytes, as far as the file
      takes them, however its streams cut them up. */
  lemma StreamingRefinesEncoding(boundary: Bytes, sources: seq<Source>)
    requires EncodeOutcome(boundary, sources, 0).Ok?
    ensures var e := EncodeOutcome(boundary, sources, 0).value;
            forall f: File :: f.Valid() ==>
              Written(f, boundary, sources) == (f.Put(e), if f.Refuses(e) then Throws(OutputStreamWriteFailed) else Ok(()))
  {
    EncodeOutcomeFrom(boundary, sources, 0);
    assert sources[0..] == sources;
    StreamedFromAll(boundary, sources, 0);
  }

  /** writeEncodedData, when no input stream fails, returns without an error exactly if the
      output stream takes all bytes or has no space without failing: in that last case the
      file is cut short and nobody is told. */
  lemma WritingSucceedsIff(f: File, boundary: Bytes, sources: seq<Source>)
    requires f.Valid() && forall s :: s in sources ==> !s.breaks
    ensures var e := EncodeMarked(boundary, sources, 0);
            var (g, r) := Written(f, boundary, sources);
            (r == Ok(()) <==> f.Takes(e) || !f.breaks) && (g.written == f.written + e <==> f.Takes(e))
  {
    StreamedFromAll(boundary, sources, 0);
  }

  // ------------------------------------------------ and how they fail

  lemma {:induction false} ErrorFrom(boundary: Bytes, sources: seq<Source>, j: nat, i: nat)
    requires j <= i < |sources| && (sources[i].breaks || |sources[i].part.body| != sources[i].bodyContentLength)
    requires forall k :: j <= k < i ==> !sources[k].breaks && |sources[k].part.body| == sources[k].bodyContentLength
    ensures EncodeOutcome(boundary, sources, j)
         == Throws(if sources[i].breaks then InputStreamReadFailed
                   else UnexpectedInputStreamLength(sources[i].bodyContentLength, |sources[i].part.body|))
    decreases i - j
  {
    if j < i { ErrorFrom(boundary, sources, j + 1, i); }
  }

  /** encode() throws the error of the first part that has one: its stream fails, or it does
      not deliver what was declared, and then the error names both lengths. */
  lemma FirstErrorIsThrown(boundary: Bytes, sources: seq<Source>, i: nat)
    requires i < |sources| && (sources[i].breaks || |sources[i].part.body| != sources[i].bodyContentLength)
    requires forall k :: 0 <= k < i ==> !sources[k].breaks && |sources[k].part.body| == sources[k].bodyContentLength
    ensures EncodeOutcome(boundary, sources, 0)
         == Throws(if sources[i].breaks then InputStreamReadFailed
                   else UnexpectedInputStreamLength(sources[i].bodyContentLength, |sources[i].part.body|))
  {
    ErrorFrom(boundary, sources, 0, i);
  }

  lemma {:induction false} StreamedUpTo(boundary: Bytes, sources: seq<Source>, j: nat, i: nat)
    requires j <= i < |sources| && sources[i].breaks && forall k :: j <= k < i ==> !sources[k].breaks
    ensures StreamedFrom(boundary, sources, j)
         == (EncodeMarked(boundary, sources[..i], j) + EncodePart(boundary, sources[i].part, sources[i].initial, false), true)
    decreases i - j
  {
    var last := EncodePart(boundary, sources[i].part, sources[i].initial, false);
    if j < i {
      StreamedUpTo(boundary, sources, j + 1, i);
      var part := EncodePart(boundary, sources[j].part, sources[j].initial, sources[j].final);
      Append3(part, EncodeMarked(boundary, sources[..i], j + 1), last);
    } else {
      assert [] + last == last;
    }
  }

  /** writeEncodedData, when the stream of some part is the first to fail: the file is given
      the parts before it, and of that part its boundary, its headers and what the stream
      delivered; and the error is that of the input stream, unless the output stream fails
      before. */
  lemma BrokenStreamIsReported(f: File, boundary: Bytes, sources: seq<Source>, i: nat)
    requires f.Valid() && i < |sources| && sources[i].breaks && forall k :: 0 <= k < i ==> !sources[k].breaks
    ensures var e := EncodeMarked(boundary, sources[..i], 0)
                     + EncodePart(boundary, sources[i].part, sources[i].initial, false);
            var (g, r) := Written(f, boundary, sources);
            r == Throws(if f.breaks && !f.Takes(e) then OutputStreamWriteFailed else InputStreamReadFailed)
            && (f.Takes(e) ==> g.written == f.written + e)
  {
    StreamedUpTo(boundary, sources, 0, i);
  }
}
