/**
 Reading an HTTP response: headers accumulate in a growing buffer until they parse, then the body
 follows by Content-Length (section 3.3.3 of RFC 7230). The header parser is a parameter.
 */
module Http {
  import opened Results
  import opened Bytes
  import opened Transport

  const INITIAL_BUF_SIZE: nat := 4096
  const MAX_HEADER_SIZE: nat := 8192

  datatype HttpError =
    | TIMEOUT | CANCELLED | CONNECTION_FAILED | HEADERS_TOO_LARGE | HEADER_PARSE_FAILED | BODY_TOO_LARGE

  datatype ResponseHeaders = ResponseHeaders(
    statusCode: int, headerEnd: nat, hasContentLength: bool, contentLength: nat, isChunked: bool)

  datatype HeaderParse = Incomplete | Failed(error: HttpError) | Parsed(headers: ResponseHeaders)

  datatype Outcome =
    | Response(statusCode: int, body: Octets)
    | Failure(error: HttpError)
    | ToChunkedDecoder(headers: ResponseHeaders)

  /** Once a prefix has been judged, more octets do not change the judgement. */
  ghost predicate PrefixStable(parse: Octets -> HeaderParse) {
    && (forall a, b :: parse(a) != Incomplete && a <= b ==> parse(b) == parse(a))
    && (forall a :: parse(a).Parsed? ==> parse(a).headers.headerEnd <= |a|)
  }

  function Min(a: nat, b: nat): nat {
    if a < b then a else b
  }

  /** The response that parsed headers announce, within everything the peer sends. */
  function Announced(h: ResponseHeaders, content: Octets, fault: HttpError): Outcome {
    if h.hasContentLength then
      if |content| < h.headerEnd + h.contentLength then Failure(fault)
      else Response(h.statusCode, content[h.headerEnd..h.headerEnd + h.contentLength])
    else if h.isChunked then ToChunkedDecoder(h)
    else Response(h.statusCode, [])
  }

  /** The response contained in everything the peer sends before the connection's fault. */
  function ResponseIn(content: Octets, fault: HttpError, parse: Octets -> HeaderParse): Outcome {
    match parse(content[..Min(|content|, MAX_HEADER_SIZE)])
    case Incomplete => Failure(if |content| >= MAX_HEADER_SIZE then HEADERS_TOO_LARGE else fault)
    case Failed(e) => Failure(e)
    case Parsed(h) => Announced(h, content, fault)
  }

  /** What of the buffered octets lies past the headers. */
  function BufferedBody(headers: ResponseHeaders, buffered: Octets): Octets {
    if |buffered| > headers.headerEnd then buffered[headers.headerEnd..] else []
  }

  /** `read_body`, Content-Length path: buffered octets first, the rest from the stream. */
  method ReadBody(stream: Connection<HttpError>, headers: ResponseHeaders, buffered: Octets)
    returns (r: Result<Octets, HttpError>)
    modifies stream
    ensures var content := BufferedBody(headers, buffered) + old(stream.pending);
            r == if |content| < headers.contentLength then Err(stream.fault) else Ok(content[..headers.contentLength])
  {
    ghost var content := BufferedBody(headers, buffered) + stream.pending;
    var bodyBuffered := if |buffered| > headers.headerEnd then |buffered| - headers.headerEnd else 0;
    var copySize := Min(bodyBuffered, headers.contentLength);
    var body: Octets := [];
    if bodyBuffered > 0 { body := buffered[headers.headerEnd..headers.headerEnd + copySize]; }
    assert body == content[..copySize];
    if bodyBuffered < headers.contentLength {
      var resized := new Byte[headers.contentLength](i => if 0 <= i < copySize then body[i] else 0);
      assert resized[..copySize] == body;
      var read := stream.ReadExact(resized, copySize);
      if read.Err? { return Err(read.error); }
      body := resized[..];
    }
    assert body == content[..headers.contentLength];
    return Ok(body);
  }

  /** The second phase of `read_response`, once the headers have parsed. */
  method FinishResponse(stream: Connection<HttpError>, h: ResponseHeaders, buffered: Octets) returns (r: Outcome)
    requires h.headerEnd <= |buffered|
    modifies stream
    ensures r == Announced(h, buffered + old(stream.pending), stream.fault)
  {
    if h.hasContentLength {
      ghost var content := buffered + stream.pending;
      assert BufferedBody(h, buffered) + stream.pending == content[h.headerEnd..];
      var body := ReadBody(stream, h, buffered);
      if body.Err? { return Failure(body.error); }
      return Response(h.statusCode, body.value);
    }
    if h.isChunked { return ToChunkedDecoder(h); }
    return Response(h.statusCode, []);
  }

  /** Doubling the buffer, up to the header limit. */
  method Grow(buf: array<Byte>) returns (larger: array<Byte>)
    requires 0 < buf.Length < MAX_HEADER_SIZE
    ensures fresh(larger) && buf.Length < larger.Length <= MAX_HEADER_SIZE
    ensures larger[..buf.Length] == buf[..]
  {
    larger := new Byte[Min(buf.Length * 2, MAX_HEADER_SIZE)];
    var i := 0;
    while i < buf.Length
      invariant i <= buf.Length && larger[..i] == buf[..i]
    {
      larger[i] := buf[i];
      assert larger[..i + 1] == larger[..i] + [buf[i]];
      i := i + 1;
    }
    assert buf[..buf.Length] == buf[..];
  }

  /** A verdict on what has been read so far is the verdict on all of it. */
  lemma VerdictStands(parse: Octets -> HeaderParse, content: Octets, total: nat, fault: HttpError)
    requires PrefixStable(parse) && total <= Min(|content|, MAX_HEADER_SIZE)
    ensures match parse(content[..total])
            case Incomplete => true
            case Failed(e) => ResponseIn(content, fault, parse) == Failure(e)
            case Parsed(h) => h.headerEnd <= total && ResponseIn(content, fault, parse) == Announced(h, content, fault)
  {
    hide Announced;
    assert content[..total] <= content[..Min(|content|, MAX_HEADER_SIZE)];
  }

  /** Without a verdict on all that can be read, the limit decides, or else the fault of the connection. */
  lemma NoVerdict(parse: Octets -> HeaderParse, content: Octets, total: nat, fault: HttpError)
    requires total == Min(|content|, MAX_HEADER_SIZE) && parse(content[..total]).Incomplete?
    ensures ResponseIn(content, fault, parse) == Failure(if total >= MAX_HEADER_SIZE then HEADERS_TOO_LARGE else fault)
  {
  }

  /** `read_response`: the outcome depends on the octets alone, however the stream delivers them. */
  method ReadResponse(stream: Connection<HttpError>, parse: Octets -> HeaderParse) returns (r: Outcome)
    requires PrefixStable(parse)
    modifies stream
    ensures r == ResponseIn(old(stream.pending), stream.fault, parse)
  {
    hide Announced, ResponseIn, PrefixStable;
    ghost var content := stream.pending;
    var buf := new Byte[Min(INITIAL_BUF_SIZE, MAX_HEADER_SIZE)];
    var total: nat := 0;
    assert content[0..] == content && buf[..0] == content[..0];
    while true
      invariant total <= buf.Length <= MAX_HEADER_SIZE && 0 < buf.Length && total <= |content|
      invariant buf[..total] == content[..total] && stream.pending == content[total..]
      invariant fresh(buf)
      decreases |content| - total
    {
      var result := parse(buf[..total]);
      VerdictStands(parse, content, total, stream.fault);
      if result.Parsed? {
        assert buf[..total] + stream.pending == content;
        r := FinishResponse(stream, result.headers, buf[..total]);
        return;
      }
      if result.Failed? { return Failure(result.error); }
      if total >= MAX_HEADER_SIZE {
        NoVerdict(parse, content, total, stream.fault);
        return Failure(HEADERS_TOO_LARGE);
      }
      if total == buf.Length {
        var larger := Grow(buf);
        assert larger[..total] == buf[..total];
        buf := larger;
      }
      var read := stream.ReadSome(buf, total);
      if read.Err? {
        assert content[..total] == content;
        NoVerdict(parse, content, total, stream.fault);
        return Failure(read.error);
      }
      assert content[..total + read.value] == content[..total] + content[total..][..read.value];
      total := total + read.value;
    }
  }

  // ------------------------------------------------------------------ what the outcome is

  /** Headers that parse on their own, behind each other with a body and anything else. */
  lemma HeadersStand(parse: Octets -> HeaderParse, header: Octets, more: Octets)
    requires PrefixStable(parse) && |header| <= MAX_HEADER_SIZE && parse(header) != Incomplete
    ensures parse((header + more)[..Min(|header + more|, MAX_HEADER_SIZE)]) == parse(header)
  {
    assert header <= (header + more)[..Min(|header + more|, MAX_HEADER_SIZE)];
  }

  predicate HeadersOf(header: Octets, h: ResponseHeaders) {
    h.headerEnd == |header| <= MAX_HEADER_SIZE
  }

  /** With a Content-Length the response holds exactly the octets of that number behind the headers. */
  lemma BodyArrives(parse: Octets -> HeaderParse, header: Octets, h: ResponseHeaders, body: Octets, rest: Octets, fault: HttpError)
    requires PrefixStable(parse) && parse(header) == Parsed(h) && HeadersOf(header, h)
    requires h.hasContentLength && h.contentLength == |body|
    ensures ResponseIn(header + body + rest, fault, parse) == Response(h.statusCode, body)
  {
    Regroup(header, body, rest);
    HeadersStand(parse, header, body + rest);
    assert (header + body + rest)[|header|..|header| + |body|] == body;
  }

  /** With fewer octets than announced the connection's fault is the outcome. */
  lemma BodyFallsShort(parse: Octets -> HeaderParse, header: Octets, h: ResponseHeaders, part: Octets, fault: HttpError)
    requires PrefixStable(parse) && parse(header) == Parsed(h) && HeadersOf(header, h)
    requires h.hasContentLength && |part| < h.contentLength
    ensures ResponseIn(header + part, fault, parse) == Failure(fault)
  {
    HeadersStand(parse, header, part);
  }

  /** With neither a Content-Length nor chunks there is no body, whatever follows. */
  lemma NoBodyAnnounced(parse: Octets -> HeaderParse, header: Octets, h: ResponseHeaders, rest: Octets, fault: HttpError)
    requires PrefixStable(parse) && parse(header) == Parsed(h) && HeadersOf(header, h)
    requires !h.hasContentLength && !h.isChunked
    ensures ResponseIn(header + rest, fault, parse) == Response(h.statusCode, [])
  {
    HeadersStand(parse, header, rest);
  }

  /** Chunks go to their decoder, unless there is a Content-Length as well. */
  lemma ChunksAreHandedOver(parse: Octets -> HeaderParse, header: Octets, h: ResponseHeaders, rest: Octets, fault: HttpError)
    requires PrefixStable(parse) && parse(header) == Parsed(h) && HeadersOf(header, h)
    requires !h.hasContentLength && h.isChunked
    ensures ResponseIn(header + rest, fault, parse) == ToChunkedDecoder(h)
  {
    HeadersStand(parse, header, rest);
  }

  /** Headers that are refused are the failure, whatever follows. */
  lemma HeadersRefused(parse: Octets -> HeaderParse, header: Octets, rest: Octets, error: HttpError, fault: HttpError)
    requires PrefixStable(parse) && |header| <= MAX_HEADER_SIZE && parse(header) == Failed(error)
    ensures ResponseIn(header + rest, fault, parse) == Failure(error)
  {
    HeadersStand(parse, header, rest);
  }

  /** Headers that go on past 8192 octets are too large, and headers that stop before they end fail as the connection does. */
  lemma HeadersNeverEnd(parse: Octets -> HeaderParse, first: Octets, rest: Octets, fault: HttpError)
    requires parse(first) == Incomplete && |first| <= 8192
    ensures |first| == 8192 ==> ResponseIn(first + rest, fault, parse) == Failure(HEADERS_TOO_LARGE)
    ensures |first| < 8192 && rest == [] ==> ResponseIn(first + rest, fault, parse) == Failure(fault)
  {
    assert (first + rest)[..|first|] == first;
  }
}
