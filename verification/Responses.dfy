/** Reading a backend response and rebuilding it with one explicit Content-Length. */
module Responses {
  import opened Bytes
  import opened Text
  import opened Numbers
  import opened Streams
  import opened Headers
  import opened Requests
  import opened Chunked

  const TRANSFER_ENCODING: Bytes := Ascii("transfer-encoding")
  const CHUNKED: Bytes := Ascii("chunked")
  const CONTENT_LENGTH_NAME: Bytes := Ascii("Content-Length")

  datatype BodyMode = Fixed(length: nat) | ChunkedBody | UntilEof

  /** Statuses whose responses carry no body. */
  predicate Bodiless(status: nat) {
    100 <= status <= 199 || status == 204 || status == 304
  }

  function ParseStatusCode(head: Bytes): Result<nat> {
    if !IsUtf8(head) then Err(Parse(InvalidUtf8InStatusLine))
    else match FirstLine(head)
      case None => Err(Parse(MissingStatusLine))
      case Some(line) =>
        match NextWord(line)
        case None => Err(Parse(MissingHttpVersion))
        case Some((_, rest)) =>
          match NextWord(rest)
          case None => Err(Parse(MissingStatusCode))
          case Some((code, _)) =>
            match ParseUnsigned(code, 10, U16_MAX)
            case None => Err(Parse(InvalidStatusCode))
            case Some(n) => Ok(n)
  }

  function ModeOf(headers: seq<Header>, status: nat): Result<BodyMode> {
    if Bodiless(status) then Ok(Fixed(0))
    else if HeaderField(headers, TRANSFER_ENCODING).Some?
         && EqIgnoreCase(HeaderField(headers, TRANSFER_ENCODING).value, CHUNKED) then Ok(ChunkedBody)
    else match HeaderField(headers, CONTENT_LENGTH)
      case None => Ok(UntilEof)
      case Some(value) =>
        match ParseUnsigned(value, 10, USIZE_MAX)
        case None => Err(Parse(InvalidContentLengthInResponse))
        case Some(n) => Ok(Fixed(n))
  }

  // ---------- Bodies ----------

  /** A fixed-length body is the next `length` bytes, whatever the fragmentation. */
  function FixedBody(s: Bytes, end: End, length: nat, max: nat): Result<Bytes> {
    if length > max then Err(BodyTooLarge)
    else if length <= |s| then Ok(s[..length])
    else Err(if end == Closed then Parse(UnexpectedEndOfResponseBody) else DryError(end))
  }

  /** The two overrun checks of the original stand in the loop and behind it; neither branch can be
      taken, so the method returns only what `FixedBody` says. */
  method ReadFixedBody(stream: PrefixReader, length: nat, maxBytes: nat) returns (r: Result<Bytes>)
    requires stream.Valid()
    modifies stream, stream.inner
    ensures stream.Valid() && r == FixedBody(old(stream.Unread()), stream.inner.end, length, maxBytes)
    ensures r.Ok? ==> stream.Unread() == old(stream.Unread())[length..]
  {
    if length > maxBytes {
      return Err(BodyTooLarge);
    }
    var body := [];
    while |body| < length
      invariant stream.Valid() && |body| <= length && body + stream.Unread() == old(stream.Unread())
      decreases length - |body|
    {
      var need := length - |body|;
      var take := if need < 4096 then need else 4096;
      var got := stream.Read(take);
      if got.Err? {
        return Err(got.error);
      }
      if got.value == [] {
        return Err(Parse(UnexpectedEndOfResponseBody));
      }
      body := body + got.value;
      if |body| > maxBytes {
        assert false;
        return Err(BodyTooLarge);
      }
    }
    if |body| > length {
      assert false;
      return Err(Parse(ResponseBodyExceedsContentLength));
    }
    r := Ok(body);
  }

  /** A body that ends with the connection is everything, if the connection is closed in time. */
  function BodyUntilEof(s: Bytes, end: End, max: nat): Result<Bytes> {
    if |s| > max then Err(BodyTooLarge)
    else if end == Closed then Ok(s)
    else Err(DryError(end))
  }

  method ReadUntilEof(stream: PrefixReader, maxBytes: nat) returns (r: Result<Bytes>)
    requires stream.Valid()
    modifies stream, stream.inner
    ensures stream.Valid() && r == BodyUntilEof(old(stream.Unread()), stream.inner.end, maxBytes)
  {
    var body := [];
    while true
      invariant stream.Valid() && |body| <= maxBytes && body + stream.Unread() == old(stream.Unread())
      decreases |stream.Unread()|
    {
      var got := stream.Read(4096);
      if got.Err? {
        return Err(got.error);
      }
      if got.value == [] {
        assert body + stream.Unread() == body;
        return Ok(body);
      }
      body := body + got.value;
      if |body| > maxBytes {
        return Err(BodyTooLarge);
      }
    }
  }

  // ---------- The rebuilt response ----------

  predicate IsFraming(h: Header) {
    EqIgnoreCase(h.name, TRANSFER_ENCODING) || EqIgnoreCase(h.name, CONTENT_LENGTH)
  }

  /** The headers that are passed on. */
  function Kept(headers: seq<Header>): seq<Header> {
    if headers == [] then []
    else if IsFraming(headers[0]) then Kept(headers[1..])
    else [headers[0]] + Kept(headers[1..])
  }

  /** Every other field is kept as often as it stands there, and no framing field is. */
  lemma {:induction false} KeptMeaning(headers: seq<Header>, h: Header)
    ensures multiset(Kept(headers))[h]
         == if EqIgnoreCase(h.name, Ascii("transfer-encoding")) || EqIgnoreCase(h.name, Ascii("content-length")) then 0
            else multiset(headers)[h]
  {
    hide EqIgnoreCase, Ascii;
    if headers != [] {
      KeptMeaning(headers[1..], h);
      assert headers == [headers[0]] + headers[1..];
    }
  }

  lemma KeptAreOriginal(headers: seq<Header>)
    ensures forall h | h in Kept(headers) :: h in headers && !IsFraming(h)
  {
    hide EqIgnoreCase, Ascii, Kept;
    forall h | h in Kept(headers)
      ensures h in headers && !IsFraming(h)
    {
      KeptMeaning(headers, h);
      assert multiset(Kept(headers))[h] > 0;
      assert h in multiset(headers);
    }
  }

  /** The headers of the rebuilt response. */
  function Reframed(headers: seq<Header>, length: nat): seq<Header> {
    Kept(headers) + [Header(CONTENT_LENGTH_NAME, Decimal(length))]
  }

  function Rebuilt(statusLine: Bytes, headers: seq<Header>, body: Bytes): Bytes {
    PrintLines([statusLine] + FieldLines(Reframed(headers, |body|))) + body
  }

  function EncodeForwarded(head: Bytes, status: nat, headers: seq<Header>, body: Bytes): Result<Bytes> {
    if Bodiless(status) then Ok(head)
    else if !IsUtf8(head) then Err(Parse(InvalidUtf8InResponse))
    else match FirstLine(head)
      case None => Err(Parse(MissingStatusLine))
      case Some(statusLine) => Ok(Rebuilt(statusLine, headers, body))
  }

  method EncodeForwardedResponse(head: Bytes, status: nat, headers: seq<Header>, body: Bytes) returns (r: Result<Bytes>)
    ensures r == EncodeForwarded(head, status, headers, body)
  {
    hide IsFraming, IsUtf8, FirstLine, FieldLines, PrintLines, Join, Decimal, Ascii, Kept;
    assert Kept(headers[..0]) == [] && FieldLines([]) == [] by { KeptNothing(headers); }
    if Bodiless(status) {
      return Ok(head);
    }
    if !IsUtf8(head) {
      return Err(Parse(InvalidUtf8InResponse));
    }
    var statusLine := FirstLine(head);
    if statusLine.None? {
      return Err(Parse(MissingStatusLine));
    }
    var lines, k := [statusLine.value], 0;
    while k < |headers|
      invariant k <= |headers| && lines == [statusLine.value] + FieldLines(Kept(headers[..k]))
    {
      KeptSnoc(headers, k);
      if !IsFraming(headers[k]) {
        FieldLinesSnoc(Kept(headers[..k]), headers[k]);
        lines := lines + [FieldLine(headers[k])];
      }
      k := k + 1;
    }
    assert headers[..k] == headers;
    var length := Header(CONTENT_LENGTH_NAME, Decimal(|body|));
    FieldLinesSnoc(Kept(headers), length);
    lines := lines + [FieldLine(length)];
    assert lines == [statusLine.value] + FieldLines(Reframed(headers, |body|));
    JoinIsPrintLines(lines);
    r := Ok(Join(lines) + HEADER_END + body);
  }

  lemma KeptNothing(headers: seq<Header>)
    ensures Kept(headers[..0]) == [] && FieldLines([]) == []
  {
  }

  lemma KeptSnoc(headers: seq<Header>, k: nat)
    requires k < |headers|
    ensures Kept(headers[..k + 1])
         == if IsFraming(headers[k]) then Kept(headers[..k]) else Kept(headers[..k]) + [headers[k]]
  {
    hide IsFraming;
    KeptConcat(headers[..k], [headers[k]]);
    assert headers[..k] + [headers[k]] == headers[..k + 1];
  }

  lemma {:induction false} KeptConcat(a: seq<Header>, b: seq<Header>)
    ensures Kept(a + b) == Kept(a) + Kept(b)
  {
    hide IsFraming;
    if a == [] {
      assert a + b == b;
    } else {
      KeptConcat(a[1..], b);
      assert (a + b)[1..] == a[1..] + b;
    }
  }

  lemma {:induction false} FieldLinesSnoc(hs: seq<Header>, h: Header)
    ensures FieldLines(hs + [h]) == FieldLines(hs) + [FieldLine(h)]
  {
  }

  // ---------- The whole reader ----------

  /** What a head of a response says about the body behind it. */
  datatype ResponseHead = ResponseHead(headers: seq<Header>, status: nat, mode: BodyMode)

  function ReadHead(head: Bytes): Result<ResponseHead> {
    match HeaderFields(head)
    case Err(e) => Err(e)
    case Ok(headers) =>
      match ParseStatusCode(head)
      case Err(e) => Err(e)
      case Ok(status) =>
        match ModeOf(headers, status)
        case Err(e) => Err(e)
        case Ok(mode) => Ok(ResponseHead(headers, status, mode))
  }

  function BodyOf(mode: BodyMode, s: Bytes, end: End, max: nat): Result<Bytes> {
    match mode
    case Fixed(length) => FixedBody(s, end, length, max)
    case ChunkedBody => Decode(s, end, [], max).0
    case UntilEof => BodyUntilEof(s, end, max)
  }

  /** The answer for a stream cut after its head. */
  function Forward(head: Bytes, s: Bytes, end: End, max: nat): Result<Bytes> {
    match ReadHead(head)
    case Err(e) => Err(e)
    case Ok(h) =>
      match BodyOf(h.mode, s, end, max)
      case Err(e) => Err(e)
      case Ok(body) => EncodeForwarded(head, h.status, h.headers, body)
  }

  /** The answer for a whole stream under a schedule: only the reading of the head looks at it. */
  function ResponseRun(whole: Bytes, end: End, plan: seq<nat>, limits: Limits): Result<Bytes> {
    match HeaderRun(whole, end, plan, 0, limits.maxHeaderBytes)
    case Err(e) => Err(e)
    case Ok((headLen, _)) => Forward(whole[..headLen], whole[headLen..], end, limits.maxResponseBytes)
  }

  /** The same without a schedule: what the answer is outside the header-limit window. */
  function ResponseSpec(whole: Bytes, end: End, limits: Limits): Result<Bytes> {
    match HeadSpec(whole, end, limits.maxHeaderBytes)
    case Err(e) => Err(e)
    case Ok(l) =>
      if l <= |whole| then Forward(whole[..l], whole[l..], end, limits.maxResponseBytes) else Err(EmptyRequest)
  }

  lemma ResponseMeetsSpec(whole: Bytes, end: End, plan: seq<nat>, limits: Limits)
    requires OutsideWindow(whole, limits.maxHeaderBytes)
    ensures ResponseRun(whole, end, plan, limits) == ResponseSpec(whole, end, limits)
  {
    hide HeaderRun, Forward;
    HeadMeetsSpec(whole, end, plan, limits.maxHeaderBytes);
  }

  method ReadHttpResponse(stream: ByteStream, limits: Limits) returns (r: Result<Bytes>)
    modifies stream
    ensures r == ResponseRun(old(stream.data), stream.end, old(stream.plan), limits)
  {
    hide HeaderRun, HeadLen, ModeOf, ParseStatusCode, EncodeForwarded, Decode, HeaderFields, FixedBody, BodyUntilEof;
    ghost var whole := stream.data;
    var block, buffered := ReadHeaderBlock(stream, limits.maxHeaderBytes);
    if block.Err? {
      return Err(block.error);
    }
    var (head, prefix) := block.value;
    var headers := ParseHeaderFields(head);
    if headers.Err? {
      return Err(headers.error);
    }
    var status := ParseStatusCode(head);
    if status.Err? {
      return Err(status.error);
    }
    var mode := ModeOf(headers.value, status.value);
    if mode.Err? {
      return Err(mode.error);
    }
    var reader := new PrefixReader(prefix, stream);
    assert reader.Unread() == whole[|head|..];
    var body;
    match mode.value {
      case Fixed(length) => body := ReadFixedBody(reader, length, limits.maxResponseBytes);
      case ChunkedBody => body := ReadChunkedBody(reader, limits.maxResponseBytes);
      case UntilEof => body := ReadUntilEof(reader, limits.maxResponseBytes);
    }
    if body.Err? {
      return Err(body.error);
    }
    r := EncodeForwardedResponse(head, status.value, headers.value, body.value);
  }
}
