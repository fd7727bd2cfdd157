/** What a response as a backend prints it is answered with: the body that its status and fields frame,
    behind the rebuilt head. */
module PrintedResponses {
  import opened Bytes
  import opened Text
  import opened Numbers
  import opened Streams
  import opened Headers
  import opened Requests
  import opened Chunked
  import opened Responses
  import opened Forwarding

  function StatusLine(version: Bytes, code: nat, reason: Bytes): Bytes {
    version + [SPACE] + (Decimal(code) + [SPACE] + reason)
  }

  /** The parts of a response head. */
  datatype Parts = Parts(version: Bytes, code: nat, reason: Bytes, fields: seq<Header>)

  predicate Printable(p: Parts) {
    && IsWord(p.version) && p.code <= U16_MAX && GoodStatusLine(StatusLine(p.version, p.code, p.reason))
    && forall h | h in p.fields :: Clean(h)
  }

  function PrintedHead(p: Parts): Bytes {
    PrintLines(RebuiltLines(StatusLine(p.version, p.code, p.reason), p.fields))
  }

  /** The answer to a client: the status line, the fields that are passed on, one Content-Length, the body. */
  function Answer(p: Parts, body: Bytes): Bytes {
    PrintLines(RebuiltLines(StatusLine(p.version, p.code, p.reason),
                            Kept(p.fields) + [Header(Ascii("Content-Length"), Decimal(|body|))])) + body
  }

  /** The status says that there is no body (section 6.3 of RFC 9112). */
  predicate NeverABody(p: Parts) { 100 <= p.code <= 199 || p.code == 204 || p.code == 304 }

  /** The first Transfer-Encoding field says `chunked`. */
  ghost predicate SaysChunked(p: Parts) {
    exists t: nat ::
      FirstNamed(p.fields, Ascii("transfer-encoding"), t) && EqIgnoreCase(p.fields[t].value, Ascii("chunked"))
  }

  /** What reading a printed response comes to, in terms of the mode that its head selects. */
  lemma PrintedRun(p: Parts, mode: Result<BodyMode>, s: Bytes, end: End, plan: seq<nat>, limits: Limits)
    requires Printable(p) && |PrintedHead(p)| <= limits.maxHeaderBytes + 1 && ModeOf(p.fields, p.code) == mode
    ensures ResponseRun(PrintedHead(p) + s, end, plan, limits)
         == if mode.Err? then Err(mode.error)
            else var body := BodyOf(mode.value, s, end, limits.maxResponseBytes);
                 if body.Err? then body
                 else if NeverABody(p) then Ok(PrintedHead(p))
                 else Ok(Answer(p, body.value))
  {
    hide GoodStatusLine, IsWord, Clean, ModeOf, BodyOf, HeadLen, ResponseRun, RebuiltLines, PrintLines, StatusLine;
    hide HeaderFields, ParseStatusCode, FirstLine, IsUtf8, Kept, Decimal, Ascii;
    var line, head := StatusLine(p.version, p.code, p.reason), PrintedHead(p);
    PrintedStatus(p);
    RebuiltHeadReads(line, p.fields);
    RebuiltHeadLen(line, p.fields, s);
    FittingResponse(head + s, end, plan, limits);
    assert (head + s)[..|head|] == head && (head + s)[|head|..] == s;
    AnswerIsRebuilt(p, if mode.Ok? then BodyOf(mode.value, s, end, limits.maxResponseBytes).GetOr([]) else []);
  }

  lemma PrintedStatus(p: Parts)
    requires Printable(p)
    ensures ParseStatusCode(PrintedHead(p)) == Ok(p.code)
  {
    hide GoodStatusLine, IsWord, Clean, ParseStatusCode, RebuiltLines, PrintLines;
    StatusLineReads(p.version, p.code, p.reason, p.fields);
  }

  lemma AnswerIsRebuilt(p: Parts, body: Bytes)
    ensures Rebuilt(StatusLine(p.version, p.code, p.reason), p.fields, body) == Answer(p, body)
  {
    hide PrintLines, FieldLines, StatusLine, Kept;
  }

  /** A status without a body is answered with its head alone, whatever the fields say. */
  lemma NoBodyIsAnswered(p: Parts, s: Bytes, end: End, plan: seq<nat>, limits: Limits)
    requires Printable(p) && |PrintedHead(p)| <= limits.maxHeaderBytes + 1 && NeverABody(p)
    ensures ResponseRun(PrintedHead(p) + s, end, plan, limits) == Ok(PrintedHead(p))
  {
    hide Printable, PrintedHead, Answer, ResponseRun, HeaderField, EqIgnoreCase, Ascii;
    PrintedRun(p, Ok(Fixed(0)), s, end, plan, limits);
  }

  lemma ChunkedMode(p: Parts)
    requires !NeverABody(p)
    ensures ModeOf(p.fields, p.code) == Ok(ChunkedBody) <==> SaysChunked(p)
    ensures !SaysChunked(p) ==>
              (ModeOf(p.fields, p.code).Ok? ==> ModeOf(p.fields, p.code).value != ChunkedBody)
              && (ContentLength(p.fields).Ok? && HeaderField(p.fields, Ascii("content-length")).Some? ==>
                    ModeOf(p.fields, p.code) == Ok(Fixed(ContentLength(p.fields).value)))
              && (ContentLength(p.fields).Err? ==>
                    ModeOf(p.fields, p.code) == Err(Parse(InvalidContentLengthInResponse)))
              && (HeaderField(p.fields, Ascii("content-length")).None? ==> ModeOf(p.fields, p.code) == Ok(UntilEof))
  {
    hide EqIgnoreCase, Ascii, ParseUnsigned, HeaderField;
    HeaderFieldIs(p.fields, Ascii("transfer-encoding"));
  }

  /** A chunked response is answered with the data of its chunks, whatever a Content-Length says. */
  lemma ChunkedIsAnswered(p: Parts, f: Framing, extra: Bytes, end: End, plan: seq<nat>, limits: Limits)
    requires Printable(p) && |PrintedHead(p)| <= limits.maxHeaderBytes + 1 && !NeverABody(p) && SaysChunked(p)
    requires WellFormed(f) && RealLimit(limits)
    ensures ResponseRun(PrintedHead(p) + (Encode(f) + extra), end, plan, limits)
         == if |Payload(f.chunks)| <= limits.maxResponseBytes then Ok(Answer(p, Payload(f.chunks)))
            else Err(BodyTooLarge)
  {
    hide Printable, PrintedHead, Answer, ResponseRun, ModeOf, Encode, Payload, WellFormed, Decode, SaysChunked;
    ChunkedMode(p);
    PrintedRun(p, Ok(ChunkedBody), Encode(f) + extra, end, plan, limits);
    if |Payload(f.chunks)| <= limits.maxResponseBytes {
      DecodeComplete(f, extra, end, [], limits.maxResponseBytes);
      assert [] + Payload(f.chunks) == Payload(f.chunks);
    } else {
      DecodeTooLarge(f, extra, end, [], limits.maxResponseBytes);
    }
  }

  /** A chunked response is answered only with the data of a well-formed body within the limit. */
  lemma ChunkedAnswerIff(p: Parts, s: Bytes, end: End, plan: seq<nat>, limits: Limits, m: Bytes)
    requires Printable(p) && |PrintedHead(p)| <= limits.maxHeaderBytes + 1 && !NeverABody(p) && SaysChunked(p)
    requires RealLimit(limits)
    ensures ResponseRun(PrintedHead(p) + s, end, plan, limits) == Ok(m)
       <==> exists f, rest ::
              && WellFormed(f) && s == Encode(f) + rest
              && |Payload(f.chunks)| <= limits.maxResponseBytes && m == Answer(p, Payload(f.chunks))
  {
    hide Printable, PrintedHead, Answer, ResponseRun, ModeOf, Encode, Payload, WellFormed, Decode, SaysChunked;
    ChunkedMode(p);
    PrintedRun(p, Ok(ChunkedBody), s, end, plan, limits);
    var (b, rest) := Decode(s, end, [], limits.maxResponseBytes);
    if b.Ok? {
      DecodeIff(s, end, limits.maxResponseBytes, b.value, rest);
    }
    forall f, r | WellFormed(f) && s == Encode(f) + r && |Payload(f.chunks)| <= limits.maxResponseBytes
      ensures b == Ok(Payload(f.chunks))
    {
      DecodeIff(s, end, limits.maxResponseBytes, Payload(f.chunks), r);
    }
  }

  /** Without chunked coding, a response with a Content-Length is answered with exactly that many bytes;
      otherwise it is an error, and which one. */
  lemma FixedIsAnswered(p: Parts, length: Result<nat>, s: Bytes, end: End, plan: seq<nat>, limits: Limits)
    requires Printable(p) && |PrintedHead(p)| <= limits.maxHeaderBytes + 1 && !NeverABody(p) && !SaysChunked(p)
    requires Declares(p.fields, length)
    requires exists h :: h in p.fields && EqIgnoreCase(h.name, Ascii("content-length"))
    ensures ResponseRun(PrintedHead(p) + s, end, plan, limits)
         == match length
            case Err(_) => Err(Parse(InvalidContentLengthInResponse))
            case Ok(n) =>
              if n > limits.maxResponseBytes then Err(BodyTooLarge)
              else if n <= |s| then Ok(Answer(p, s[..n]))
              else Err(if end == Closed then Parse(UnexpectedEndOfResponseBody) else DryError(end))
  {
    hide Printable, PrintedHead, Answer, ResponseRun, ModeOf, ContentLength, Declares, SaysChunked, EqIgnoreCase, Ascii;
    ChunkedMode(p);
    ContentLengthIff(p.fields, length);
    HeaderFieldIs(p.fields, Ascii("content-length"));
    var mode: Result<BodyMode> :=
      if length.Ok? then Ok(Fixed(length.value)) else Err(Parse(InvalidContentLengthInResponse));
    PrintedRun(p, mode, s, end, plan, limits);
  }

  /** With neither, the body is everything up to the close of the connection, within the limit; a
      connection that is not closed gives no answer. */
  lemma UnframedIsAnswered(p: Parts, s: Bytes, end: End, plan: seq<nat>, limits: Limits)
    requires Printable(p) && |PrintedHead(p)| <= limits.maxHeaderBytes + 1 && !NeverABody(p) && !SaysChunked(p)
    requires forall h | h in p.fields :: !EqIgnoreCase(h.name, Ascii("content-length"))
    ensures ResponseRun(PrintedHead(p) + s, end, plan, limits)
         == if |s| > limits.maxResponseBytes then Err(BodyTooLarge)
            else match end
                 case Closed => Ok(Answer(p, s))
                 case Stalled => Err(Timeout)
                 case Failed => Err(Io)
  {
    hide Printable, PrintedHead, Answer, ResponseRun, ModeOf, ContentLength, SaysChunked, EqIgnoreCase, Ascii;
    ChunkedMode(p);
    HeaderFieldIs(p.fields, Ascii("content-length"));
    PrintedRun(p, Ok(UntilEof), s, end, plan, limits);
    UntilEofIff(s, end, limits.maxResponseBytes, s);
  }

  /** Any white space separates the words of a status line; the second is the code, which has to be a
      number of 16 bits. */
  lemma StatusCodeIs(head: Bytes, before: Bytes, version: Bytes, gap: Bytes, code: Bytes, rest: Bytes)
    requires IsUtf8(head) && head != [] && IsBlank(before) && IsWord(version) && IsBlank(gap) && IsWord(code)
    requires rest == [] || BlankLen(rest) > 0
    ensures FirstLine(head) == Some(before) ==> ParseStatusCode(head) == Err(Parse(MissingHttpVersion))
    ensures FirstLine(head) == Some(before + version + gap) ==>
              ParseStatusCode(head) == Err(Parse(MissingStatusCode))
    ensures gap != [] && FirstLine(head) == Some(before + version + (gap + code + rest)) ==>
              ParseStatusCode(head)
              == if IsNumeral(Unsigned(code), 10) && DigitsValue(Unsigned(code), 10).GetOr(0) <= U16_MAX
                 then Ok(DigitsValue(Unsigned(code), 10).GetOr(0)) else Err(Parse(InvalidStatusCode))
  {
    hide IsUtf8, NextWord, IsWord, IsBlank, BlankLen, FirstLine, ParseUnsigned, DigitsValue, IsNumeral, Unsigned;
    BlankStarts(gap);
    NextWordIs(before, version, gap);
    NextWordIs(gap, code, rest);
    ParseIff(code, 10, U16_MAX);
    if gap != [] {
      BlankLenExtends(gap, code + rest);
      assert gap + (code + rest) == gap + code + rest;
      NextWordIs(before, version, gap + code + rest);
    }
  }
}
