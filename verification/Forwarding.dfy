/** What forwarding a response guarantees: one answer for every fragmentation, no waiting for the
    peer to close, the meaning of the message kept, and a printed form that reads back as itself. */
module Forwarding {
  import opened Bytes
  import opened Text
  import opened Numbers
  import opened Streams
  import opened Headers
  import opened Requests
  import opened Chunked
  import opened Responses

  /** A vector never holds `USIZE_MAX` bytes, so a limit of that size is no limit. */
  predicate RealLimit(limits: Limits) { limits.maxResponseBytes < USIZE_MAX }

  // ---------- Fragmentation ----------

  lemma {:induction false} DecodeError(s: Bytes, end: End, body: Bytes, max: nat)
    ensures Decode(s, end, body, max).0 != Err(Parse(HeaderBlockTooLarge))
    decreases |s|
  {
    hide SizeOf, LineOf;
    LineErrors(s, end);
    var (line, after) := LineOf(s, end);
    if line.Ok? {
      LineErrors(after, end);
      var size := SizeOf(line.value);
      if size.Ok? && size.value > 0 && size.value + 2 <= |after| {
        DecodeError(after[size.value..][2..], end, body + after[..size.value], max);
      }
    }
  }

  lemma LineErrors(s: Bytes, end: End)
    ensures var line := LineOf(s, end).0;
            if line.Err? then line != Err(Parse(HeaderBlockTooLarge))
            else SizeOf(line.value) != Err(Parse(HeaderBlockTooLarge))
    ensures LineOf(s, end).0.Ok? ==> |LineOf(s, end).1| < |s|
  {
    hide IsUtf8, ParseUnsigned, SizeToken;
  }

  lemma ForwardError(head: Bytes, s: Bytes, end: End, max: nat)
    ensures Forward(head, s, end, max) != Err(Parse(HeaderBlockTooLarge))
  {
    hide IsUtf8, HeaderFields, FirstLine, NextWord, ParseUnsigned, HeaderField, Ascii, Decode, Rebuilt;
    HeaderFieldsError(head);
    DecodeError(s, end, [], max);
  }

  ghost predicate ResponseIgnoresSchedule(whole: Bytes, end: End, limits: Limits) {
    forall p, q :: ResponseRun(whole, end, p, limits) == ResponseRun(whole, end, q, limits)
  }

  /** The response read is one function of the bytes, for every fragmentation, exactly when the
      head stays out of the header-limit window. */
  lemma ResponseIgnoresScheduleIff(whole: Bytes, end: End, limits: Limits)
    ensures ResponseIgnoresSchedule(whole, end, limits) <==> OutsideWindow(whole, limits.maxHeaderBytes)
  {
    hide HeaderRun, Forward, HeadLen;
    var max := limits.maxHeaderBytes;
    if OutsideWindow(whole, max) {
      forall p, q
        ensures ResponseRun(whole, end, p, limits) == ResponseRun(whole, end, q, limits)
      {
        HeadMeetsSpec(whole, end, p, max);
        HeadMeetsSpec(whole, end, q, max);
      }
    } else {
      WindowHeadDependsOnSchedule(whole, end, max);
      var l := HeaderRun(whole, end, Trickle(max, []), 0, max).value.0;
      ForwardError(whole[..l], whole[l..], end, limits.maxResponseBytes);
      assert ResponseRun(whole, end, Trickle(max + 1, []), limits) != ResponseRun(whole, end, Trickle(max, []), limits);
    }
  }

  /** With a fitting head, the answer is the one for the stream cut after its head. */
  lemma FittingResponse(whole: Bytes, end: End, plan: seq<nat>, limits: Limits)
    requires HeadLen(whole).Some? && HeadLen(whole).value <= limits.maxHeaderBytes + 1
    ensures var l := HeadLen(whole).value;
            ResponseRun(whole, end, plan, limits) == Forward(whole[..l], whole[l..], end, limits.maxResponseBytes)
  {
    hide HeaderRun, Forward;
    FittingHeadIsAccepted(whole, end, plan, 0, limits.maxHeaderBytes);
  }

  // ---------- No wait for close ----------

  /** A body that is complete stays what it is, whatever follows and however the connection ends. */
  lemma BodyIgnoresRest(mode: BodyMode, s: Bytes, end: End, max: nat, extra: Bytes, later: End)
    requires max < USIZE_MAX && mode != UntilEof && BodyOf(mode, s, end, max).Ok?
    ensures BodyOf(mode, s + extra, later, max) == BodyOf(mode, s, end, max)
  {
    hide Decode, WellFormed, Encode;
    if mode.Fixed? {
      assert (s + extra)[..mode.length] == s[..mode.length];
    } else {
      var (b, rest) := Decode(s, end, [], max);
      DecodeIff(s, end, max, b.value, rest);
      var f :| WellFormed(f) && s == Encode(f) + rest && b.value == Payload(f.chunks) && |b.value| <= max;
      assert s + extra == Encode(f) + (rest + extra);
      DecodeIff(s + extra, later, max, b.value, rest + extra);
    }
  }

  ghost predicate AnswersAtOnce(whole: Bytes, limits: Limits, m: Bytes) {
    forall extra, later, plan :: ResponseRun(whole + extra, later, plan, limits) == Ok(m)
  }

  /** A response that was read needs nothing more from the backend (no close, no further byte),
      exactly when its framing does not rely on the end of the connection. */
  lemma NoWaitForCloseIff(whole: Bytes, end: End, plan: seq<nat>, limits: Limits, m: Bytes)
    requires RealLimit(limits) && ResponseRun(whole, end, plan, limits) == Ok(m)
    requires HeadLen(whole).Some? && HeadLen(whole).value <= limits.maxHeaderBytes + 1
    ensures ReadHead(whole[..HeadLen(whole).value]).Ok?
    ensures AnswersAtOnce(whole, limits, m) <==> ReadHead(whole[..HeadLen(whole).value]).value.mode != UntilEof
  {
    hide ReadHead, HeadLen, EncodeForwarded, ResponseRun, BodyOf;
    FittingResponse(whole, end, plan, limits);
    var l := HeadLen(whole).value;
    var head, s := whole[..l], whole[l..];
    var h := ReadHead(head).value;
    if h.mode == UntilEof {
      FittingResponse(whole, Stalled, plan, limits);
      UntilEofIff(s, Stalled, limits.maxResponseBytes, []);
      assert whole + [] == whole;
      assert ResponseRun(whole + [], Stalled, plan, limits) != Ok(m);
    } else {
      forall extra, later, other
        ensures ResponseRun(whole + extra, later, other, limits) == Ok(m)
      {
        HeadLenOfPrefix(whole, extra);
        FittingResponse(whole + extra, later, other, limits);
        assert (whole + extra)[..l] == head && (whole + extra)[l..] == s + extra;
        BodyIgnoresRest(h.mode, s, end, limits.maxResponseBytes, extra, later);
      }
    }
  }

  /** A body without framing is complete only when the peer closes: a connection that times out or fails
      leaves no body, whatever came before. */
  lemma UntilEofIff(s: Bytes, end: End, max: nat, body: Bytes)
    ensures BodyOf(UntilEof, s, end, max) == Ok(body) <==> end == Closed && body == s && |s| <= max
    ensures |s| > max ==> BodyOf(UntilEof, s, end, max) == Err(BodyTooLarge)
    ensures |s| <= max ==>
              && (end == Stalled ==> BodyOf(UntilEof, s, end, max) == Err(Timeout))
              && (end == Failed ==> BodyOf(UntilEof, s, end, max) == Err(Io))
  {
  }

  /** In fixed mode the body is exactly the next `length` bytes. */
  lemma FixedBodyIff(s: Bytes, end: End, length: nat, max: nat, body: Bytes)
    ensures BodyOf(Fixed(length), s, end, max) == Ok(body) <==> |body| == length && length <= max && body <= s
  {
    if |body| == length && body <= s {
      assert s[..length] == body;
    }
  }

  // ---------- The rebuilt head ----------

  lemma BodyWithinLimit(mode: BodyMode, s: Bytes, end: End, max: nat)
    requires max < USIZE_MAX && BodyOf(mode, s, end, max).Ok?
    ensures |BodyOf(mode, s, end, max).value| <= max
  {
    hide Decode, WellFormed, Encode, Payload;
    if mode == ChunkedBody {
      DecodeIff(s, end, max, Decode(s, end, [], max).0.value, Decode(s, end, [], max).1);
    }
  }

  predicate GoodStatusLine(line: Bytes) {
    line != [] && Find(line, [LF]).None? && Find(line, CRLF).None? && IsUtf8(line)
  }

  lemma StatusLineIsGood(head: Bytes)
    requires ParseStatusCode(head).Ok?
    ensures FirstLine(head).Some? && GoodStatusLine(FirstLine(head).value)
  {
    hide NextWord, ParseUnsigned, IsUtf8;
    var line := FirstLine(head).value;
    FirstLineMeaning(head);
    NextWordOfNothing();
    if Find(line, CRLF).Some? {
      CrlfAt(line, Find(line, CRLF).value);
      ByteAt(line, LF, Find(line, CRLF).value + 1);
    }
  }

  lemma NextWordOfNothing()
    ensures NextWord([]) == None
  {
  }

  lemma FirstLineMeaning(s: Bytes)
    requires s != [] && IsUtf8(s)
    ensures Find(FirstLine(s).value, [LF]).None? && IsUtf8(FirstLine(s).value)
  {
    hide IsUtf8;
    var line := FirstLine(s).value;
    var found := Find(s, [LF]);
    if found.Some? {
      ByteAt(s, LF, found.value);
      assert line == s[..|line|];
      Utf8Cut(s, |line|);
      if Find(line, [LF]).Some? {
        var j := Find(line, [LF]).value;
        ByteAt(line, LF, j);
        ByteAt(s, LF, j);
      }
    }
  }

  /** The line in front of a CRLF is the first line, when it has no LF. */
  lemma FirstLineBeforeCrlf(line: Bytes, rest: Bytes)
    requires Find(line, [LF]).None?
    ensures FirstLine(line + CRLF + rest) == Some(line)
  {
    var s := line + CRLF + rest;
    ByteAt(s, LF, |line| + 1);
    forall j: nat | j < |line| + 1
      ensures !Occurs(s, [LF], j)
    {
      ByteAt(s, LF, j);
      ByteAt(line, LF, j);
    }
    FindIs(s, [LF], |line| + 1);
    assert s[..|line|] == line;
  }

  lemma DecimalIsClean(n: nat)
    ensures Trim(Decimal(n)) == Decimal(n) && IsUtf8(Decimal(n))
    ensures Find(Decimal(n), CRLF).None?
    ensures ParseUnsigned(Decimal(n), 10, USIZE_MAX) == if n <= USIZE_MAX then Some(n) else None
  {
    hide Trim, IsUtf8, ParseUnsigned;
    var d := Decimal(n);
    DecimalIsHex(n);
    HexIsPlain(d);
    assert Zeros(0) + d == d;
    ParseUndoesPrint(n, 10, false, 0, USIZE_MAX);
    if Find(d, CRLF).Some? {
      var at := Find(d, CRLF).value;
      assert d[at] in d;
      CrlfAt(d, at);
    }
  }

  lemma {:induction false} DecimalIsHex(n: nat)
    ensures forall b | b in Decimal(n) :: HexByte(b)
    decreases n
  {
    if n >= 10 {
      DecimalIsHex(n / 10);
    }
  }

  lemma LengthNameIsClean()
    ensures Trim(CONTENT_LENGTH_NAME) == CONTENT_LENGTH_NAME && IsUtf8(CONTENT_LENGTH_NAME)
    ensures Find(CONTENT_LENGTH_NAME, [COLON]).None? && Find(CONTENT_LENGTH_NAME, CRLF).None?
  {
    hide Ascii, Trim, IsUtf8, Find;
    AsciiAt("Content-Length");
    LettersAreClean(CONTENT_LENGTH_NAME);
  }

  lemma LettersAreClean(s: Bytes)
    requires s != [] && forall k | 0 <= k < |s| :: 32 < s[k] < 128 && s[k] != COLON
    ensures Trim(s) == s && IsUtf8(s) && Find(s, [COLON]).None? && Find(s, CRLF).None?
  {
    hide IsUtf8;
    Utf8Ascii(s);
    if Find(s, [COLON]).Some? {
      ByteAt(s, COLON, Find(s, [COLON]).value);
    }
    if Find(s, CRLF).Some? {
      CrlfAt(s, Find(s, CRLF).value);
    }
  }

  /** The three names compare as the code relies on. */
  lemma LengthNameIsFraming()
    ensures EqIgnoreCase(CONTENT_LENGTH_NAME, CONTENT_LENGTH)
    ensures !EqIgnoreCase(CONTENT_LENGTH_NAME, TRANSFER_ENCODING)
  {
    hide Ascii;
    AsciiAt("Content-Length");
    AsciiAt("content-length");
    AsciiAt("transfer-encoding");
  }

  lemma LengthHeaderIsClean(n: nat)
    ensures Clean(Header(CONTENT_LENGTH_NAME, Decimal(n)))
  {
    hide Trim, IsUtf8, Decimal, Ascii;
    LengthNameIsClean();
    DecimalIsClean(n);
    NoCrlfAcrossField(CONTENT_LENGTH_NAME, Decimal(n));
  }

  lemma ReframedIsClean(head: Bytes, n: nat)
    requires HeaderFields(head).Ok?
    ensures forall h | h in Reframed(HeaderFields(head).value, n) :: Clean(h)
  {
    hide Clean, HeaderFields, IsFraming, Ascii;
    FieldsAreClean(head);
    KeptAreOriginal(HeaderFields(head).value);
    LengthHeaderIsClean(n);
  }

  /** Dropping the framing fields twice is dropping them once; the new field is dropped as well. */
  lemma KeptOfReframed(headers: seq<Header>, n: nat)
    ensures Kept(Reframed(headers, n)) == Kept(headers)
  {
    hide Ascii, EqIgnoreCase, Decimal;
    LengthNameIsFraming();
    KeptOfKept(headers);
    KeptConcat(Kept(headers), [Header(CONTENT_LENGTH_NAME, Decimal(n))]);
  }

  lemma {:induction false} KeptOfKept(headers: seq<Header>)
    ensures Kept(Kept(headers)) == Kept(headers)
  {
    hide IsFraming;
    if headers != [] {
      KeptOfKept(headers[1..]);
    }
  }

  lemma ModeOfReframed(headers: seq<Header>, status: nat, n: nat)
    requires !Bodiless(status) && n <= USIZE_MAX
    ensures ModeOf(Reframed(headers, n), status) == Ok(Fixed(n))
  {
    hide Ascii, EqIgnoreCase, Decimal, ParseUnsigned;
    LengthNameIsFraming();
    DecimalIsClean(n);
    KeptAreOriginal(headers);
    var last := [Header(CONTENT_LENGTH_NAME, Decimal(n))];
    HeaderFieldAfter(Kept(headers), last, TRANSFER_ENCODING);
    HeaderFieldAfter(Kept(headers), last, CONTENT_LENGTH);
    assert HeaderField(last[1..], TRANSFER_ENCODING) == None;
  }

  /** The lines of a rebuilt head. */
  function RebuiltLines(statusLine: Bytes, fields: seq<Header>): seq<Bytes> {
    [statusLine] + FieldLines(fields)
  }

  lemma LinesAreGood(statusLine: Bytes, fields: seq<Header>)
    requires GoodStatusLine(statusLine) && forall h | h in fields :: Clean(h)
    ensures forall l | l in RebuiltLines(statusLine, fields) :: l != [] && Find(l, CRLF).None? && IsUtf8(l)
  {
    hide Find, Trim, IsUtf8;
    forall k | 0 <= k < |fields|
      ensures FieldLine(fields[k]) != [] && Find(FieldLine(fields[k]), CRLF).None? && IsUtf8(FieldLine(fields[k]))
    {
      assert fields[k] in fields;
      FieldLineIsUtf8(fields[k]);
    }
  }

  /** A rebuilt head reads back as the fields and the status line it was printed from. */
  lemma RebuiltHeadReads(statusLine: Bytes, fields: seq<Header>)
    requires GoodStatusLine(statusLine) && forall h | h in fields :: Clean(h)
    ensures HeaderFields(PrintLines(RebuiltLines(statusLine, fields))) == Ok(fields)
    ensures FirstLine(PrintLines(RebuiltLines(statusLine, fields))) == Some(statusLine)
    ensures IsUtf8(PrintLines(RebuiltLines(statusLine, fields)))
  {
    hide Find, Split, FirstLine, IsUtf8, Clean, FieldsOf;
    var lines := RebuiltLines(statusLine, fields);
    LinesAreGood(statusLine, fields);
    PrintLinesUtf8(lines);
    SplitPrintLines(lines);
    FieldsOfPrinted(fields, [[], []]);
    assert (lines + [[], []])[1..] == FieldLines(fields) + [[], []];
    FirstLineBeforeCrlf(statusLine, PrintLines(lines[1..]));
  }

  lemma RebuiltHeadLen(statusLine: Bytes, fields: seq<Header>, extra: Bytes)
    requires GoodStatusLine(statusLine) && forall h | h in fields :: Clean(h)
    ensures var head := PrintLines(RebuiltLines(statusLine, fields));
            HeadLen(head + extra) == Some(|head|)
  {
    hide Find, IsUtf8, Clean;
    LinesAreGood(statusLine, fields);
    HeadEndOfPrintLines(RebuiltLines(statusLine, fields), extra);
  }

  lemma StatusOfFirstLine(head: Bytes, rebuilt: Bytes)
    requires ParseStatusCode(head).Ok? && IsUtf8(rebuilt) && FirstLine(rebuilt) == FirstLine(head)
    ensures ParseStatusCode(rebuilt) == ParseStatusCode(head)
  {
    hide IsUtf8, FirstLine, NextWord, ParseUnsigned;
  }

  /** Reframing (section 7.1.3 of RFC 9112): the head of the answer has the same status code; its
      fields are the original ones in order, without every Transfer-Encoding and Content-Length,
      then one Content-Length equal to the length of the decoded body; the body follows it. */
  lemma ReframingKeepsMeaning(head: Bytes, s: Bytes, end: End, max: nat)
    requires Forward(head, s, end, max).Ok? && !Bodiless(ReadHead(head).value.status)
    ensures var h := ReadHead(head).value;
            var body := BodyOf(h.mode, s, end, max).value;
            var m := Forward(head, s, end, max).value;
            && HeadLen(m).Some?
            && var l := HeadLen(m).value;
            && HeaderFields(m[..l]) == Ok(Reframed(h.headers, |body|))
            && ParseStatusCode(m[..l]) == Ok(h.status)
            && FirstLine(m[..l]) == FirstLine(head)
            && m[l..] == body
  {
    hide HeaderFields, ParseStatusCode, ModeOf, BodyOf, HeadLen, FirstLine, IsUtf8;
    hide GoodStatusLine, Clean, PrintLines, Reframed, FieldLines;
    var h := ReadHead(head).value;
    var body := BodyOf(h.mode, s, end, max).value;
    StatusLineIsGood(head);
    var statusLine, fields := FirstLine(head).value, Reframed(h.headers, |body|);
    ReframedIsClean(head, |body|);
    var printed := PrintLines(RebuiltLines(statusLine, fields));
    RebuiltHeadReads(statusLine, fields);
    RebuiltHeadLen(statusLine, fields, body);
    assert Forward(head, s, end, max).value == printed + body;
    assert (printed + body)[..|printed|] == printed && (printed + body)[|printed|..] == body;
    StatusOfFirstLine(head, printed);
  }

  // ---------- The fixpoint ----------

  /** A rebuilt response, cut after its head, is forwarded as itself. */
  lemma RebuiltIsForwarded(head: Bytes, s: Bytes, end: End, max: nat, extra: Bytes, later: End)
    requires max < USIZE_MAX
    requires Forward(head, s, end, max).Ok? && !Bodiless(ReadHead(head).value.status)
    ensures var m := Forward(head, s, end, max).value;
            && HeadLen(m).Some?
            && var l := HeadLen(m).value;
               Forward(m[..l], m[l..] + extra, later, max) == Ok(m)
  {
    hide HeaderFields, ParseStatusCode, ModeOf, BodyOf, HeadLen, FirstLine, IsUtf8, PrintLines, Reframed, FieldLines,
         Kept;
    var h := ReadHead(head).value;
    var body := BodyOf(h.mode, s, end, max).value;
    var m := Forward(head, s, end, max).value;
    BodyWithinLimit(h.mode, s, end, max);
    ReframingKeepsMeaning(head, s, end, max);
    ModeOfReframed(h.headers, h.status, |body|);
    FixedBodyIff(body + extra, later, |body|, max, body);
    RebuiltAgain(h.headers, |body|);
    var printed := m[..HeadLen(m).value];
    ParsedIsUtf8(printed);
    ParsedIsUtf8(head);
  }

  lemma RebuiltAgain(headers: seq<Header>, n: nat)
    ensures Reframed(Reframed(headers, n), n) == Reframed(headers, n)
  {
    hide Kept, Decimal;
    KeptOfReframed(headers, n);
  }

  lemma ParsedIsUtf8(head: Bytes)
    requires HeaderFields(head).Ok?
    ensures IsUtf8(head)
  {
    hide IsUtf8;
  }

  lemma BodilessIsForwarded(head: Bytes, s: Bytes, end: End, max: nat, extra: Bytes, later: End)
    requires Forward(head, s, end, max).Ok? && Bodiless(ReadHead(head).value.status)
    ensures Forward(head, s, end, max) == Ok(head) && Forward(head, extra, later, max) == Ok(head)
  {
    hide HeaderFields, ParseStatusCode, HeaderField, Ascii, IsUtf8, FirstLine;
  }

  /** Forwarding the answer again gives the answer again, when its head fits the limit: for every
      fragmentation, whatever follows it and however the connection ends. */
  lemma ForwardingIsFixpoint(whole: Bytes, end: End, plan: seq<nat>, limits: Limits, m: Bytes)
    requires RealLimit(limits) && ResponseRun(whole, end, plan, limits) == Ok(m)
    ensures HeadLen(m).Some?
    ensures HeadLen(m).value <= limits.maxHeaderBytes + 1 ==> AnswersAtOnce(m, limits, m)
  {
    hide HeaderRun, Forward, HeadLen, ReadHead;
    var max := limits.maxResponseBytes;
    AcceptedHead(whole, end, plan, 0, limits.maxHeaderBytes);
    HeadLenOfPrefix(whole, []);
    var headLen := HeadLen(whole).value;
    var head, s := whole[..headLen], whole[headLen..];
    ForwardNeedsHead(head, s, end, max);
    if Bodiless(ReadHead(head).value.status) {
      BodilessIsForwarded(head, s, end, max, [], end);
    } else {
      RebuiltIsForwarded(head, s, end, max, [], end);
    }
    var l := HeadLen(m).value;
    if l <= limits.maxHeaderBytes + 1 {
      forall extra, later, other
        ensures ResponseRun(m + extra, later, other, limits) == Ok(m)
      {
        HeadLenOfPrefix(m, extra);
        FittingResponse(m + extra, later, other, limits);
        assert (m + extra)[..l] == m[..l] && (m + extra)[l..] == m[l..] + extra;
        if Bodiless(ReadHead(head).value.status) {
          BodilessIsForwarded(head, s, end, max, extra, later);
          assert m[..l] == m && m[l..] + extra == extra;
        } else {
          RebuiltIsForwarded(head, s, end, max, extra, later);
        }
      }
    }
  }

  lemma ForwardNeedsHead(head: Bytes, s: Bytes, end: End, max: nat)
    requires Forward(head, s, end, max).Ok?
    ensures ReadHead(head).Ok?
  {
    hide ReadHead;
  }

  /** The limit on the printed head is exact: one byte more and some fragmentation rejects it. */
  lemma ForwardingIsFixpointIff(whole: Bytes, end: End, plan: seq<nat>, limits: Limits, m: Bytes)
    requires RealLimit(limits) && ResponseRun(whole, end, plan, limits) == Ok(m)
    ensures HeadLen(m).Some?
    ensures AnswersAtOnce(m, limits, m) <==> HeadLen(m).value <= limits.maxHeaderBytes + 1
  {
    hide HeaderRun, HeadLen, Forward;
    ForwardingIsFixpoint(whole, end, plan, limits, m);
    var max := limits.maxHeaderBytes;
    if HeadLen(m).value > max + 1 {
      assert m + [] == m;
      if HeadLen(m).value <= max + CHUNK_SIZE {
        WindowHeadDependsOnSchedule(m, end, max);
      } else {
        HugeHeadIsRejected(m, end, Trickle(max + 1, []), 0, max);
      }
      assert ResponseRun(m + [], end, Trickle(max + 1, []), limits) != Ok(m);
    }
  }

  // ---------- The limit on the answer's head is needed ----------

  /** A status line as a backend prints it reads back as its code. */
  lemma StatusLineReads(version: Bytes, code: nat, reason: Bytes, fields: seq<Header>)
    requires IsWord(version) && code <= U16_MAX
    requires var line := version + [SPACE] + (Decimal(code) + [SPACE] + reason); GoodStatusLine(line)
    requires forall h | h in fields :: Clean(h)
    ensures var line := version + [SPACE] + (Decimal(code) + [SPACE] + reason);
            ParseStatusCode(PrintLines(RebuiltLines(line, fields))) == Ok(code)
  {
    hide IsUtf8, Find, NextWord, ParseUnsigned, Clean, Decimal, WordLen, FirstLine;
    var line := version + [SPACE] + (Decimal(code) + [SPACE] + reason);
    RebuiltHeadReads(line, fields);
    NextWordBeforeSpace(version, Decimal(code) + [SPACE] + reason);
    DecimalIsWord(code);
    NextWordBeforeSpace(Decimal(code), reason);
    DecimalParses(code, U16_MAX);
  }

  lemma DecimalIsWord(n: nat)
    ensures IsWord(Decimal(n))
  {
    DecimalIsHex(n);
    VisibleIsWord(Decimal(n));
  }

  lemma DecimalParses(n: nat, max: nat)
    ensures ParseUnsigned(Decimal(n), 10, max) == if n <= max then Some(n) else None
  {
    hide ParseUnsigned;
    assert Zeros(0) + Decimal(n) == Decimal(n);
    ParseUndoesPrint(n, 10, false, 0, max);
  }

  /** The added Content-Length can push the answer's head over the limit that the original head
      meets: without fields and with a body that ends with the connection it always does, if the
      original head has the greatest length allowed. */
  lemma AnswerCanOutgrowLimit(version: Bytes, code: nat, reason: Bytes, body: Bytes, plan: seq<nat>)
    returns (limits: Limits, m: Bytes)
    requires IsWord(version) && code <= U16_MAX && !Bodiless(code) && |body| < USIZE_MAX
    requires GoodStatusLine(version + [SPACE] + (Decimal(code) + [SPACE] + reason))
    ensures var whole := PrintLines(RebuiltLines(version + [SPACE] + (Decimal(code) + [SPACE] + reason), [])) + body;
            && RealLimit(limits) && HeadLen(whole) == Some(limits.maxHeaderBytes + 1)
            && ResponseRun(whole, Closed, plan, limits) == Ok(m)
            && !AnswersAtOnce(m, limits, m)
  {
    hide Forward, GoodStatusLine, Decimal, HeadLen, IsWord, AnswersAtOnce, ResponseRun, PrintLines, RebuiltLines,
         Rebuilt;
    var line := version + [SPACE] + (Decimal(code) + [SPACE] + reason);
    var head := PrintLines(RebuiltLines(line, []));
    PlainAnswer(line, version, code, reason, body);
    limits := Limits(|head| - 1, 0, |body|);
    m := Rebuilt(line, [], body);
    OutgrownAnswer(head, body, plan, limits, m);
  }

  lemma OutgrownAnswer(head: Bytes, body: Bytes, plan: seq<nat>, limits: Limits, m: Bytes)
    requires HeadLen(head + body) == Some(|head|) && limits.maxHeaderBytes + 1 == |head| && RealLimit(limits)
    requires Forward(head, body, Closed, limits.maxResponseBytes) == Ok(m)
    requires HeadLen(m).Some? && HeadLen(m).value > |head|
    ensures ResponseRun(head + body, Closed, plan, limits) == Ok(m) && !AnswersAtOnce(m, limits, m)
  {
    hide Forward, HeadLen, AnswersAtOnce, ResponseRun;
    FittingResponse(head + body, Closed, plan, limits);
    assert (head + body)[..|head|] == head && (head + body)[|head|..] == body;
    ForwardingIsFixpointIff(head + body, Closed, plan, limits, m);
  }

  lemma PlainHeadReads(line: Bytes, version: Bytes, code: nat, reason: Bytes)
    requires IsWord(version) && code <= U16_MAX && !Bodiless(code)
    requires line == version + [SPACE] + (Decimal(code) + [SPACE] + reason) && GoodStatusLine(line)
    ensures var head := PrintLines(RebuiltLines(line, []));
            ReadHead(head) == Ok(ResponseHead([], code, UntilEof)) && FirstLine(head) == Some(line) && IsUtf8(head)
  {
    hide ReadHead, GoodStatusLine, ParseStatusCode, HeaderFields, FirstLine, Decimal, IsUtf8;
    hide IsWord, PrintLines, RebuiltLines;
    StatusLineReads(version, code, reason, []);
    RebuiltHeadReads(line, []);
    PlainHead(PrintLines(RebuiltLines(line, [])), code);
  }

  lemma PlainHeadLens(line: Bytes, body: Bytes)
    requires GoodStatusLine(line)
    ensures var head, m := PrintLines(RebuiltLines(line, [])), Rebuilt(line, [], body);
            && HeadLen(head + body) == Some(|head|) && |head| >= 4
            && HeadLen(m).Some? && HeadLen(m).value > |head|
  {
    hide GoodStatusLine, HeadLen, PrintLines, FieldLines, Decimal, Ascii, Clean;
    RebuiltHeadLen(line, [], body);
    PrintedLen(line, []);
    LengthHeaderIsClean(|body|);
    assert Reframed([], |body|) == [Header(CONTENT_LENGTH_NAME, Decimal(|body|))];
    RebuiltHeadLen(line, Reframed([], |body|), body);
    PrintedLen(line, Reframed([], |body|));
  }

  lemma PlainForward(head: Bytes, line: Bytes, code: nat, body: Bytes)
    requires ReadHead(head) == Ok(ResponseHead([], code, UntilEof)) && !Bodiless(code)
    requires FirstLine(head) == Some(line) && IsUtf8(head)
    ensures Forward(head, body, Closed, |body|) == Ok(Rebuilt(line, [], body))
  {
    hide ReadHead, FirstLine, IsUtf8, Rebuilt;
  }

  lemma PlainAnswer(line: Bytes, version: Bytes, code: nat, reason: Bytes, body: Bytes)
    requires IsWord(version) && code <= U16_MAX && !Bodiless(code)
    requires line == version + [SPACE] + (Decimal(code) + [SPACE] + reason) && GoodStatusLine(line)
    ensures var head, m := PrintLines(RebuiltLines(line, [])), Rebuilt(line, [], body);
            && HeadLen(head + body) == Some(|head|) && |head| >= 4
            && Forward(head, body, Closed, |body|) == Ok(m)
            && HeadLen(m).Some? && HeadLen(m).value > |head|
  {
    hide ReadHead, Forward, FirstLine, IsUtf8, Rebuilt, HeadLen, PrintLines, RebuiltLines, GoodStatusLine, IsWord,
         Decimal;
    PlainHeadReads(line, version, code, reason);
    PlainHeadLens(line, body);
    PlainForward(PrintLines(RebuiltLines(line, [])), line, code, body);
  }

  lemma PlainHead(head: Bytes, code: nat)
    requires HeaderFields(head) == Ok([]) && ParseStatusCode(head) == Ok(code) && !Bodiless(code)
    ensures ReadHead(head) == Ok(ResponseHead([], code, UntilEof))
  {
    hide HeaderFields, ParseStatusCode, Ascii;
  }

  lemma PrintedLen(line: Bytes, fields: seq<Header>)
    ensures |PrintLines(RebuiltLines(line, fields))| >= |line| + 4
    ensures fields == [] ==> |PrintLines(RebuiltLines(line, fields))| == |line| + 4
    ensures fields != [] ==> |PrintLines(RebuiltLines(line, fields))| > |line| + 4
  {
    var lines := RebuiltLines(line, fields);
    assert lines[1..] == FieldLines(fields);
    PrintedMin(FieldLines(fields));
  }

  lemma {:induction false} PrintedMin(lines: seq<Bytes>)
    ensures |PrintLines(lines)| == 2 <==> lines == []
    ensures |PrintLines(lines)| >= 2
  {
    if lines != [] {
      PrintedMin(lines[1..]);
    }
  }
}
