/** Reading a request from a client and writing it back for a backend. */
module Requests {
  import opened Bytes
  import opened Text
  import opened Numbers
  import opened Streams
  import opened Headers

  datatype Limits = Limits(maxHeaderBytes: nat, maxBodyBytes: nat, maxResponseBytes: nat)

  const CONTENT_LENGTH: Bytes := Ascii("content-length")

  datatype HttpMethod = Get | Post | Put | Delete | Head | Options | Patch | Other(token: Bytes)
  {
    function AsStr(): Bytes {
      match this
      case Get => Ascii("GET")
      case Post => Ascii("POST")
      case Put => Ascii("PUT")
      case Delete => Ascii("DELETE")
      case Head => Ascii("HEAD")
      case Options => Ascii("OPTIONS")
      case Patch => Ascii("PATCH")
      case Other(token) => token
    }
  }

  function ParseMethod(s: Bytes): HttpMethod {
    if s == Ascii("GET") then Get
    else if s == Ascii("POST") then Post
    else if s == Ascii("PUT") then Put
    else if s == Ascii("DELETE") then Delete
    else if s == Ascii("HEAD") then Head
    else if s == Ascii("OPTIONS") then Options
    else if s == Ascii("PATCH") then Patch
    else Other(s)
  }

  /** Printing a parsed method gives back its token, so tokens are told apart. */
  lemma MethodRoundTrip(s: Bytes, t: Bytes)
    ensures ParseMethod(s).AsStr() == s
    ensures ParseMethod(s) == ParseMethod(t) ==> s == t
  {
    hide Ascii;
  }

  /** Every method is parsed from its token; `Other` is only for tokens that no other method has. */
  lemma ParseUndoesMethod(m: HttpMethod)
    ensures ParseMethod(m.AsStr()) == m <==>
              !m.Other? || m.token !in {Ascii("GET"), Ascii("POST"), Ascii("PUT"), Ascii("DELETE"), Ascii("HEAD"),
                                        Ascii("OPTIONS"), Ascii("PATCH")}
  {
    AsciiAt("GET");
    AsciiAt("POST");
    AsciiAt("PUT");
    AsciiAt("DELETE");
    AsciiAt("HEAD");
    AsciiAt("OPTIONS");
    AsciiAt("PATCH");
    hide Ascii;
    assert Ascii("POST")[1] != Ascii("HEAD")[1];
    assert Ascii("GET") != Ascii("PUT") by { assert Ascii("GET")[0] != Ascii("PUT")[0]; }
  }

  datatype Request = Request(verb: HttpMethod, path: Bytes, headers: seq<Header>, body: Bytes, rawHead: Bytes)
  {
    function ToBytes(): Bytes { rawHead + body }
  }

  datatype ParsedHead = ParsedHead(verb: HttpMethod, path: Bytes, headers: seq<Header>)

  function ParseHead(head: Bytes): Result<ParsedHead> {
    if !IsUtf8(head) then Err(Parse(InvalidUtf8InHeaders))
    else
      match NextWord(Split(head)[0])
      case None => Err(Parse(MissingMethod))
      case Some((verb, rest)) =>
        match NextWord(rest)
        case None => Err(Parse(MissingPath))
        case Some((path, _)) =>
          match HeaderFields(head)
          case Err(e) => Err(e)
          case Ok(headers) => Ok(ParsedHead(ParseMethod(verb), path, headers))
  }

  /** A request head as a client prints it. */
  function RequestHead(verb: Bytes, path: Bytes, version: Bytes, fields: seq<Header>): Bytes {
    PrintLines([verb + [SPACE] + (path + [SPACE] + version)] + FieldLines(fields))
  }

  lemma FirstLineOfHead(line: Bytes, fields: seq<Header>)
    requires Find(line, CRLF).None? && forall h | h in fields :: Clean(h)
    ensures Split(PrintLines([line] + FieldLines(fields))) == [line] + FieldLines(fields) + [[], []]
    ensures IsUtf8(line) ==> HeaderFields(PrintLines([line] + FieldLines(fields))) == Ok(fields)
    ensures IsUtf8(line) ==> IsUtf8(PrintLines([line] + FieldLines(fields)))
  {
    hide Find, Split, IsUtf8, Trim, FieldsOf;
    var lines := [line] + FieldLines(fields);
    forall k | 0 <= k < |fields|
      ensures Find(FieldLine(fields[k]), CRLF).None? && IsUtf8(FieldLine(fields[k]))
    {
      assert fields[k] in fields;
      FieldLineIsUtf8(fields[k]);
    }
    SplitPrintLines(lines);
    FieldsOfPrinted(fields, [[], []]);
    assert (lines + [[], []])[1..] == FieldLines(fields) + [[], []];
    if IsUtf8(line) {
      PrintLinesUtf8(lines);
    }
  }

  /** Parsing undoes printing, for every verb, path and list of fields that can be printed. */
  lemma ParseUndoesRequestHead(verb: Bytes, path: Bytes, version: Bytes, fields: seq<Header>)
    requires IsWord(verb) && IsWord(path)
    requires var line := verb + [SPACE] + (path + [SPACE] + version); IsUtf8(line) && Find(line, CRLF).None?
    requires forall h | h in fields :: Clean(h)
    ensures ParseHead(RequestHead(verb, path, version, fields)) == Ok(ParsedHead(ParseMethod(verb), path, fields))
  {
    hide IsUtf8, Find, Split, NextWord, HeaderFields, Clean, ParseMethod, IsWord;
    var line := verb + [SPACE] + (path + [SPACE] + version);
    FirstLineOfHead(line, fields);
    NextWordBeforeSpace(verb, path + [SPACE] + version);
    NextWordBeforeSpace(path, version);
  }

  /** Any white space separates the words of a request line; a line without a first or a second word is
      refused. */
  lemma ParseHeadIs(head: Bytes, before: Bytes, verb: Bytes, gap: Bytes, path: Bytes, rest: Bytes)
    requires IsUtf8(head) && IsBlank(before) && IsWord(verb) && IsBlank(gap) && IsWord(path)
    requires rest == [] || BlankLen(rest) > 0
    ensures Split(head)[0] == before ==> ParseHead(head) == Err(Parse(MissingMethod))
    ensures Split(head)[0] == before + verb + gap ==> ParseHead(head) == Err(Parse(MissingPath))
    ensures gap != [] && Split(head)[0] == before + verb + (gap + path + rest) ==>
              ParseHead(head) == if HeaderFields(head).Err? then Err(HeaderFields(head).error)
                                 else Ok(ParsedHead(ParseMethod(verb), path, HeaderFields(head).value))
  {
    hide IsUtf8, Split, NextWord, HeaderFields, ParseMethod, IsWord, IsBlank, BlankLen;
    BlankStarts(gap);
    NextWordIs(before, verb, gap);
    NextWordIs(gap, path, rest);
    if gap != [] {
      BlankLenExtends(gap, path + rest);
      assert gap + (path + rest) == gap + path + rest;
      NextWordIs(before, verb, gap + path + rest);
    }
  }

  function ContentLength(headers: seq<Header>): Result<nat> {
    match HeaderField(headers, CONTENT_LENGTH)
    case None => Ok(0)
    case Some(value) =>
      match ParseUnsigned(value, 10, USIZE_MAX)
      case None => Err(Parse(InvalidContentLength))
      case Some(n) => Ok(n)
  }

  /** A head the code accepts, with the body length it declares. */
  function DeclaredLength(head: Bytes, maxBody: nat): (r: Result<nat>)
    ensures r.Ok? ==> r.value <= maxBody
  {
    match ParseHead(head)
    case Err(e) => Err(e)
    case Ok(parsed) =>
      match ContentLength(parsed.headers)
      case Err(e) => Err(e)
      case Ok(n) => if n > maxBody then Err(BodyTooLarge) else Ok(n)
  }

  function Max(a: nat, b: nat): nat { if a < b then b else a }

  /** How many bytes a request takes off a stream under a schedule. */
  function RequestRun(whole: Bytes, end: End, plan: seq<nat>, limits: Limits): (r: Result<nat>)
    ensures r.Ok? ==> r.value <= |whole|
  {
    match HeaderRun(whole, end, plan, 0, limits.maxHeaderBytes)
    case Err(e) => Err(e)
    case Ok((headLen, taken)) =>
      match DeclaredLength(whole[..headLen], limits.maxBodyBytes)
      case Err(e) => Err(e)
      case Ok(length) =>
        if taken - headLen > limits.maxBodyBytes then Err(BodyTooLarge)
        else if Max(taken, headLen + length) <= |whole| then Ok(Max(taken, headLen + length))
        else Err(DryError(end))
  }

  /** The request is the bytes it took, cut after the head, with the head parsed. */
  ghost predicate IsRequest(r: Request, taken: Bytes) {
    && HeadLen(taken) == Some(|r.rawHead|) && r.rawHead + r.body == taken
    && ParseHead(r.rawHead) == Ok(ParsedHead(r.verb, r.path, r.headers))
  }

  method FromStream(stream: ByteStream, limits: Limits) returns (r: Result<Request>)
    modifies stream
    ensures match RequestRun(old(stream.data), stream.end, old(stream.plan), limits)
            case Err(e) => r == Err(e)
            case Ok(n) =>
              && r.Ok? && IsRequest(r.value, old(stream.data)[..n])
              && stream.data == old(stream.data)[n..]
    ensures r.Ok? ==> r.value.ToBytes() + stream.data == old(stream.data)
  {
    hide HeaderRun, ParseHead, ContentLength, HeadLen, Find, IsRequest;
    ghost var whole, plan := stream.data, stream.plan;
    var block, buffered := ReadHeaderBlock(stream, limits.maxHeaderBytes);
    if block.Err? {
      return Err(block.error);
    }
    var (head, body) := block.value;
    AcceptedHead(whole, stream.end, plan, 0, limits.maxHeaderBytes);
    HeadLenOfPrefix(whole, []);
    var parsed := ParseHead(head);
    if parsed.Err? {
      return Err(parsed.error);
    }
    var length := ContentLength(parsed.value.headers);
    if length.Err? {
      return Err(length.error);
    }
    if length.value > limits.maxBodyBytes {
      return Err(BodyTooLarge);
    }
    if |body| > limits.maxBodyBytes {
      return Err(BodyTooLarge);
    }
    assert head + body + stream.data == whole;
    if |body| < length.value {
      var remaining := length.value - |body|;
      var rest := stream.ReadExact(remaining);
      if rest.Err? {
        return Err(rest.error);
      }
      body := body + rest.value;
    }
    assert head + body + stream.data == whole;
    r := Ok(Request(parsed.value.verb, parsed.value.path, parsed.value.headers, body, head));
    TakenIsRequest(whole, r.value);
  }

  lemma TakenIsRequest(whole: Bytes, r: Request)
    requires r.rawHead + r.body <= whole && HeadLen(whole) == Some(|r.rawHead|)
    requires ParseHead(r.rawHead) == Ok(ParsedHead(r.verb, r.path, r.headers))
    ensures IsRequest(r, whole[..|r.rawHead| + |r.body|])
  {
    hide ParseHead, HeadLen;
    HeadLenOfPrefix(whole, []);
    assert whole[..|r.rawHead|] == r.rawHead && whole[..|r.rawHead| + |r.body|] == r.rawHead + r.body;
    HeadLenOfPrefix(r.rawHead, r.body);
  }

  // ---------- The declared length ----------

  predicate GoodRequestLine(verb: Bytes, path: Bytes, version: Bytes) {
    && IsWord(verb) && IsWord(path)
    && var line := verb + [SPACE] + (path + [SPACE] + version); IsUtf8(line) && Find(line, CRLF).None?
  }

  lemma RequestHeadLen(verb: Bytes, path: Bytes, version: Bytes, fields: seq<Header>, extra: Bytes)
    requires GoodRequestLine(verb, path, version) && forall h | h in fields :: Clean(h)
    ensures var head := RequestHead(verb, path, version, fields); HeadLen(head + extra) == Some(|head|)
  {
    hide Find, IsUtf8, Trim;
    var lines := [verb + [SPACE] + (path + [SPACE] + version)] + FieldLines(fields);
    forall k | 0 <= k < |fields|
      ensures FieldLine(fields[k]) != [] && Find(FieldLine(fields[k]), CRLF).None?
    {
      assert fields[k] in fields;
    }
    HeadEndOfPrintLines(lines, extra);
  }

  /** The length that the fields declare: the number in the first Content-Length field, or 0 without such a
      field; a value that is no number, or too large a one, is an error. */
  ghost predicate Declares(fields: seq<Header>, length: Result<nat>) {
    match length
    case Ok(n) =>
      || (n == 0 && forall h | h in fields :: !EqIgnoreCase(h.name, Ascii("content-length")))
      || (n <= USIZE_MAX && exists c: nat ::
            FirstNamed(fields, Ascii("content-length"), c) && IsNumber(fields[c].value, n))
    case Err(e) =>
      && e == Parse(InvalidContentLength)
      && exists c: nat :: FirstNamed(fields, Ascii("content-length"), c) && NoLength(fields[c].value)
  }

  ghost predicate NoLength(value: Bytes) { forall n: nat | n <= USIZE_MAX :: !IsNumber(value, n) }

  /** Every list of fields declares exactly one length or error, the one that the code computes. */
  lemma ContentLengthIff(fields: seq<Header>, length: Result<nat>)
    ensures ContentLength(fields) == length <==> Declares(fields, length)
  {
    hide Ascii, EqIgnoreCase, ParseUnsigned, IsNumber;
    HeaderFieldIs(fields, Ascii("content-length"));
    forall c: nat | FirstNamed(fields, Ascii("content-length"), c)
      ensures ContentLength(fields) == length <==> Declares(fields, length)
    {
      var value := fields[c].value;
      assert forall d: nat | FirstNamed(fields, Ascii("content-length"), d) :: d == c;
      forall n: nat
        ensures ParseUnsigned(value, 10, USIZE_MAX) == Some(n) <==> n <= USIZE_MAX && IsNumber(value, n)
      {
        ParseNumberIff(value, USIZE_MAX, n);
      }
      assert ParseUnsigned(value, 10, USIZE_MAX) == None <==> NoLength(value);
    }
  }

  /** A printed request takes the body that its fields declare: exactly those bytes when no read goes past
      them; a declared length over the limit, or one that is no number, is refused; and it is an error
      when fewer bytes follow. `ahead` is how many bytes behind the head came in with it. */
  lemma DeclaredBodyIsTaken(verb: Bytes, path: Bytes, version: Bytes, fields: seq<Header>, length: Result<nat>,
                            s: Bytes, end: End, plan: seq<nat>, limits: Limits) returns (ahead: nat)
    requires GoodRequestLine(verb, path, version) && (forall h | h in fields :: Clean(h)) && Declares(fields, length)
    requires |RequestHead(verb, path, version, fields)| <= limits.maxHeaderBytes + 1
    ensures var head := RequestHead(verb, path, version, fields);
            var run := RequestRun(head + s, end, plan, limits);
            && HeaderRun(head + s, end, plan, 0, limits.maxHeaderBytes) == Ok((|head|, |head| + ahead))
            && ahead < CHUNK_SIZE && ahead <= |s|
            && match length
               case Err(e) => run == Err(e)
               case Ok(n) =>
                 if n > limits.maxBodyBytes then run == Err(BodyTooLarge)
                 else if |s| < n then run == Err(DryError(end))
                 else if ahead <= n then run == Ok(|head| + n)
                 else run == if ahead > limits.maxBodyBytes then Err(BodyTooLarge) else Ok(|head| + ahead)
  {
    hide GoodRequestLine, Clean, Declares, ContentLength, ParseHead, HeaderRun, HeadLen, RequestHead;
    var head := RequestHead(verb, path, version, fields);
    RequestHeadLen(verb, path, version, fields, s);
    PrintedHeadParses(verb, path, version, fields);
    ContentLengthIff(fields, length);
    FittingHeadIsAccepted(head + s, end, plan, 0, limits.maxHeaderBytes);
    ahead := HeaderRun(head + s, end, plan, 0, limits.maxHeaderBytes).value.1 - |head|;
    assert (head + s)[..|head|] == head;
  }

  lemma PrintedHeadParses(verb: Bytes, path: Bytes, version: Bytes, fields: seq<Header>)
    requires GoodRequestLine(verb, path, version) && forall h | h in fields :: Clean(h)
    ensures ParseHead(RequestHead(verb, path, version, fields)) == Ok(ParsedHead(ParseMethod(verb), path, fields))
  {
    hide Find, IsUtf8, Clean, RequestHead, ParseHead, ParseMethod, IsWord;
    ParseUndoesRequestHead(verb, path, version, fields);
  }

  // ---------- What the client's bytes decide, and what the schedule decides ----------

  /** Whatever the schedule, a request covers its head and the declared body, stays within the body
      limit, and reads at most 4095 bytes more than its head and declared body. */
  lemma RequestExtent(whole: Bytes, end: End, plan: seq<nat>, limits: Limits)
    ensures var r := RequestRun(whole, end, plan, limits);
            r.Ok? ==>
              && HeadLen(whole).Some?
              && var l := HeadLen(whole).value;
              && DeclaredLength(whole[..l], limits.maxBodyBytes).Ok?
              && var n := DeclaredLength(whole[..l], limits.maxBodyBytes).value;
              && l + n <= r.value <= l + limits.maxBodyBytes
              && r.value <= Max(l + n, limits.maxHeaderBytes + CHUNK_SIZE)
  {
    hide HeaderRun, DeclaredLength, HeadLen;
    AcceptedHead(whole, end, plan, 0, limits.maxHeaderBytes);
  }

  ghost predicate RequestIgnoresSchedule(whole: Bytes, end: End, limits: Limits) {
    forall p, q :: RequestRun(whole, end, p, limits) == RequestRun(whole, end, q, limits)
  }

  /** Nothing follows the declared body, or the body is so long that no read reaches past it. */
  predicate NothingReadAhead(whole: Bytes, limits: Limits) {
    HeadLen(whole).Some? && HeadLen(whole).value <= limits.maxHeaderBytes + 1 ==>
      var l := HeadLen(whole).value;
      DeclaredLength(whole[..l], limits.maxBodyBytes).Ok? ==>
        var n := DeclaredLength(whole[..l], limits.maxBodyBytes).value;
        |whole| <= l + n || n >= CHUNK_SIZE - 1
  }

  function RequestSpec(whole: Bytes, end: End, limits: Limits): Result<nat> {
    match HeadSpec(whole, end, limits.maxHeaderBytes)
    case Err(e) => Err(e)
    case Ok(l) =>
      if l > |whole| then Err(EmptyRequest)
      else match DeclaredLength(whole[..l], limits.maxBodyBytes)
        case Err(e) => Err(e)
        case Ok(n) => if l + n <= |whole| then Ok(l + n) else Err(DryError(end))
  }

  lemma RequestMeetsSpec(whole: Bytes, end: End, plan: seq<nat>, limits: Limits)
    requires OutsideWindow(whole, limits.maxHeaderBytes) && NothingReadAhead(whole, limits)
    ensures RequestRun(whole, end, plan, limits) == RequestSpec(whole, end, limits)
  {
    hide HeaderRun, DeclaredLength, HeadLen;
    HeadMeetsSpec(whole, end, plan, limits.maxHeaderBytes);
    if HeadLen(whole).Some? && HeadLen(whole).value <= limits.maxHeaderBytes + 1 {
      FittingHeadIsAccepted(whole, end, plan, 0, limits.maxHeaderBytes);
    }
  }

  /** With bytes after a short body, a byte-wise read stops at the end of the body and a large read
      goes past it: pipelined bytes become part of the request, or make it too large. */
  lemma ReadAheadDependsOnSchedule(whole: Bytes, end: End, limits: Limits)
    requires HeadLen(whole).Some? && HeadLen(whole).value <= limits.maxHeaderBytes + 1
    requires !NothingReadAhead(whole, limits)
    ensures var l := HeadLen(whole).value;
            var n := DeclaredLength(whole[..l], limits.maxBodyBytes).value;
            && RequestRun(whole, end, Trickle(l - 1, [1]), limits) == Ok(l + n)
            && RequestRun(whole, end, Trickle(l - 1, []), limits) != Ok(l + n)
  {
    hide HeaderRun, DeclaredLength, HeadLen;
    var l := HeadLen(whole).value;
    TrickleExactly(whole, end, limits.maxHeaderBytes);
    TrickleThenLarge(whole, end, l - 1, limits.maxHeaderBytes);
  }

  lemma HeadFits(whole: Bytes, limits: Limits) returns (l: nat)
    requires !NothingReadAhead(whole, limits)
    ensures HeadLen(whole) == Some(l) && l >= 4 && l <= limits.maxHeaderBytes + 1
  {
    l := HeadLen(whole).value;
  }

  /** Exactly when the request read is the same for every fragmentation of the client's bytes. */
  lemma RequestIgnoresScheduleIff(whole: Bytes, end: End, limits: Limits)
    ensures RequestIgnoresSchedule(whole, end, limits)
       <==> OutsideWindow(whole, limits.maxHeaderBytes) && NothingReadAhead(whole, limits)
  {
    hide HeaderRun, HeadLen, RequestRun, NothingReadAhead, HeadOutcome, DeclaredLength;
    if !OutsideWindow(whole, limits.maxHeaderBytes) {
      WindowHeadDependsOnSchedule(whole, end, limits.maxHeaderBytes);
      NoOtherHeaderError(whole, end, Trickle(limits.maxHeaderBytes, []), limits);
      HeaderErrorIsPassedOn(whole, end, Trickle(limits.maxHeaderBytes + 1, []), limits);
      assert RequestRun(whole, end, Trickle(limits.maxHeaderBytes + 1, []), limits)
          != RequestRun(whole, end, Trickle(limits.maxHeaderBytes, []), limits);
    } else if !NothingReadAhead(whole, limits) {
      var l := HeadFits(whole, limits);
      ReadAheadDependsOnSchedule(whole, end, limits);
      assert RequestRun(whole, end, Trickle(l - 1, [1]), limits) != RequestRun(whole, end, Trickle(l - 1, []), limits);
    } else {
      forall p, q
        ensures RequestRun(whole, end, p, limits) == RequestRun(whole, end, q, limits)
      {
        RequestMeetsSpec(whole, end, p, limits);
        RequestMeetsSpec(whole, end, q, limits);
      }
    }
  }

  lemma HeaderErrorIsPassedOn(whole: Bytes, end: End, plan: seq<nat>, limits: Limits)
    requires HeaderRun(whole, end, plan, 0, limits.maxHeaderBytes).Err?
    ensures RequestRun(whole, end, plan, limits) == Err(HeaderRun(whole, end, plan, 0, limits.maxHeaderBytes).error)
  {
    hide HeaderRun;
  }

  lemma DeclaredLengthError(head: Bytes, maxBody: nat)
    ensures DeclaredLength(head, maxBody) != Err(Parse(HeaderBlockTooLarge))
  {
    hide HeaderFields, IsUtf8, Split, NextWord, HeaderField, ParseUnsigned, ParseMethod, Ascii;
    HeaderFieldsError(head);
  }

  lemma NoOtherHeaderError(whole: Bytes, end: End, plan: seq<nat>, limits: Limits)
    requires HeaderRun(whole, end, plan, 0, limits.maxHeaderBytes).Ok?
    ensures RequestRun(whole, end, plan, limits) != Err(Parse(HeaderBlockTooLarge))
  {
    hide HeaderRun, DeclaredLength;
    DeclaredLengthError(whole[..HeaderRun(whole, end, plan, 0, limits.maxHeaderBytes).value.0], limits.maxBodyBytes);
  }
}
