/** Reading a message head off a stream, and its header fields. */
module Headers {
  import opened Bytes
  import opened Text
  import opened Streams

  const CHUNK_SIZE: nat := 4096

  datatype Header = Header(name: Bytes, value: Bytes)

  // ---------- The header block ----------

  /** The reading loop, as a function of the whole stream and the schedule. `pos` bytes are in the
      buffer; on success the head length and the number of bytes taken off the stream. */
  function HeaderRun(whole: Bytes, end: End, plan: seq<nat>, pos: nat, max: nat): (r: Result<(nat, nat)>)
    requires pos <= |whole|
    ensures r.Ok? ==> r.value.0 <= r.value.1 <= |whole| && pos < r.value.1
    decreases |whole| - pos
  {
    if pos > max then Err(Parse(HeaderBlockTooLarge))
    else if pos == |whole| then
      match ReadAtEnd(end)
      case Err(e) => Err(e)
      case Ok(_) => Err(EmptyRequest)
    else
      var filled := pos + ReadLen(plan, CHUNK_SIZE, |whole| - pos);
      match Find(whole[..filled], HEADER_END)
      case Some(i) => Ok((i + 4, filled))
      case None => HeaderRun(whole, end, Later(plan), filled, max)
  }

  /** The loop body, once. */
  lemma HeaderStep(whole: Bytes, end: End, plan: seq<nat>, pos: nat, max: nat)
    requires pos <= |whole|
    ensures var run := HeaderRun(whole, end, plan, pos, max);
            if pos > max then run == Err(Parse(HeaderBlockTooLarge))
            else if pos == |whole| then
              run == Err(if end == Closed then EmptyRequest else DryError(end))
            else
              var filled := pos + ReadLen(plan, CHUNK_SIZE, |whole| - pos);
              match Find(whole[..filled], HEADER_END)
              case Some(i) => run == Ok((i + 4, filled))
              case None => run == HeaderRun(whole, end, Later(plan), filled, max)
  {
  }

  lemma FillStep(whole: Bytes, plan: seq<nat>, pos: nat, max: nat)
    requires pos <= |whole|
    ensures var fill := HeaderFill(whole, plan, pos, max);
            if pos > max || pos == |whole| then fill == pos
            else
              var filled := pos + ReadLen(plan, CHUNK_SIZE, |whole| - pos);
              fill == if Find(whole[..filled], HEADER_END).Some? then filled
                      else HeaderFill(whole, Later(plan), filled, max)
  {
  }

  lemma TakeMore(whole: Bytes, pos: nat, n: nat)
    requires pos + n <= |whole|
    ensures whole[..pos] + whole[pos..][..n] == whole[..pos + n]
    ensures whole[pos..][n..] == whole[pos + n..]
  {
  }

  lemma CutBuffer(whole: Bytes, n: nat, filled: nat)
    requires n <= filled <= |whole|
    ensures whole[..filled][..n] == whole[..n] && whole[..filled][n..] == whole[n..filled]
    ensures whole[..n] + whole[n..filled] + whole[filled..] == whole
  {
  }

  lemma AcceptedFromStart(whole: Bytes, end: End, plan: seq<nat>, max: nat)
    ensures var r := HeaderRun(whole, end, plan, 0, max);
            r.Ok? ==> HeadLen(whole) == Some(r.value.0) && r.value.1 <= max + CHUNK_SIZE
  {
    AcceptedHead(whole, end, plan, 0, max);
  }

  /** How many bytes are in the buffer when the loop ends, however it ends. */
  function HeaderFill(whole: Bytes, plan: seq<nat>, pos: nat, max: nat): (fill: nat)
    requires pos <= |whole|
    ensures pos <= fill <= |whole| && (pos <= max + CHUNK_SIZE ==> fill <= max + CHUNK_SIZE)
    decreases |whole| - pos
  {
    if pos > max || pos == |whole| then pos
    else
      var filled := pos + ReadLen(plan, CHUNK_SIZE, |whole| - pos);
      if Find(whole[..filled], HEADER_END).Some? then filled else HeaderFill(whole, Later(plan), filled, max)
  }

  /** `buffered` is the buffer at the end of the loop: on every path it holds exactly the bytes taken off
      the stream, at most `max + 4096` of them. */
  method ReadHeaderBlock(stream: ByteStream, maxHeaderBytes: nat)
    returns (r: Result<(Bytes, Bytes)>, ghost buffered: Bytes)
    modifies stream
    ensures buffered + stream.data == old(stream.data)
    ensures |buffered| == HeaderFill(old(stream.data), old(stream.plan), 0, maxHeaderBytes)
    ensures |buffered| <= maxHeaderBytes + CHUNK_SIZE
    ensures r.Ok? ==> r.value.0 + r.value.1 == buffered
    ensures var run := HeaderRun(old(stream.data), stream.end, old(stream.plan), 0, maxHeaderBytes);
            match run
            case Err(e) => r == Err(e)
            case Ok((headLen, taken)) =>
              && r == Ok((old(stream.data)[..headLen], old(stream.data)[headLen..taken]))
              && stream.data == old(stream.data)[taken..]
    ensures r.Ok? ==>
              && HeadLen(old(stream.data)) == Some(|r.value.0|)
              && r.value.0 + r.value.1 + stream.data == old(stream.data)
  {
    hide HeaderRun, HeaderFill, HeadLen, Occurs, Find;
    var buf := [];
    buffered := [];
    ghost var whole := stream.data;
    while true
      invariant |buf| <= |whole| && buf == whole[..|buf|] && stream.data == whole[|buf|..]
      invariant |buf| <= maxHeaderBytes + CHUNK_SIZE && buffered == buf
      invariant HeaderFill(whole, old(stream.plan), 0, maxHeaderBytes)
             == HeaderFill(whole, stream.plan, |buf|, maxHeaderBytes)
      invariant HeaderRun(whole, stream.end, old(stream.plan), 0, maxHeaderBytes)
             == HeaderRun(whole, stream.end, stream.plan, |buf|, maxHeaderBytes)
      decreases |stream.data|
    {
      HeaderStep(whole, stream.end, stream.plan, |buf|, maxHeaderBytes);
      FillStep(whole, stream.plan, |buf|, maxHeaderBytes);
      if |buf| > maxHeaderBytes {
        return Err(Parse(HeaderBlockTooLarge)), buffered;
      }
      var got := stream.Read(CHUNK_SIZE);
      match got {
        case Err(e) => return Err(e), buffered;
        case Ok(chunk) =>
          if chunk == [] {
            return Err(EmptyRequest), buffered;
          }
          TakeMore(whole, |buf|, |chunk|);
          buf := buf + chunk;
          buffered := buf;
          var found := Find(buf, HEADER_END);
          if found.Some? {
            var headLen := found.value + 4;
            CutBuffer(whole, headLen, |buf|);
            AcceptedFromStart(whole, stream.end, old(stream.plan), maxHeaderBytes);
            return Ok((buf[..headLen], buf[headLen..])), buffered;
          }
      }
    }
  }

  /** Length of the head of a stream: up to and with its first empty line. */
  function HeadLen(whole: Bytes): (l: Option<nat>)
    ensures l.Some? ==> 4 <= l.value <= |whole|
  {
    match Find(whole, HEADER_END)
    case None => None
    case Some(i) => Some(i + 4)
  }

  /** One round of the loop that does not reach the end of the head. */
  lemma HeaderRound(whole: Bytes, end: End, plan: seq<nat>, pos: nat, max: nat, filled: nat)
    requires pos < |whole| && pos <= max && filled == pos + ReadLen(plan, CHUNK_SIZE, |whole| - pos)
    ensures HeadLen(whole).Some? && HeadLen(whole).value <= filled ==>
              HeaderRun(whole, end, plan, pos, max) == Ok((HeadLen(whole).value, filled))
    ensures HeadLen(whole).None? || HeadLen(whole).value > filled ==>
              HeaderRun(whole, end, plan, pos, max) == HeaderRun(whole, end, Later(plan), filled, max)
  {
    FindInPrefix(whole, HEADER_END, filled);
  }

  /** A head of at most `max + 1` bytes is accepted under every schedule, reading at most
      4095 bytes past it. */
  lemma {:induction false} FittingHeadIsAccepted(whole: Bytes, end: End, plan: seq<nat>, pos: nat, max: nat)
    requires HeadLen(whole).Some? && pos < HeadLen(whole).value <= max + 1
    ensures var l := HeadLen(whole).value;
            var r := HeaderRun(whole, end, plan, pos, max);
            r.Ok? && r.value.0 == l && l <= r.value.1 < l + CHUNK_SIZE
    decreases |whole| - pos
  {
    var filled := pos + ReadLen(plan, CHUNK_SIZE, |whole| - pos);
    HeaderRound(whole, end, plan, pos, max, filled);
    if filled < HeadLen(whole).value {
      FittingHeadIsAccepted(whole, end, Later(plan), filled, max);
    }
  }

  /** A head longer than `max + 4096` bytes is rejected under every schedule. */
  lemma {:induction false} HugeHeadIsRejected(whole: Bytes, end: End, plan: seq<nat>, pos: nat, max: nat)
    requires pos <= |whole| && pos <= max + CHUNK_SIZE
    requires HeadLen(whole).Some? && HeadLen(whole).value > max + CHUNK_SIZE
    ensures HeaderRun(whole, end, plan, pos, max) == Err(Parse(HeaderBlockTooLarge))
    decreases |whole| - pos
  {
    if pos <= max {
      var filled := pos + ReadLen(plan, CHUNK_SIZE, |whole| - pos);
      HeaderRound(whole, end, plan, pos, max, filled);
      HugeHeadIsRejected(whole, end, Later(plan), filled, max);
    }
  }

  /** Without an empty line the outcome is an error that depends on the bytes alone. */
  lemma {:induction false} EndlessHeadIsRejected(whole: Bytes, end: End, plan: seq<nat>, pos: nat, max: nat)
    requires HeadLen(whole).None? && pos <= |whole|
    ensures HeaderRun(whole, end, plan, pos, max)
         == Err(if |whole| > max then Parse(HeaderBlockTooLarge)
                else if end == Closed then EmptyRequest
                else DryError(end))
    decreases |whole| - pos
  {
    if pos <= max && pos < |whole| {
      var filled := pos + ReadLen(plan, CHUNK_SIZE, |whole| - pos);
      HeaderRound(whole, end, plan, pos, max, filled);
      EndlessHeadIsRejected(whole, end, Later(plan), filled, max);
    }
  }

  /** `n` reads of a single byte, then the rest of the schedule. */
  function Trickle(n: nat, rest: seq<nat>): seq<nat> {
    if n == 0 then rest else [1] + Trickle(n - 1, rest)
  }

  lemma OneByteRound(whole: Bytes, end: End, plan: seq<nat>, pos: nat, max: nat)
    requires pos + 1 < |whole| && pos <= max
    requires HeadLen(whole).None? || HeadLen(whole).value > pos + 1
    ensures HeaderRun(whole, end, [1] + plan, pos, max) == HeaderRun(whole, end, plan, pos + 1, max)
  {
    HeaderRound(whole, end, [1] + plan, pos, max, pos + 1);
    assert Later([1] + plan) == plan;
  }

  lemma {:induction false} TrickleRun(whole: Bytes, end: End, rest: seq<nat>, pos: nat, n: nat, max: nat)
    requires HeadLen(whole).Some? && pos + n < HeadLen(whole).value
    requires pos + n <= max + 1
    ensures HeaderRun(whole, end, Trickle(n, rest), pos, max) == HeaderRun(whole, end, rest, pos + n, max)
    decreases n
  {
    hide HeaderRun;
    if n > 0 {
      OneByteRound(whole, end, Trickle(n - 1, rest), pos, max);
      TrickleRun(whole, end, rest, pos + 1, n - 1, max);
    }
  }

  /** A schedule that stops the buffer exactly at `n` and then fills it with one large read. */
  lemma TrickleThenLarge(whole: Bytes, end: End, n: nat, max: nat)
    requires HeadLen(whole).Some? && n < HeadLen(whole).value <= n + CHUNK_SIZE && n <= max
    ensures var filled := n + (if |whole| - n < CHUNK_SIZE then |whole| - n else CHUNK_SIZE);
            HeaderRun(whole, end, Trickle(n, []), 0, max) == Ok((HeadLen(whole).value, filled))
  {
    hide HeaderRun;
    var filled := n + ReadLen([], CHUNK_SIZE, |whole| - n);
    TrickleRun(whole, end, [], 0, n, max);
    HeaderRound(whole, end, [], n, max, filled);
  }

  /** A schedule that delivers the head byte by byte and nothing past it. */
  lemma TrickleExactly(whole: Bytes, end: End, max: nat)
    requires HeadLen(whole).Some? && HeadLen(whole).value <= max + 1
    ensures var l := HeadLen(whole).value;
            HeaderRun(whole, end, Trickle(l - 1, [1]), 0, max) == Ok((l, l))
  {
    hide HeaderRun;
    var l := HeadLen(whole).value;
    TrickleRun(whole, end, [1], 0, l - 1, max);
    HeaderRound(whole, end, [1], l - 1, max, l);
  }

  /** Within the window both outcomes occur: byte by byte the head is rejected, with a last large
      fragment it is accepted. */
  lemma WindowHeadDependsOnSchedule(whole: Bytes, end: End, max: nat)
    requires HeadLen(whole).Some? && max + 1 < HeadLen(whole).value <= max + CHUNK_SIZE
    ensures HeaderRun(whole, end, Trickle(max + 1, []), 0, max) == Err(Parse(HeaderBlockTooLarge))
    ensures HeaderRun(whole, end, Trickle(max, []), 0, max).Ok?
  {
    TrickleRun(whole, end, [], 0, max + 1, max);
    TrickleThenLarge(whole, end, max, max);
  }

  /** What a caller sees of the head, apart from how much was read past it. */
  function HeadOutcome(whole: Bytes, end: End, plan: seq<nat>, max: nat): Result<nat> {
    match HeaderRun(whole, end, plan, 0, max)
    case Err(e) => Err(e)
    case Ok((headLen, _)) => Ok(headLen)
  }

  ghost predicate HeadIgnoresSchedule(whole: Bytes, end: End, max: nat) {
    forall p, q :: HeadOutcome(whole, end, p, max) == HeadOutcome(whole, end, q, max)
  }

  /** The length of the head misses the window that starts two bytes above the limit. */
  predicate OutsideWindow(whole: Bytes, max: nat) {
    HeadLen(whole).Some? ==> HeadLen(whole).value <= max + 1 || HeadLen(whole).value > max + CHUNK_SIZE
  }

  /** The outcome as a function of the bytes, outside the window. */
  function HeadSpec(whole: Bytes, end: End, max: nat): Result<nat> {
    match HeadLen(whole)
    case Some(l) => if l <= max + 1 then Ok(l) else Err(Parse(HeaderBlockTooLarge))
    case None =>
      if |whole| > max then Err(Parse(HeaderBlockTooLarge))
      else if end == Closed then Err(EmptyRequest)
      else Err(DryError(end))
  }

  lemma HeadMeetsSpec(whole: Bytes, end: End, plan: seq<nat>, max: nat)
    requires OutsideWindow(whole, max)
    ensures HeadOutcome(whole, end, plan, max) == HeadSpec(whole, end, max)
  {
    match HeadLen(whole)
    case None => EndlessHeadIsRejected(whole, end, plan, 0, max);
    case Some(l) =>
      if l <= max + 1 {
        FittingHeadIsAccepted(whole, end, plan, 0, max);
      } else {
        HugeHeadIsRejected(whole, end, plan, 0, max);
      }
  }

  /** The schedule matters exactly for heads inside the window. */
  lemma HeadIgnoresScheduleIff(whole: Bytes, end: End, max: nat)
    ensures HeadIgnoresSchedule(whole, end, max) <==> OutsideWindow(whole, max)
  {
    if OutsideWindow(whole, max) {
      forall p, q
        ensures HeadOutcome(whole, end, p, max) == HeadOutcome(whole, end, q, max)
      {
        HeadMeetsSpec(whole, end, p, max);
        HeadMeetsSpec(whole, end, q, max);
      }
    } else {
      WindowHeadDependsOnSchedule(whole, end, max);
      assert HeadOutcome(whole, end, Trickle(max + 1, []), max) != HeadOutcome(whole, end, Trickle(max, []), max);
    }
  }

  /** Whatever the schedule, an accepted head is the one up to the first empty line, and the
      buffer never holds more than `max + 4096` bytes. */
  lemma {:induction false} AcceptedHead(whole: Bytes, end: End, plan: seq<nat>, pos: nat, max: nat)
    requires pos <= |whole| && (HeadLen(whole).Some? ==> pos < HeadLen(whole).value)
    ensures var r := HeaderRun(whole, end, plan, pos, max);
            r.Ok? ==> HeadLen(whole) == Some(r.value.0) && r.value.1 <= max + CHUNK_SIZE
    decreases |whole| - pos
  {
    if pos <= max && pos < |whole| {
      var filled := pos + ReadLen(plan, CHUNK_SIZE, |whole| - pos);
      HeaderRound(whole, end, plan, pos, max, filled);
      if HeadLen(whole).None? || filled < HeadLen(whole).value {
        AcceptedHead(whole, end, Later(plan), filled, max);
      }
    }
  }

  /** Bytes after the head do not change its length. */
  lemma HeadLenOfPrefix(whole: Bytes, extra: Bytes)
    requires HeadLen(whole).Some?
    ensures HeadLen(whole + extra) == HeadLen(whole)
    ensures HeadLen(whole[..HeadLen(whole).value]) == HeadLen(whole)
  {
    FindInExtension(whole, HEADER_END, extra);
    FindInPrefix(whole, HEADER_END, HeadLen(whole).value);
  }

  // ---------- Header fields ----------

  function ParseLine(line: Bytes): Option<Header> {
    match Find(line, [COLON])
    case None => None
    case Some(i) => Some(Header(Trim(line[..i]), Trim(line[i + 1..])))
  }

  function Prepend(hs: seq<Header>, r: Result<seq<Header>>): Result<seq<Header>> {
    match r
    case Err(e) => Err(e)
    case Ok(more) => Ok(hs + more)
  }

  /** The fields on the lines up to the first empty one. */
  function FieldsOf(lines: seq<Bytes>): Result<seq<Header>> {
    if lines == [] || lines[0] == [] then Ok([])
    else
      match ParseLine(lines[0])
      case None => Err(Parse(MalformedHeaderLine))
      case Some(h) => Prepend([h], FieldsOf(lines[1..]))
  }

  /** A field line cut at its first colon. */
  ghost predicate IsField(line: Bytes, h: Header) {
    exists c: nat | c < |line| ::
      && line[c] == COLON && (forall j | 0 <= j < c :: line[j] != COLON)
      && h.name == Trim(line[..c]) && h.value == Trim(line[c + 1..])
  }

  /** Number of lines in front of the first empty one. */
  function LinesBeforeEmpty(lines: seq<Bytes>): (n: nat)
    ensures n <= |lines| && (n < |lines| ==> lines[n] == []) && forall k | 0 <= k < n :: lines[k] != []
  {
    if lines == [] || lines[0] == [] then 0 else 1 + LinesBeforeEmpty(lines[1..])
  }

  predicate HaveColons(lines: seq<Bytes>) { forall l | l in lines :: COLON in l }

  lemma ParseLineIs(line: Bytes)
    ensures ParseLine(line).None? <==> COLON !in line
    ensures ParseLine(line).Some? ==> IsField(line, ParseLine(line).value)
  {
    hide Trim;
    var found := Find(line, [COLON]);
    forall j: nat
      ensures Occurs(line, [COLON], j) <==> j < |line| && line[j] == COLON
    {
      ByteAt(line, COLON, j);
    }
    if COLON in line {
      var j :| 0 <= j < |line| && line[j] == COLON;
      assert Occurs(line, [COLON], j);
    }
    if found.Some? {
      var c := found.value;
      assert line[c] == COLON;
      forall j | 0 <= j < c
        ensures line[j] != COLON
      {
        assert !Occurs(line, [COLON], j);
      }
    }
  }

  /** The fields are those of the lines up to the first empty one, each cut at its first colon; a line
      without a colon among them is an error. */
  lemma {:induction false} FieldsOfIff(lines: seq<Bytes>)
    ensures var n := LinesBeforeEmpty(lines);
            if HaveColons(lines[..n]) then FieldsOf(lines).Ok? && |FieldsOf(lines).value| == n
                 && forall k | 0 <= k < n :: IsField(lines[k], FieldsOf(lines).value[k])
            else FieldsOf(lines) == Err(Parse(MalformedHeaderLine))
  {
    hide ParseLine, IsField;
    if lines != [] && lines[0] != [] {
      var n := LinesBeforeEmpty(lines);
      FieldsOfIff(lines[1..]);
      ParseLineIs(lines[0]);
      assert lines[..n] == [lines[0]] + lines[1..][..n - 1];
      assert forall k | 0 < k < n :: lines[k] == lines[1..][k - 1];
      assert forall k | 0 <= k < n - 1 :: lines[1..][k] == lines[k + 1];
    }
  }

  function HeaderFields(head: Bytes): Result<seq<Header>> {
    if !IsUtf8(head) then Err(Parse(InvalidUtf8InHeaders)) else FieldsOf(Split(head)[1..])
  }

  /** When a head has fields, and which error it gives otherwise. */
  lemma HeaderFieldsIff(head: Bytes)
    ensures var lines := Split(head)[1..];
            var n := LinesBeforeEmpty(lines);
            if !IsUtf8(head) then HeaderFields(head) == Err(Parse(InvalidUtf8InHeaders))
            else if HaveColons(lines[..n]) then HeaderFields(head).Ok? && |HeaderFields(head).value| == n
                 && forall k | 0 <= k < n :: IsField(lines[k], HeaderFields(head).value[k])
            else HeaderFields(head) == Err(Parse(MalformedHeaderLine))
  {
    hide IsUtf8, FieldsOf, IsField, LinesBeforeEmpty;
    var lines := Split(head)[1..];
    hide Split;
    FieldsOfIff(lines);
  }

  lemma PrependOne(hs: seq<Header>, h: Header, r: Result<seq<Header>>)
    ensures Prepend(hs, Prepend([h], r)) == Prepend(hs + [h], r)
  {
    if r.Ok? {
      assert hs + ([h] + r.value) == hs + [h] + r.value;
    }
  }

  lemma {:induction false} FieldsOfError(lines: seq<Bytes>)
    ensures FieldsOf(lines).Err? ==> FieldsOf(lines).error == Parse(MalformedHeaderLine)
  {
    if lines != [] && lines[0] != [] {
      FieldsOfError(lines[1..]);
    }
  }

  lemma HeaderFieldsError(head: Bytes)
    ensures HeaderFields(head).Err? ==>
              HeaderFields(head).error in {Parse(InvalidUtf8InHeaders), Parse(MalformedHeaderLine)}
  {
    hide IsUtf8, Split, FieldsOf;
    FieldsOfError(Split(head)[1..]);
  }

  method ParseHeaderFields(head: Bytes) returns (r: Result<seq<Header>>)
    ensures r == HeaderFields(head)
  {
    if !IsUtf8(head) {
      return Err(Parse(InvalidUtf8InHeaders));
    }
    var lines := Split(head)[1..];
    var headers, k := [], 0;
    assert lines[0..] == lines;
    assert Prepend([], FieldsOf(lines)) == FieldsOf(lines) by {
      if FieldsOf(lines).Ok? {
        assert [] + FieldsOf(lines).value == FieldsOf(lines).value;
      }
    }
    while k < |lines| && lines[k] != []
      invariant k <= |lines|
      invariant FieldsOf(lines) == Prepend(headers, FieldsOf(lines[k..]))
    {
      assert lines[k..][0] == lines[k] && lines[k..][1..] == lines[k + 1..];
      match ParseLine(lines[k]) {
        case None => return Err(Parse(MalformedHeaderLine));
        case Some(h) =>
          PrependOne(headers, h, FieldsOf(lines[k + 1..]));
          headers := headers + [h];
      }
      k := k + 1;
    }
    assert k < |lines| ==> lines[k..][0] == [];
    assert headers + [] == headers;
    r := Ok(headers);
  }

  /** `format!("{name}: {value}")`. */
  function FieldLine(h: Header): Bytes {
    h.name + [COLON, SPACE] + h.value
  }

  function FieldLines(hs: seq<Header>): (lines: seq<Bytes>)
    ensures |lines| == |hs|
    ensures forall k | 0 <= k < |hs| :: lines[k] == FieldLine(hs[k])
  {
    if hs == [] then [] else [FieldLine(hs[0])] + FieldLines(hs[1..])
  }

  /** A field that survives being printed and parsed again. */
  predicate Clean(h: Header) {
    && Trim(h.name) == h.name && Trim(h.value) == h.value
    && Find(h.name, [COLON]).None? && Find(FieldLine(h), CRLF).None?
    && IsUtf8(h.name) && IsUtf8(h.value)
  }

  lemma ParseUndoesFieldLine(h: Header)
    requires Clean(h)
    ensures FieldLine(h) != [] && ParseLine(FieldLine(h)) == Some(h)
  {
    var line := FieldLine(h);
    var at := |h.name|;
    assert Occurs(line, [COLON], at);
    forall j: nat | j < at
      ensures !Occurs(line, [COLON], j)
    {
      ByteAt(line, COLON, j);
      ByteAt(h.name, COLON, j);
    }
    FindIs(line, [COLON], at);
    assert line[..at] == h.name;
    assert line[at + 1..] == [SPACE] + h.value;
    TrimUndoesSpace(h.value);
  }

  lemma FieldsOfCons(line: Bytes, lines: seq<Bytes>, h: Header, hs: seq<Header>)
    requires line != [] && ParseLine(line) == Some(h) && FieldsOf(lines) == Ok(hs)
    ensures FieldsOf([line] + lines) == Ok([h] + hs)
  {
    assert ([line] + lines)[1..] == lines;
  }

  lemma {:induction false} FieldsOfPrinted(hs: seq<Header>, more: seq<Bytes>)
    requires forall h | h in hs :: Clean(h)
    requires more != [] && more[0] == []
    ensures FieldsOf(FieldLines(hs) + more) == Ok(hs)
  {
    hide Clean, ParseLine, FieldLine;
    if hs == [] {
      assert FieldLines(hs) + more == more;
    } else {
      assert hs[0] in hs;
      ParseUndoesFieldLine(hs[0]);
      FieldsOfPrinted(hs[1..], more);
      FieldsOfCons(FieldLine(hs[0]), FieldLines(hs[1..]) + more, hs[0], hs[1..]);
      assert FieldLines(hs) + more == [FieldLine(hs[0])] + (FieldLines(hs[1..]) + more);
      assert [hs[0]] + hs[1..] == hs;
    }
  }

  lemma PrefixOfMiddle(a: Bytes, b: Bytes, c: Bytes)
    ensures b <= (a + b + c)[|a|..]
  {
    assert (a + b + c)[|a|..] == b + c;
  }

  /** Trimming a stretch of a text gives a stretch of it. */
  lemma TrimIsStretch(s: Bytes) returns (from: nat)
    ensures from <= |s| && Trim(s) <= s[from..]
  {
    var before, after := TrimMeaning(s);
    PrefixOfMiddle(before, Trim(s), after);
    from := |before|;
  }

  lemma NoColonInName(line: Bytes)
    requires Find(line, [COLON]).Some?
    ensures Find(Trim(line[..Find(line, [COLON]).value]), [COLON]).None?
  {
    var i := Find(line, [COLON]).value;
    var name := Trim(line[..i]);
    var from := TrimIsStretch(line[..i]);
    if Find(name, [COLON]).Some? {
      var j := Find(name, [COLON]).value;
      ByteAt(name, COLON, j);
      assert line[..i][from..][j] == line[from + j];
      ByteAt(line, COLON, from + j);
    }
  }

  lemma NoCrlfInParsed(line: Bytes)
    requires Find(line, CRLF).None? && ParseLine(line).Some?
    ensures Find(FieldLine(ParseLine(line).value), CRLF).None?
  {
    var i := Find(line, [COLON]).value;
    var name, value := Trim(line[..i]), Trim(line[i + 1..]);
    assert line[..i] <= line[0..];
    NoCrlfInStretch(line, 0, line[..i]);
    NoCrlfInStretch(line, i + 1, line[i + 1..]);
    var f := TrimIsStretch(line[..i]);
    NoCrlfInStretch(line[..i], f, name);
    var g := TrimIsStretch(line[i + 1..]);
    NoCrlfInStretch(line[i + 1..], g, value);
    NoCrlfAcrossField(name, value);
  }

  lemma ParsedFieldIsClean(line: Bytes)
    requires Find(line, CRLF).None? && IsUtf8(line)
    ensures ParseLine(line).Some? ==> Clean(ParseLine(line).value)
  {
    if ParseLine(line).Some? {
      var i := Find(line, [COLON]).value;
      NoColonInName(line);
      NoCrlfInParsed(line);
      ByteAt(line, COLON, i);
      CutAround(line, i);
      var _, _ := TrimMeaning(line[..i]);
      var _, _ := TrimMeaning(line[i + 1..]);
      TrimUndoesSpace(line[..i]);
      TrimUndoesSpace(line[i + 1..]);
    }
  }

  lemma CutAround(line: Bytes, i: nat)
    requires IsUtf8(line) && i < |line| && line[i] == COLON
    ensures IsUtf8(line[..i]) && IsUtf8(line[i + 1..])
  {
    Utf8Cut(line, i);
    assert line[i..][1..] == line[i + 1..];
  }

  /** A stretch of a text without CRLF has none either. */
  lemma NoCrlfInStretch(s: Bytes, from: nat, part: Bytes)
    requires Find(s, CRLF).None? && from <= |s| && part <= s[from..]
    ensures Find(part, CRLF).None?
  {
    if Find(part, CRLF).Some? {
      var j := Find(part, CRLF).value;
      CrlfAt(part, j);
      CrlfAt(s, from + j);
    }
  }

  lemma NoCrlfAcrossField(name: Bytes, value: Bytes)
    requires Find(name, CRLF).None? && Find(value, CRLF).None?
    ensures Find(FieldLine(Header(name, value)), CRLF).None?
  {
    var s := FieldLine(Header(name, value));
    if Find(s, CRLF).Some? {
      var j := Find(s, CRLF).value;
      CrlfAt(s, j);
      if j < |name| {
        CrlfAt(name, j);
      } else if |name| + 2 <= j {
        CrlfAt(value, j - |name| - 2);
      }
    }
  }

  lemma {:induction false} ParsedFieldsAreClean(lines: seq<Bytes>)
    requires forall l | l in lines :: Find(l, CRLF).None? && IsUtf8(l)
    ensures FieldsOf(lines).Ok? ==> forall h | h in FieldsOf(lines).value :: Clean(h)
  {
    if lines != [] && lines[0] != [] {
      assert lines[0] in lines;
      ParsedFieldIsClean(lines[0]);
      assert forall l | l in lines[1..] :: l in lines;
      ParsedFieldsAreClean(lines[1..]);
    }
  }

  lemma {:induction false} SplitKeepsUtf8(s: Bytes)
    requires IsUtf8(s)
    ensures forall p | p in Split(s) :: IsUtf8(p)
    decreases |s|
  {
    var found := Find(s, CRLF);
    if found.Some? {
      var i := found.value;
      CrlfAt(s, i);
      Utf8Cut(s, i);
      assert CharLen(s[i..]) == 1 && s[i..][1..] == s[i + 1..];
      assert CharLen(s[i + 1..]) == 1 && s[i + 1..][1..] == s[i + 2..];
      SplitKeepsUtf8(s[i + 2..]);
    }
  }

  /** Every field of a parsed head survives being printed and parsed again. */
  lemma FieldsAreClean(head: Bytes)
    ensures HeaderFields(head).Ok? ==> forall h | h in HeaderFields(head).value :: Clean(h)
  {
    if IsUtf8(head) {
      SplitKeepsUtf8(head);
      assert forall l | l in Split(head)[1..] :: l in Split(head);
      ParsedFieldsAreClean(Split(head)[1..]);
    }
  }

  /** The value of the first field with this name, ignoring ASCII case. */
  function HeaderField(hs: seq<Header>, name: Bytes): (r: Option<Bytes>)
    ensures r.None? ==> forall h | h in hs :: !EqIgnoreCase(h.name, name)
  {
    if hs == [] then None
    else if EqIgnoreCase(hs[0].name, name) then Some(hs[0].value)
    else HeaderField(hs[1..], name)
  }

  /** The first field with this name, ignoring ASCII case, is the one at `i`. */
  predicate FirstNamed(hs: seq<Header>, name: Bytes, i: nat) {
    i < |hs| && EqIgnoreCase(hs[i].name, name) && forall j | 0 <= j < i :: !EqIgnoreCase(hs[j].name, name)
  }

  /** The value found is that of the first field with the name; none is found when none has it. */
  lemma {:induction false} HeaderFieldIs(hs: seq<Header>, name: Bytes)
    ensures HeaderField(hs, name).None? <==> forall h | h in hs :: !EqIgnoreCase(h.name, name)
    ensures forall i: nat | FirstNamed(hs, name, i) :: HeaderField(hs, name) == Some(hs[i].value)
    ensures HeaderField(hs, name).Some? ==> exists i: nat :: FirstNamed(hs, name, i)
  {
    hide EqIgnoreCase;
    if hs != [] && !EqIgnoreCase(hs[0].name, name) {
      HeaderFieldIs(hs[1..], name);
      forall i: nat | FirstNamed(hs, name, i)
        ensures HeaderField(hs, name) == Some(hs[i].value)
      {
        assert forall j | 0 <= j < i - 1 :: hs[1..][j] == hs[j + 1];
        assert FirstNamed(hs[1..], name, i - 1);
      }
      if HeaderField(hs, name).Some? {
        var i: nat :| FirstNamed(hs[1..], name, i);
        assert forall j | 0 < j < i + 1 :: hs[j] == hs[1..][j - 1];
        assert FirstNamed(hs, name, i + 1);
      }
    } else if hs != [] {
      assert FirstNamed(hs, name, 0);
      assert hs[0] in hs;
      assert forall i: nat | FirstNamed(hs, name, i) :: i == 0;
    }
  }

  /** The fields in front of the one found do not have the name. */
  lemma {:induction false} HeaderFieldAfter(before: seq<Header>, hs: seq<Header>, name: Bytes)
    requires forall h | h in before :: !EqIgnoreCase(h.name, name)
    ensures HeaderField(before + hs, name) == HeaderField(hs, name)
  {
    if before == [] {
      assert before + hs == hs;
    } else {
      assert before[0] in before;
      assert (before + hs)[1..] == before[1..] + hs;
      assert forall h | h in before[1..] :: h in before;
      HeaderFieldAfter(before[1..], hs, name);
    }
  }

  lemma FieldLineIsUtf8(h: Header)
    requires IsUtf8(h.name) && IsUtf8(h.value)
    ensures IsUtf8(FieldLine(h))
  {
    hide IsUtf8;
    Utf8Ascii([COLON, SPACE]);
    Utf8Concat(h.name, [COLON, SPACE]);
    Utf8Concat(h.name + [COLON, SPACE], h.value);
  }

  lemma {:induction false} PrintLinesUtf8(lines: seq<Bytes>)
    requires forall l | l in lines :: IsUtf8(l)
    ensures IsUtf8(PrintLines(lines))
  {
    hide IsUtf8;
    Utf8Ascii(CRLF);
    if lines != [] {
      var rest := PrintLines(lines[1..]);
      assert lines[0] in lines;
      assert forall l | l in lines[1..] :: l in lines;
      PrintLinesUtf8(lines[1..]);
      Utf8Concat(lines[0], CRLF);
      Utf8Concat(lines[0] + CRLF, rest);
    }
  }
}
