/** The chunked transfer coding (section 7.1 of RFC 9112): the decoding loop, and the grammar it is
    sound and complete for. */
module Chunked {
  import opened Bytes
  import opened Text
  import opened Numbers
  import opened Streams

  const MAX_LINE: nat := 8 * 1024
  const SEMICOLON: Byte := 59
  const HTAB: Byte := 9

  // ---------- The decoder ----------

  /** What `read_line` returns and leaves. */
  function LineOf(s: Bytes, end: End): (Result<Bytes>, Bytes) {
    match Find(s, CRLF)
    case Some(i) =>
      if i < MAX_LINE then (Ok(s[..i]), s[i + 2..])
      else (Err(Parse(ChunkLineTooLong)), s[MAX_LINE + 1..])
    case None =>
      if |s| > MAX_LINE then (Err(Parse(ChunkLineTooLong)), s[MAX_LINE + 1..])
      else (Err(DryError(end)), [])
  }

  method ReadLine(stream: PrefixReader) returns (r: Result<Bytes>)
    requires stream.Valid()
    modifies stream, stream.inner
    ensures stream.Valid() && (r, stream.Unread()) == LineOf(old(stream.Unread()), stream.inner.end)
  {
    hide Occurs, LineOf;
    var line := [];
    ghost var s := stream.Unread();
    while true
      invariant stream.Valid() && |line| <= |s| && |line| <= MAX_LINE
      invariant line == s[..|line|] && stream.Unread() == s[|line|..]
      invariant forall j: nat | j + 2 <= |line| :: !Occurs(s, CRLF, j)
      decreases |s| - |line|
    {
      var got := stream.ReadExact(1);
      if got.Err? {
        DryLine(s, |line|, stream.inner.end);
        return Err(got.error);
      }
      TakeOne(s, |line|);
      line := line + got.value;
      EndsWithMeaning(s, |line|);
      if EndsWithCrlf(line) {
        LineEndsAt(s, |line| - 2, stream.inner.end);
        return Ok(line[..|line| - 2]);
      }
      if |line| > 8 * 1024 {
        LongLine(s, stream.inner.end);
        return Err(Parse(ChunkLineTooLong));
      }
    }
  }

  predicate EndsWithCrlf(line: Bytes) {
    |line| >= 2 && line[|line| - 2] == CR && line[|line| - 1] == LF
  }

  lemma EndsWithMeaning(s: Bytes, n: nat)
    requires n <= |s|
    ensures EndsWithCrlf(s[..n]) <==> n >= 2 && Occurs(s, CRLF, n - 2)
    ensures n >= 2 ==> s[..n][..n - 2] == s[..n - 2]
  {
    if n >= 2 {
      CrlfAt(s, n - 2);
    }
  }

  lemma TakeOne(s: Bytes, n: nat)
    requires n < |s|
    ensures s[..n] + s[n..][..1] == s[..n + 1] && s[n..][1..] == s[n + 1..]
  {
  }

  lemma DryLine(s: Bytes, n: nat, end: End)
    requires n <= |s| && n <= MAX_LINE && |s[n..]| < 1
    requires forall j: nat | j + 2 <= n :: !Occurs(s, CRLF, j)
    ensures LineOf(s, end) == (Err(DryError(end)), [])
  {
    if Find(s, CRLF).Some? {
      CrlfAt(s, Find(s, CRLF).value);
    }
  }

  lemma LineEndsAt(s: Bytes, i: nat, end: End)
    requires Occurs(s, CRLF, i) && i < MAX_LINE
    requires forall j: nat | j < i :: !Occurs(s, CRLF, j)
    ensures LineOf(s, end) == (Ok(s[..i]), s[i + 2..])
  {
    FindIs(s, CRLF, i);
  }

  lemma LongLine(s: Bytes, end: End)
    requires |s| > MAX_LINE
    requires forall j: nat | j < MAX_LINE :: !Occurs(s, CRLF, j)
    ensures LineOf(s, end) == (Err(Parse(ChunkLineTooLong)), s[MAX_LINE + 1..])
  {
  }

  /** The part of a size line that holds the number. */
  function SizeToken(line: Bytes): Bytes {
    match Find(line, [SEMICOLON])
    case None => Trim(line)
    case Some(i) => Trim(line[..i])
  }

  function SizeOf(line: Bytes): Result<nat> {
    if !IsUtf8(line) then Err(Parse(InvalidChunkSizeLine))
    else match ParseUnsigned(SizeToken(line), 16, USIZE_MAX)
      case None => Err(Parse(InvalidChunkSize))
      case Some(n) => Ok(n)
  }

  function SaturatingAdd(a: nat, b: nat): nat {
    if a + b > USIZE_MAX then USIZE_MAX else a + b
  }

  /** The decoding loop on the bytes still to come, with `body` decoded so far. */
  function Decode(s: Bytes, end: End, body: Bytes, max: nat): (Result<Bytes>, Bytes)
    decreases |s|
  {
    var (line, afterLine) := LineOf(s, end);
    match line
    case Err(e) => (Err(e), afterLine)
    case Ok(sizeLine) =>
      match SizeOf(sizeLine)
      case Err(e) => (Err(e), afterLine)
      case Ok(size) =>
        if size == 0 then
          match LineOf(afterLine, end)
          case (Err(e), rest) => (Err(e), rest)
          case (Ok(_), rest) => (Ok(body), rest)
        else if SaturatingAdd(|body|, size) > max then (Err(BodyTooLarge), afterLine)
        else
          match Exactly(afterLine, end, size)
          case (Err(e), rest) => (Err(e), rest)
          case (Ok(data), afterData) =>
            match Exactly(afterData, end, 2)
            case (Err(e), rest) => (Err(e), rest)
            case (Ok(delimiter), rest) =>
              if delimiter != CRLF then (Err(Parse(MalformedChunkedBody)), rest)
              else Decode(rest, end, body + data, max)
  }

  method ReadExactDelimiter(stream: PrefixReader, delimiter: Bytes) returns (r: Result<()>)
    requires stream.Valid()
    modifies stream, stream.inner
    ensures stream.Valid()
    ensures var (got, rest) := Exactly(old(stream.Unread()), stream.inner.end, |delimiter|);
            && stream.Unread() == rest
            && match got
               case Err(e) => r == Err(e)
               case Ok(bytes) => r == if bytes == delimiter then Ok(()) else Err(Parse(MalformedChunkedBody))
  {
    var buf := stream.ReadExact(|delimiter|);
    if buf.Err? {
      return Err(buf.error);
    }
    if buf.value != delimiter {
      return Err(Parse(MalformedChunkedBody));
    }
    r := Ok(());
  }

  method ReadChunkedBody(stream: PrefixReader, maxBytes: nat) returns (r: Result<Bytes>)
    requires stream.Valid()
    modifies stream, stream.inner
    ensures stream.Valid() && (r, stream.Unread()) == Decode(old(stream.Unread()), stream.inner.end, [], maxBytes)
  {
    hide LineOf, SizeOf;
    var body := [];
    while true
      invariant stream.Valid()
      invariant Decode(old(stream.Unread()), stream.inner.end, [], maxBytes)
             == Decode(stream.Unread(), stream.inner.end, body, maxBytes)
      decreases |stream.Unread()|
    {
      LineShrinks(stream.Unread(), stream.inner.end);
      var sizeLine := ReadLine(stream);
      if sizeLine.Err? {
        return Err(sizeLine.error);
      }
      var chunkSize := SizeOf(sizeLine.value);
      if chunkSize.Err? {
        return Err(chunkSize.error);
      }
      if chunkSize.value == 0 {
        var last := ReadLine(stream);
        if last.Err? {
          return Err(last.error);
        }
        return Ok(body);
      }
      if SaturatingAdd(|body|, chunkSize.value) > maxBytes {
        return Err(BodyTooLarge);
      }
      var chunk := stream.ReadExact(chunkSize.value);
      if chunk.Err? {
        return Err(chunk.error);
      }
      var delimiter := ReadExactDelimiter(stream, CRLF);
      if delimiter.Err? {
        return Err(delimiter.error);
      }
      body := body + chunk.value;
    }
  }

  lemma LineShrinks(s: Bytes, end: End)
    ensures LineOf(s, end).0.Ok? ==> |LineOf(s, end).1| + 2 <= |s|
  {
  }

  // ---------- The grammar ----------

  datatype Chunk = Chunk(sizeLine: Bytes, data: Bytes)

  /** A chunked body on the wire: chunks, the line of size zero, and one further line. */
  datatype Framing = Framing(chunks: seq<Chunk>, zeroLine: Bytes, finalLine: Bytes)

  predicate GoodLine(line: Bytes) {
    Find(line, CRLF).None? && |line| < MAX_LINE
  }

  predicate GoodChunk(c: Chunk) {
    GoodLine(c.sizeLine) && c.data != [] && SizeOf(c.sizeLine) == Ok(|c.data|)
  }

  predicate WellFormed(f: Framing) {
    && (forall c | c in f.chunks :: GoodChunk(c))
    && GoodLine(f.zeroLine) && SizeOf(f.zeroLine) == Ok(0) && GoodLine(f.finalLine)
  }

  function Encode(f: Framing): Bytes
    decreases |f.chunks|
  {
    if f.chunks == [] then f.zeroLine + CRLF + f.finalLine + CRLF
    else f.chunks[0].sizeLine + CRLF + f.chunks[0].data + CRLF + Encode(f.(chunks := f.chunks[1..]))
  }

  /** The concatenated data. */
  function Payload(chunks: seq<Chunk>): Bytes {
    if chunks == [] then [] else chunks[0].data + Payload(chunks[1..])
  }

  lemma GoodLineIsRead(line: Bytes, rest: Bytes, end: End)
    requires GoodLine(line)
    ensures LineOf(line + CRLF + rest, end) == (Ok(line), rest)
  {
    var s := line + CRLF + rest;
    FirstCrlfAfterLine(line, rest);
    assert s[..|line|] == line && s[|line| + 2..] == rest;
  }

  lemma LineIsGood(s: Bytes, end: End)
    requires LineOf(s, end).0.Ok?
    ensures GoodLine(LineOf(s, end).0.value)
    ensures s == LineOf(s, end).0.value + CRLF + LineOf(s, end).1
  {
    var i := Find(s, CRLF).value;
    FindInPrefix(s, CRLF, i);
    CrlfAt(s, i);
    assert s == s[..i] + CRLF + s[i + 2..];
  }

  lemma ChunkIsRead(c: Chunk, rest: Bytes, end: End, body: Bytes, max: nat)
    requires GoodChunk(c)
    ensures Decode(c.sizeLine + CRLF + c.data + CRLF + rest, end, body, max)
         == if SaturatingAdd(|body|, |c.data|) > max then (Err(BodyTooLarge), c.data + CRLF + rest)
            else Decode(rest, end, body + c.data, max)
  {
    hide LineOf, SizeOf;
    var after := c.data + CRLF + rest;
    assert c.sizeLine + CRLF + c.data + CRLF + rest == c.sizeLine + CRLF + after;
    GoodLineIsRead(c.sizeLine, after, end);
    assert after[..|c.data|] == c.data && after[|c.data|..] == CRLF + rest;
    assert (CRLF + rest)[..2] == CRLF && (CRLF + rest)[2..] == rest;
  }

  /** Completeness: every encoding within the limits decodes to its data and leaves what follows
      it, whether or not the connection is ever closed. */
  lemma {:induction false} DecodeComplete(f: Framing, extra: Bytes, end: End, body: Bytes, max: nat)
    requires WellFormed(f) && |body| + |Payload(f.chunks)| <= max
    ensures Decode(Encode(f) + extra, end, body, max) == (Ok(body + Payload(f.chunks)), extra)
    decreases |f.chunks|
  {
    hide SizeOf, LineOf, Find;
    if f.chunks == [] {
      var tail := f.finalLine + CRLF + extra;
      assert Encode(f) + extra == f.zeroLine + CRLF + tail;
      GoodLineIsRead(f.zeroLine, tail, end);
      GoodLineIsRead(f.finalLine, extra, end);
      assert body + [] == body;
    } else {
      var c, g := f.chunks[0], f.(chunks := f.chunks[1..]);
      EncodeCons(f, extra);
      ChunkIsRead(c, Encode(g) + extra, end, body, max);
      DecodeComplete(g, extra, end, body + c.data, max);
      assert body + c.data + Payload(g.chunks) == body + Payload(f.chunks);
    }
  }

  lemma EncodeCons(f: Framing, extra: Bytes)
    requires f.chunks != []
    ensures Encode(f) + extra
         == f.chunks[0].sizeLine + CRLF + f.chunks[0].data + CRLF + (Encode(f.(chunks := f.chunks[1..])) + extra)
  {
  }

  /** The records a successful decoding cuts the stream into. */
  function FramingOf(s: Bytes, end: End): Framing
    decreases |s|
  {
    var (line, after) := LineOf(s, end);
    if line.Err? || SizeOf(line.value).Err? then Framing([], [], [])
    else
      var size := SizeOf(line.value).value;
      if size == 0 then Framing([], line.value, LineOf(after, end).0.GetOr([]))
      else if size + 2 > |after| then Framing([], [], [])
      else
        var f := FramingOf(after[size + 2..], end);
        f.(chunks := [Chunk(line.value, after[..size])] + f.chunks)
  }

  /** Soundness: on success the bytes taken are the records found, well formed, and the result is
      their data, in order and within the limit. */
  lemma {:induction false} DecodeSound(s: Bytes, end: End, body: Bytes, max: nat)
    requires max < USIZE_MAX && |body| <= max
    requires Decode(s, end, body, max).0.Ok?
    ensures var f := FramingOf(s, end);
            && WellFormed(f)
            && s == Encode(f) + Decode(s, end, body, max).1
            && Decode(s, end, body, max).0.value == body + Payload(f.chunks)
            && |body + Payload(f.chunks)| <= max
    decreases |s|
  {
    hide SizeOf, LineOf, GoodLine, WellFormed, Encode, Payload;
    var (line, after) := LineOf(s, end);
    LineIsGood(s, end);
    var size := SizeOf(line.value).value;
    if size == 0 {
      LineIsGood(after, end);
      assert FramingOf(s, end) == Framing([], line.value, LineOf(after, end).0.value);
      ZeroRecord(line.value, LineOf(after, end).0.value, LineOf(after, end).1);
      assert body + [] == body;
    } else {
      var data, rest := after[..size], after[size + 2..];
      assert after[size..][2..] == rest;
      DecodeSound(rest, end, body + data, max);
      var f := FramingOf(rest, end);
      ChunkRecord(line.value, after, size, f, Decode(s, end, body, max).1);
      assert body + data + Payload(f.chunks) == body + (data + Payload(f.chunks));
    }
  }

  lemma ZeroRecord(zeroLine: Bytes, finalLine: Bytes, rest: Bytes)
    requires GoodLine(zeroLine) && SizeOf(zeroLine) == Ok(0) && GoodLine(finalLine)
    ensures WellFormed(Framing([], zeroLine, finalLine)) && Payload([]) == []
    ensures zeroLine + CRLF + (finalLine + CRLF + rest) == Encode(Framing([], zeroLine, finalLine)) + rest
  {
  }

  lemma CutDelimiter(after: Bytes, size: nat)
    requires size + 2 <= |after| && after[size..][..2] == CRLF
    ensures after == after[..size] + CRLF + after[size + 2..]
  {
    assert after[size..] == after[size..][..2] + after[size..][2..];
  }

  lemma ChunkRecord(sizeLine: Bytes, after: Bytes, size: nat, f: Framing, rest: Bytes)
    requires 0 < size && size + 2 <= |after| && after[size..][..2] == CRLF && after[size + 2..] == Encode(f) + rest
    requires GoodLine(sizeLine) && SizeOf(sizeLine) == Ok(size) && WellFormed(f)
    ensures WellFormed(f.(chunks := [Chunk(sizeLine, after[..size])] + f.chunks))
    ensures var g := f.(chunks := [Chunk(sizeLine, after[..size])] + f.chunks);
            && sizeLine + CRLF + after == Encode(g) + rest
            && Payload(g.chunks) == after[..size] + Payload(f.chunks)
  {
    var g := f.(chunks := [Chunk(sizeLine, after[..size])] + f.chunks);
    hide Encode, GoodLine, SizeOf;
    var data := after[..size];
    assert g.chunks[1..] == f.chunks && g.(chunks := g.chunks[1..]) == f;
    EncodeCons(g, rest);
    CutDelimiter(after, size);
    RecordJoins(sizeLine, data, Encode(f) + rest);
  }

  lemma RecordJoins(sizeLine: Bytes, data: Bytes, rest: Bytes)
    ensures sizeLine + CRLF + (data + CRLF + rest) == sizeLine + CRLF + data + CRLF + rest
  {
  }

  /** The records are the only way to cut the bytes. */
  lemma {:induction false} FramingUnique(f: Framing, extra: Bytes, end: End)
    requires WellFormed(f)
    ensures FramingOf(Encode(f) + extra, end) == f
    decreases |f.chunks|
  {
    hide SizeOf, LineOf, Find;
    if f.chunks == [] {
      var tail := f.finalLine + CRLF + extra;
      assert Encode(f) + extra == f.zeroLine + CRLF + tail;
      GoodLineIsRead(f.zeroLine, tail, end);
      GoodLineIsRead(f.finalLine, extra, end);
      assert FramingOf(Encode(f) + extra, end) == Framing([], f.zeroLine, f.finalLine);
    } else {
      var c, g := f.chunks[0], f.(chunks := f.chunks[1..]);
      assert c in f.chunks && GoodChunk(c);
      var after := c.data + CRLF + (Encode(g) + extra);
      EncodeCons(f, extra);
      assert Encode(f) + extra == c.sizeLine + CRLF + after;
      GoodLineIsRead(c.sizeLine, after, end);
      assert after[..|c.data|] == c.data && after[|c.data| + 2..] == Encode(g) + extra;
      FramingUnique(g, extra, end);
      assert [c] + g.chunks == f.chunks;
    }
  }

  lemma FramingDetermined(f: Framing, x: Bytes, g: Framing, y: Bytes)
    requires WellFormed(f) && WellFormed(g) && Encode(f) + x == Encode(g) + y
    ensures f == g && x == y
  {
    hide Encode, WellFormed, FramingOf;
    FramingUnique(f, x, Closed);
    FramingUnique(g, y, Closed);
    assert (Encode(f) + x)[|Encode(f)|..] == x && (Encode(g) + y)[|Encode(g)|..] == y;
  }

  /** Both directions at once: decoding yields `b` and leaves `rest` exactly when the bytes are a
      well-formed encoding of `b`, within the limit, followed by `rest`. */
  lemma DecodeIff(s: Bytes, end: End, max: nat, b: Bytes, rest: Bytes)
    requires max < USIZE_MAX
    ensures Decode(s, end, [], max) == (Ok(b), rest)
       <==> exists f :: WellFormed(f) && s == Encode(f) + rest && b == Payload(f.chunks) && |b| <= max
  {
    hide Decode, Encode, WellFormed;
    if Decode(s, end, [], max) == (Ok(b), rest) {
      DecodeSound(s, end, [], max);
      var f := FramingOf(s, end);
      assert [] + Payload(f.chunks) == Payload(f.chunks);
    }
    forall f | WellFormed(f) && s == Encode(f) + rest && b == Payload(f.chunks) && |b| <= max
      ensures Decode(s, end, [], max) == (Ok(b), rest)
    {
      DecodeComplete(f, rest, end, [], max);
      assert [] + Payload(f.chunks) == Payload(f.chunks);
    }
  }

  // ---------- Where decoding fails ----------

  lemma CutLineIsDry(line: Bytes, k: nat, end: End)
    requires GoodLine(line) && k < |line| + 2
    ensures LineOf((line + CRLF)[..k], end) == (Err(DryError(end)), [])
  {
    FirstCrlfAfterLine(line, []);
    assert line + CRLF + [] == line + CRLF;
    FindInPrefix(line + CRLF, CRLF, k);
  }

  /** A chunk that is cut off anywhere: the connection runs dry. */
  lemma CutChunkIsDry(c: Chunk, n: nat, end: End, body: Bytes, max: nat)
    requires GoodChunk(c) && |body| + |c.data| <= max && n < |c.sizeLine| + |c.data| + 4
    ensures Decode((c.sizeLine + CRLF + c.data + CRLF)[..n], end, body, max).0 == Err(DryError(end))
  {
    hide LineOf, SizeOf, Find;
    var record, l := c.sizeLine + CRLF + c.data + CRLF, |c.sizeLine| + 2;
    if n < l {
      assert record[..n] == (c.sizeLine + CRLF)[..n];
      CutLineIsDry(c.sizeLine, n, end);
    } else {
      var after := (c.data + CRLF)[..n - l];
      assert record[..n] == c.sizeLine + CRLF + after;
      GoodLineIsRead(c.sizeLine, after, end);
    }
  }

  /** Every encoding within the limit that is cut off anywhere makes the connection run dry: no part of
      a message is taken for the whole. */
  lemma {:induction false} CutEncodingIsDry(f: Framing, n: nat, end: End, body: Bytes, max: nat)
    requires WellFormed(f) && |body| + |Payload(f.chunks)| <= max && n < |Encode(f)|
    ensures Decode(Encode(f)[..n], end, body, max).0 == Err(DryError(end))
    decreases |f.chunks|
  {
    hide SizeOf, LineOf, Find, GoodLine;
    if f.chunks == [] {
      hide Decode;
      CutTailIsDry(f.zeroLine, f.finalLine, n, end, body, max);
    } else {
      var c, g := f.chunks[0], f.(chunks := f.chunks[1..]);
      assert GoodChunk(c);
      var record := c.sizeLine + CRLF + c.data + CRLF;
      assert Encode(f) == record + Encode(g);
      hide Decode, Encode;
      if n < |record| {
        assert Encode(f)[..n] == record[..n];
        CutChunkIsDry(c, n, end, body, max);
      } else {
        var m := n - |record|;
        assert Encode(f)[..n] == c.sizeLine + CRLF + c.data + CRLF + Encode(g)[..m];
        ChunkIsRead(c, Encode(g)[..m], end, body, max);
        CutEncodingIsDry(g, m, end, body + c.data, max);
      }
    }
  }

  lemma CutTailIsDry(zeroLine: Bytes, finalLine: Bytes, n: nat, end: End, body: Bytes, max: nat)
    requires GoodLine(zeroLine) && SizeOf(zeroLine) == Ok(0) && GoodLine(finalLine)
    requires n < |zeroLine| + |finalLine| + 4
    ensures Decode((zeroLine + CRLF + finalLine + CRLF)[..n], end, body, max).0 == Err(DryError(end))
  {
    hide SizeOf, LineOf, GoodLine;
    var s, l := zeroLine + CRLF + finalLine + CRLF, |zeroLine| + 2;
    if n < l {
      assert s[..n] == (zeroLine + CRLF)[..n];
      CutLineIsDry(zeroLine, n, end);
    } else {
      var after := (finalLine + CRLF)[..n - l];
      assert s[..n] == zeroLine + CRLF + after;
      GoodLineIsRead(zeroLine, after, end);
      CutLineIsDry(finalLine, n - l, end);
    }
  }

  /** Data that is not followed by CRLF is malformed. */
  lemma BadDelimiterIsRefused(c: Chunk, delimiter: Bytes, rest: Bytes, end: End, body: Bytes, max: nat)
    requires GoodChunk(c) && |body| + |c.data| <= max < USIZE_MAX && |delimiter| == 2 && delimiter != CRLF
    ensures Decode(c.sizeLine + CRLF + c.data + delimiter + rest, end, body, max)
         == (Err(Parse(MalformedChunkedBody)), rest)
  {
    hide LineOf, SizeOf;
    var after := c.data + delimiter + rest;
    assert c.sizeLine + CRLF + c.data + delimiter + rest == c.sizeLine + CRLF + after;
    GoodLineIsRead(c.sizeLine, after, end);
    assert after[..|c.data|] == c.data && after[|c.data|..] == delimiter + rest;
    assert (delimiter + rest)[..2] == delimiter && (delimiter + rest)[2..] == rest;
  }

  // ---------- The chunked bodies of the standard ----------

  /** A size line as section 7.1 of RFC 9112 allows it: hexadecimal digits, then perhaps padding and an
      extension behind a semicolon. */
  datatype SizeLine = SizeLine(digits: Bytes, padding: Bytes, extension: Option<Bytes>)

  function SizeText(l: SizeLine): Bytes {
    l.digits + l.padding + if l.extension.Some? then [SEMICOLON] + l.extension.value else []
  }

  /** The digits spell the number: in either case, even mixed, after any number of leading zeros. */
  ghost predicate Spells(digits: Bytes, n: nat) {
    exists zeros :: EqIgnoreCase(digits, Zeros(zeros) + Print(n, 16, false))
  }

  /** A size line of the standard for a size, short enough for the decoder. An extension may hold any bytes
      above ASCII inside quotes (obs-text). */
  ghost predicate Announces(l: SizeLine, n: nat) {
    && Spells(l.digits, n)
    && (forall b | b in l.padding :: b == SPACE || b == HTAB)
    && (l.extension.Some? ==> Find(l.extension.value, CRLF).None?)
    && |SizeText(l)| < MAX_LINE
  }

  predicate Utf8Extension(l: SizeLine) { l.extension.Some? ==> IsUtf8(l.extension.value) }

  /** Every non-empty string of hexadecimal digits spells a number. */
  lemma {:induction false} HexSpells(digits: Bytes) returns (n: nat, zeros: nat)
    requires digits != [] && forall b | b in digits :: HexByte(b)
    ensures EqIgnoreCase(digits, Zeros(zeros) + Print(n, 16, false)) && Spells(digits, n)
    decreases |digits|
  {
    hide HexByte, Print, Zeros, Lower;
    var front, last := digits[..|digits| - 1], digits[|digits| - 1];
    assert last in digits;
    var d := HexDigit(last);
    if front == [] {
      n, zeros := d, 0;
      SpellOne(d);
    } else {
      assert forall b | b in front :: b in digits;
      var m, z := HexSpells(front);
      n, zeros := 16 * m + d, if m == 0 then z + 1 else z;
      SpellOneMore(m, d, z);
    }
  }

  lemma HexDigit(b: Byte) returns (d: nat)
    requires HexByte(b)
    ensures d < 16 && Lower(b) == Lower(DigitByte(d, false))
  {
    d := Digit(b, 16).value;
  }

  lemma SpellOne(d: nat)
    requires d < 16
    ensures Zeros(0) + Print(d, 16, false) == [DigitByte(d, false)]
  {
  }

  lemma SpellOneMore(m: nat, d: nat, zeros: nat)
    requires d < 16
    ensures Zeros(if m == 0 then zeros + 1 else zeros) + Print(16 * m + d, 16, false)
         == Zeros(zeros) + Print(m, 16, false) + [DigitByte(d, false)]
  {
    if m == 0 {
      ZerosSnoc(zeros);
      assert Print(0, 16, false) == [ZERO];
      assert Zeros(zeros) + [ZERO] + [DigitByte(d, false)] == Zeros(zeros + 1) + Print(d, 16, false);
    } else {
      assert (16 * m + d) / 16 == m && (16 * m + d) % 16 == d;
    }
  }

  lemma SpelledIsParsed(digits: Bytes, n: nat)
    requires Spells(digits, n)
    ensures ParseUnsigned(digits, 16, USIZE_MAX) == if n <= USIZE_MAX then Some(n) else None
    ensures digits != [] && forall b | b in digits :: HexByte(b)
  {
    hide Print, Zeros, DigitsValue;
    var zeros :| EqIgnoreCase(digits, Zeros(zeros) + Print(n, 16, false));
    var plain := Zeros(zeros) + Print(n, 16, false);
    ZerosAreHex(zeros);
    PrintIsHex(n);
    forall k | 0 <= k < |digits|
      ensures HexByte(digits[k])
    {
      assert plain[k] in plain;
    }
    DigitsIgnoreCase(digits, plain, 16);
    ValueOfZeros(n, 16, false, zeros);
    assert digits[0] != PLUS;
  }

  /** The decoder reads the number of a size line of the standard exactly when the extension is UTF-8 and
      the number fits; which error it gives otherwise. */
  lemma SizeLineIsAccepted(l: SizeLine, n: nat)
    requires Announces(l, n)
    ensures GoodLine(SizeText(l))
    ensures SizeOf(SizeText(l)) == if !Utf8Extension(l) then Err(Parse(InvalidChunkSizeLine))
                                   else if n <= USIZE_MAX then Ok(n)
                                   else Err(Parse(InvalidChunkSize))
  {
    hide Spells, ParseUnsigned, IsUtf8, Trim, Find;
    SpelledIsParsed(l.digits, n);
    SizeTextIsLine(l);
    SizeTokenIsDigits(l);
  }

  /** The standard allows `1;a="\xFF"`; the decoder refuses it. */
  lemma ObsTextIsRefused()
    ensures var l := SizeLine([49], [], Some([97, 61, 34, 255, 34]));
            && Announces(l, 1) && SizeText(l) == [49, 59, 97, 61, 34, 255, 34]
            && SizeOf(SizeText(l)) == Err(Parse(InvalidChunkSizeLine))
  {
    var l := SizeLine([49], [], Some([97, 61, 34, 255, 34]));
    hide IsUtf8, SizeOf, Spells, Find;
    OneIsSpelled();
    BareHighByte();
    SizeLineIsAccepted(l, 1);
  }

  lemma OneIsSpelled()
    ensures Spells([49], 1)
  {
    assert Zeros(0) + Print(1, 16, false) == [49];
    assert EqIgnoreCase([49], Zeros(0) + Print(1, 16, false));
  }

  lemma BareHighByte()
    ensures !IsUtf8([97, 61, 34, 255, 34]) && Find([97, 61, 34, 255, 34], CRLF).None?
  {
    var e: Bytes := [97, 61, 34, 255, 34];
    forall j: nat
      ensures !Occurs(e, CRLF, j)
    {
      CrlfAt(e, j);
    }
    assert e[1..][1..][1..] == [255, 34] && !IsUtf8([255, 34]);
    assert !IsUtf8(e[1..][1..]) && !IsUtf8(e[1..]);
  }

  /** The bytes of a size line in front of its extension. */
  predicate SizeByte(b: Byte) { HexByte(b) || b == SPACE || b == HTAB }

  lemma SizeTextIsLine(l: SizeLine)
    requires forall b | b in l.digits + l.padding :: SizeByte(b)
    requires l.extension.Some? ==> Find(l.extension.value, CRLF).None?
    ensures (IsUtf8(SizeText(l)) <==> Utf8Extension(l)) && Find(SizeText(l), CRLF).None?
  {
    hide IsUtf8;
    var front, text := l.digits + l.padding + (if l.extension.Some? then [SEMICOLON] else []), SizeText(l);
    var tail := if l.extension.Some? then l.extension.value else [];
    forall k | 0 <= k < |front|
      ensures front[k] < 0x80 && front[k] != CR
    {
      assert k < |l.digits + l.padding| ==> front[k] in l.digits + l.padding;
    }
    assert text == front + tail;
    Utf8Ascii(front);
    Utf8Concat(front, tail);
    Utf8Ascii([]);
    forall j: nat
      ensures !Occurs(text, CRLF, j)
    {
      CrlfAt(text, j);
      if j >= |front| && l.extension.Some? {
        CrlfAt(tail, j - |front|);
      }
    }
  }

  lemma SizeTokenIsDigits(l: SizeLine)
    requires l.digits != [] && (forall b | b in l.digits :: HexByte(b))
    requires forall b | b in l.padding :: b == SPACE || b == HTAB
    ensures SizeToken(SizeText(l)) == l.digits
  {
    hide Trim;
    var front, text := l.digits + l.padding, SizeText(l);
    forall j: nat | j < |front|
      ensures !Occurs(text, [SEMICOLON], j)
    {
      ByteAt(text, SEMICOLON, j);
      assert front[j] in front;
    }
    if l.extension.Some? {
      ByteAt(text, SEMICOLON, |front|);
      FindIs(text, [SEMICOLON], |front|);
      assert text[..|front|] == front;
    } else {
      assert text == front;
    }
    TrimPadding(l.digits, l.padding);
  }

  lemma TrimPadding(digits: Bytes, padding: Bytes)
    requires digits != [] && (forall b | b in digits :: HexByte(b))
    requires forall b | b in padding :: b == SPACE || b == HTAB
    ensures Trim(digits + padding) == digits
  {
    assert digits[0] in digits && (digits + padding)[0] == digits[0];
    TrimEndPadding(digits, padding);
  }

  lemma {:induction false} TrimEndPadding(digits: Bytes, padding: Bytes)
    requires digits != [] && (forall b | b in digits :: HexByte(b))
    requires forall b | b in padding :: b == SPACE || b == HTAB
    ensures TrimEnd(digits + padding) == digits
    decreases |padding|
  {
    var s := digits + padding;
    if padding == [] {
      assert s == digits && s[|s| - 1] in digits;
    } else {
      var k := |padding| - 1;
      assert s[|s| - 1] == padding[k] && padding[k] in padding;
      assert s[..|s| - 1] == digits + padding[..k];
      assert forall b | b in padding[..k] :: b in padding;
      TrimEndPadding(digits, padding[..k]);
    }
  }

  /** A size line as the decoder reads it: white space of any kind, perhaps a plus sign, the digits, white
      space, perhaps an extension. */
  datatype LooseLine = LooseLine(before: Bytes, plus: bool, digits: Bytes, after: Bytes, extension: Option<Bytes>)

  function LooseText(l: LooseLine): Bytes {
    l.before + LooseToken(l) + l.after + if l.extension.Some? then [SEMICOLON] + l.extension.value else []
  }

  function LooseToken(l: LooseLine): Bytes { (if l.plus then [PLUS] else []) + l.digits }

  ghost predicate Denotes(l: LooseLine, n: nat) { IsBlank(l.before) && Spells(l.digits, n) && IsBlank(l.after) }

  /** Exactly the lines that are read as a size, and which errors the others give. */
  lemma SizeOfIff(line: Bytes, n: nat)
    ensures SizeOf(line) == Ok(n)
       <==> IsUtf8(line) && n <= USIZE_MAX && exists l :: line == LooseText(l) && Denotes(l, n)
    ensures SizeOf(line).Err? ==>
              SizeOf(line) == Err(Parse(if IsUtf8(line) then InvalidChunkSize else InvalidChunkSizeLine))
  {
    hide IsUtf8, Denotes, LooseText, ParseUnsigned, SizeToken;
    if SizeOf(line) == Ok(n) {
      var l := SizeIsLoose(line, n);
    }
    forall l | line == LooseText(l) && Denotes(l, n)
      ensures ParseUnsigned(SizeToken(line), 16, USIZE_MAX) == if n <= USIZE_MAX then Some(n) else None
    {
      LooseIsRead(l, n);
    }
  }

  lemma SizeIsLoose(line: Bytes, n: nat) returns (l: LooseLine)
    requires SizeOf(line) == Ok(n)
    ensures line == LooseText(l) && Denotes(l, n)
  {
    hide IsUtf8, Trim, IsBlank, ParseUnsigned, Spells, Find, LooseText;
    var front, extension := CutAtSemicolon(line);
    var before, after := TrimMeaning(front);
    var plus, digits := TokenIsLoose(Trim(front), n);
    l := LooseLine(before, plus, digits, after, extension);
    LooseTextIs(l, front);
  }

  lemma CutAtSemicolon(line: Bytes) returns (front: Bytes, extension: Option<Bytes>)
    ensures line == front + if extension.Some? then [SEMICOLON] + extension.value else []
    ensures SizeToken(line) == Trim(front)
  {
    hide Trim, Find;
    match Find(line, [SEMICOLON])
    case None => front, extension := line, None;
    case Some(i) =>
      ByteAt(line, SEMICOLON, i);
      front, extension := line[..i], Some(line[i + 1..]);
  }

  lemma LooseTextIs(l: LooseLine, front: Bytes)
    requires front == l.before + LooseToken(l) + l.after
    ensures LooseText(l) == front + if l.extension.Some? then [SEMICOLON] + l.extension.value else []
  {
  }

  lemma TokenIsLoose(token: Bytes, n: nat) returns (plus: bool, digits: Bytes)
    requires ParseUnsigned(token, 16, USIZE_MAX) == Some(n)
    ensures token == (if plus then [PLUS] else []) + digits && Spells(digits, n)
  {
    hide ParseUnsigned, Spells, DigitsValue, IsNumeral;
    ParseIff(token, 16, USIZE_MAX);
    plus, digits := token != [] && token[0] == PLUS, Unsigned(token);
    NumeralIsHex(digits);
    var m, _ := HexSpells(digits);
    LooseValue(LooseLine([], plus, digits, [], None), m);
    assert token == LooseToken(LooseLine([], plus, digits, [], None));
  }

  lemma NumeralIsHex(s: Bytes)
    requires IsNumeral(s, 16)
    ensures s != [] && forall b | b in s :: HexByte(b)
  {
  }

  /** The value of a token, with or without a plus sign. */
  lemma LooseValue(l: LooseLine, n: nat)
    requires Spells(l.digits, n)
    ensures ParseUnsigned(LooseToken(l), 16, USIZE_MAX) == if n <= USIZE_MAX then Some(n) else None
    ensures l.digits != [] && forall b | b in l.digits :: HexByte(b)
  {
    hide Spells, DigitsValue;
    SpelledIsParsed(l.digits, n);
    assert l.digits[0] in l.digits;
    if l.plus {
      assert LooseToken(l)[1..] == l.digits;
    } else {
      assert LooseToken(l) == l.digits;
    }
  }

  lemma LooseIsRead(l: LooseLine, n: nat)
    requires Denotes(l, n)
    ensures ParseUnsigned(SizeToken(LooseText(l)), 16, USIZE_MAX) == if n <= USIZE_MAX then Some(n) else None
  {
    hide Spells, ParseUnsigned, Trim, IsBlank;
    LooseValue(l, n);
    var token := LooseToken(l);
    TokenHasNoBlank(l);
    TrimIs(l.before, token, l.after);
    BlankHasNoSemicolon(l.before);
    BlankHasNoSemicolon(l.after);
    var front, line := l.before + token + l.after, LooseText(l);
    forall j: nat | j < |front|
      ensures !Occurs(line, [SEMICOLON], j)
    {
      ByteAt(line, SEMICOLON, j);
      assert front[j] in l.before || front[j] in token || front[j] in l.after;
    }
    if l.extension.Some? {
      ByteAt(line, SEMICOLON, |front|);
      FindIs(line, [SEMICOLON], |front|);
      assert line[..|front|] == front;
    } else {
      assert line == front;
    }
  }

  lemma TokenHasNoBlank(l: LooseLine)
    requires l.digits != [] && forall b | b in l.digits :: HexByte(b)
    ensures var token := LooseToken(l);
            token != [] && SEMICOLON !in token && BlankLen(token) == 0 && BlankEndLen(token) == 0
  {
    var token := LooseToken(l);
    assert l.digits[0] in l.digits && l.digits[|l.digits| - 1] in l.digits;
    assert token[|token| - 1] == l.digits[|l.digits| - 1];
  }

  lemma {:induction false} BlankHasNoSemicolon(s: Bytes)
    requires IsBlank(s)
    ensures SEMICOLON !in s
    decreases |s|
  {
    if s != [] {
      var n := BlankLen(s);
      BlankHasNoSemicolon(s[n..]);
      assert s == s[..n] + s[n..];
    }
  }

  /** A chunk as a sender writes it. */
  datatype SentChunk = SentChunk(size: SizeLine, data: Bytes)

  ghost predicate WellSent(c: SentChunk) { 0 < |c.data| <= USIZE_MAX && Announces(c.size, |c.data|) }

  function ChunksOf(sent: seq<SentChunk>): (chunks: seq<Chunk>)
    ensures |chunks| == |sent|
    ensures forall k | 0 <= k < |sent| :: chunks[k] == Chunk(SizeText(sent[k].size), sent[k].data)
  {
    if sent == [] then [] else [Chunk(SizeText(sent[0].size), sent[0].data)] + ChunksOf(sent[1..])
  }

  ghost predicate AllUtf8(sent: seq<SentChunk>, zero: SizeLine) {
    (forall c | c in sent :: Utf8Extension(c.size)) && Utf8Extension(zero)
  }

  /** A body sent as the standard has it, chunks whose size lines announce their data, a size line of
      zero and one further line, all extensions being UTF-8, is decoded to the data when that is within
      the limit, and refused when it is not; what follows it is left alone. */
  lemma SentBodyIsDecoded(sent: seq<SentChunk>, zero: SizeLine, finalLine: Bytes, extra: Bytes, end: End, max: nat)
    requires max < USIZE_MAX && (forall c | c in sent :: WellSent(c))
    requires Announces(zero, 0) && GoodLine(finalLine) && AllUtf8(sent, zero)
    ensures var f := Framing(ChunksOf(sent), SizeText(zero), finalLine);
            && WellFormed(f)
            && (|Payload(f.chunks)| <= max ==>
                  Decode(Encode(f) + extra, end, [], max) == (Ok(Payload(f.chunks)), extra))
            && (|Payload(f.chunks)| > max ==> Decode(Encode(f) + extra, end, [], max).0 == Err(BodyTooLarge))
  {
    hide Announces, SizeOf, GoodLine, Decode, Encode, Payload;
    var f := Framing(ChunksOf(sent), SizeText(zero), finalLine);
    SizeLineIsAccepted(zero, 0);
    forall k | 0 <= k < |sent|
      ensures GoodChunk(f.chunks[k])
    {
      assert sent[k] in sent;
      SizeLineIsAccepted(sent[k].size, |sent[k].data|);
    }
    if |Payload(f.chunks)| <= max {
      DecodeComplete(f, extra, end, [], max);
      assert [] + Payload(f.chunks) == Payload(f.chunks);
    } else {
      DecodeTooLarge(f, extra, end, [], max);
    }
  }

  lemma {:induction false} NonUtf8IsRefused(sent: seq<SentChunk>, zero: SizeLine, finalLine: Bytes, extra: Bytes,
                                            end: End, body: Bytes, max: nat)
    requires (forall c | c in sent :: WellSent(c)) && Announces(zero, 0) && GoodLine(finalLine)
    requires !AllUtf8(sent, zero)
    ensures var s := Encode(Framing(ChunksOf(sent), SizeText(zero), finalLine)) + extra;
            Decode(s, end, body, max).0 in {Err(Parse(InvalidChunkSizeLine)), Err(BodyTooLarge)}
  {
    hide Announces, SizeOf, LineOf, GoodLine, Utf8Extension, SizeText, Payload;
    var f := Framing(ChunksOf(sent), SizeText(zero), finalLine);
    if sent == [] {
      SizeLineIsAccepted(zero, 0);
      var tail := finalLine + CRLF + extra;
      assert Encode(f) + extra == f.zeroLine + CRLF + tail;
      BadLineIsRefused(f.zeroLine, tail, end, body, max);
    } else {
      var c, g := f.chunks[0], f.(chunks := f.chunks[1..]);
      hide Decode, Encode;
      assert sent[0] in sent && forall x | x in sent[1..] :: x in sent;
      SizeLineIsAccepted(sent[0].size, |sent[0].data|);
      EncodeCons(f, extra);
      if Utf8Extension(sent[0].size) {
        ChunkIsRead(c, Encode(g) + extra, end, body, max);
        NonUtf8IsRefused(sent[1..], zero, finalLine, extra, end, body + c.data, max);
      } else {
        RecordJoins(c.sizeLine, c.data, Encode(g) + extra);
        BadLineIsRefused(c.sizeLine, c.data + CRLF + (Encode(g) + extra), end, body, max);
      }
    }
  }

  lemma BadLineIsRefused(line: Bytes, rest: Bytes, end: End, body: Bytes, max: nat)
    requires GoodLine(line) && SizeOf(line).Err?
    ensures Decode(line + CRLF + rest, end, body, max) == (Err(SizeOf(line).error), rest)
  {
    hide LineOf, SizeOf;
    GoodLineIsRead(line, rest, end);
  }

  /** Of the bodies the standard allows, exactly those with UTF-8 extensions and within the limit are
      decoded. */
  lemma SentBodyIff(sent: seq<SentChunk>, zero: SizeLine, finalLine: Bytes, extra: Bytes, end: End, max: nat)
    requires max < USIZE_MAX && (forall c | c in sent :: WellSent(c))
    requires Announces(zero, 0) && GoodLine(finalLine)
    ensures var f := Framing(ChunksOf(sent), SizeText(zero), finalLine);
            var r := Decode(Encode(f) + extra, end, [], max);
            && (r.0.Ok? <==> AllUtf8(sent, zero) && |Payload(f.chunks)| <= max)
            && (r.0.Ok? ==> r == (Ok(Payload(f.chunks)), extra))
  {
    hide Announces, WellSent, GoodLine, Decode, Encode, Payload, AllUtf8;
    if AllUtf8(sent, zero) {
      SentBodyIsDecoded(sent, zero, finalLine, extra, end, max);
    } else {
      NonUtf8IsRefused(sent, zero, finalLine, extra, end, [], max);
    }
  }

  /** An encoding beyond the limit is refused. */
  lemma {:induction false} DecodeTooLarge(f: Framing, extra: Bytes, end: End, body: Bytes, max: nat)
    requires WellFormed(f) && max < USIZE_MAX && |body| <= max < |body| + |Payload(f.chunks)|
    ensures Decode(Encode(f) + extra, end, body, max).0 == Err(BodyTooLarge)
    decreases |f.chunks|
  {
    hide SizeOf, LineOf, Find, GoodLine;
    var c, g := f.chunks[0], f.(chunks := f.chunks[1..]);
    EncodeCons(f, extra);
    ChunkIsRead(c, Encode(g) + extra, end, body, max);
    if |body| + |c.data| <= max {
      DecodeTooLarge(g, extra, end, body + c.data, max);
    }
  }

  predicate HexByte(b: Byte) { 48 <= b <= 57 || 65 <= b <= 70 || 97 <= b <= 102 }

  lemma {:induction false} ZerosAreHex(zeros: nat)
    ensures forall b | b in Zeros(zeros) :: HexByte(b)
  {
    if zeros > 0 {
      ZerosAreHex(zeros - 1);
    }
  }

  lemma {:induction false} PrintIsHex(n: nat)
    ensures forall b | b in Print(n, 16, false) :: HexByte(b)
    decreases n
  {
    if n >= 16 {
      PrintIsHex(n / 16);
    }
  }

  lemma HexIsPlain(s: Bytes)
    requires s != [] && forall b | b in s :: HexByte(b)
    ensures IsUtf8(s) && Trim(s) == s
  {
    hide IsUtf8;
    assert s[0] in s && s[|s| - 1] in s;
    forall k | 0 <= k < |s|
      ensures s[k] < 0x80
    {
      assert s[k] in s;
    }
    Utf8Ascii(s);
  }
}
