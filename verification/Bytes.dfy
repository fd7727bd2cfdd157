/** Raw message bytes and the byte-level searches of the framing code. */
module Bytes {

  type Byte = b: int | 0 <= b < 256
  type Bytes = seq<Byte>

  const CR: Byte := 13
  const LF: Byte := 10
  const COLON: Byte := 58
  const SPACE: Byte := 32
  const CRLF: Bytes := [CR, LF]
  const HEADER_END: Bytes := [CR, LF, CR, LF]

  datatype Option<+T> = None | Some(value: T)
  {
    function GetOr(other: T): T { if Some? then value else other }
  }

  /** `needle` stands in `haystack` at position `i`. */
  predicate Occurs(haystack: Bytes, needle: Bytes, i: nat) {
    i + |needle| <= |haystack| && forall k | 0 <= k < |needle| :: haystack[i + k] == needle[k]
  }

  /** The first position at or after `from` where `needle` stands. */
  function Find(haystack: Bytes, needle: Bytes, from: nat := 0): (r: Option<nat>)
    ensures r.Some? ==> from <= r.value && Occurs(haystack, needle, r.value)
    ensures r.Some? ==> forall j: nat | from <= j < r.value :: !Occurs(haystack, needle, j)
    ensures r.None? ==> forall j: nat | from <= j :: !Occurs(haystack, needle, j)
    decreases |haystack| - from
  {
    if from + |needle| > |haystack| then None
    else if Occurs(haystack, needle, from) then Some(from)
    else Find(haystack, needle, from + 1)
  }

  lemma FindIs(haystack: Bytes, needle: Bytes, i: nat)
    requires Occurs(haystack, needle, i)
    requires forall j: nat | j < i :: !Occurs(haystack, needle, j)
    ensures Find(haystack, needle) == Some(i)
  {
  }

  lemma ByteAt(s: Bytes, b: Byte, i: nat)
    ensures Occurs(s, [b], i) <==> i < |s| && s[i] == b
  {
    if Occurs(s, [b], i) {
      assert s[i + 0] == [b][0];
    }
  }

  lemma CrlfAt(s: Bytes, i: nat)
    ensures Occurs(s, CRLF, i) <==> i + 1 < |s| && s[i] == CR && s[i + 1] == LF
  {
    assert CRLF[0] == CR && CRLF[1] == LF;
    if Occurs(s, CRLF, i) {
      assert s[i + 0] == CRLF[0] && s[i + 1] == CRLF[1];
    }
  }

  lemma HeaderEndAt(s: Bytes, i: nat)
    ensures Occurs(s, HEADER_END, i) <==> Occurs(s, CRLF, i) && Occurs(s, CRLF, i + 2)
  {
    CrlfAt(s, i);
    CrlfAt(s, i + 2);
    assert HEADER_END[0] == CR && HEADER_END[1] == LF && HEADER_END[2] == CR && HEADER_END[3] == LF;
    if Occurs(s, HEADER_END, i) {
      assert s[i + 0] == HEADER_END[0] && s[i + 1] == HEADER_END[1];
      assert s[i + 2] == HEADER_END[2] && s[i + 3] == HEADER_END[3];
    }
  }

  /** Occurrences inside a prefix are the occurrences of the whole that end inside it. */
  lemma OccursInPrefix(s: Bytes, needle: Bytes, n: nat, i: nat)
    requires n <= |s|
    ensures Occurs(s[..n], needle, i) <==> Occurs(s, needle, i) && i + |needle| <= n
  {
  }

  /** Searching a buffer that holds the first `n` bytes finds exactly what the whole stream
      has as its first match, once the buffer reaches past that match. */
  lemma FindInPrefix(s: Bytes, needle: Bytes, n: nat)
    requires n <= |s|
    ensures Find(s[..n], needle) ==
            match Find(s, needle)
            case Some(i) => if i + |needle| <= n then Some(i) else None
            case None => None
  {
    forall i: nat
      ensures Occurs(s[..n], needle, i) <==> Occurs(s, needle, i) && i + |needle| <= n
    {
      OccursInPrefix(s, needle, n, i);
    }
    match Find(s, needle)
    case None =>
    case Some(i) => if i + |needle| <= n { FindIs(s[..n], needle, i); }
  }

  /** Appending bytes does not move the first match. */
  lemma FindInExtension(s: Bytes, needle: Bytes, extra: Bytes)
    requires Find(s, needle).Some?
    ensures Find(s + extra, needle) == Find(s, needle)
  {
    FindInPrefix(s + extra, needle, |s|);
    assert (s + extra)[..|s|] == s;
  }

  /** A line without CRLF stays a line in front of CRLF: the first CRLF is the one after it. */
  lemma FirstCrlfAfterLine(line: Bytes, rest: Bytes)
    requires Find(line, CRLF).None?
    ensures Find(line + CRLF + rest, CRLF) == Some(|line|)
  {
    var s := line + CRLF + rest;
    CrlfAt(s, |line|);
    forall j: nat | j < |line|
      ensures !Occurs(s, CRLF, j)
    {
      CrlfAt(s, j);
      CrlfAt(line, j);
    }
    FindIs(s, CRLF, |line|);
  }

  /** The pieces between separators, as `split` yields them; there is always at least one. */
  function Split(s: Bytes): (pieces: seq<Bytes>)
    ensures |pieces| > 0
    ensures forall p | p in pieces :: Find(p, CRLF).None?
    decreases |s|
  {
    match Find(s, CRLF)
    case None => [s]
    case Some(i) =>
      FindInPrefix(s, CRLF, i);
      [s[..i]] + Split(s[i + 2..])
  }

  /** Joining the pieces gives the text back: with pieces free of CRLF, that is what splitting means. */
  lemma {:induction false} JoinUndoesSplit(s: Bytes)
    ensures Join(Split(s)) == s
    decreases |s|
  {
    var found := Find(s, CRLF);
    if found.Some? {
      var i := found.value;
      CrlfAt(s, i);
      JoinUndoesSplit(s[i + 2..]);
      assert ([s[..i]] + Split(s[i + 2..]))[1..] == Split(s[i + 2..]);
      assert s == s[..i] + CRLF + s[i + 2..];
    }
  }

  /** Every line followed by CRLF, then the empty line that closes a head. */
  function PrintLines(lines: seq<Bytes>): Bytes {
    if lines == [] then CRLF else lines[0] + CRLF + PrintLines(lines[1..])
  }

  /** `lines.join("\r\n")`. */
  function Join(lines: seq<Bytes>): Bytes
    requires lines != []
  {
    if |lines| == 1 then lines[0] else lines[0] + CRLF + Join(lines[1..])
  }

  lemma {:induction false} JoinIsPrintLines(lines: seq<Bytes>)
    requires lines != []
    ensures Join(lines) + HEADER_END == PrintLines(lines)
  {
    assert HEADER_END == CRLF + CRLF;
    if |lines| == 1 {
      assert PrintLines(lines) == lines[0] + CRLF + PrintLines([]);
    } else {
      JoinIsPrintLines(lines[1..]);
    }
  }

  lemma SplitFirst(line: Bytes, rest: Bytes)
    requires Find(line, CRLF).None?
    ensures Split(line + CRLF + rest) == [line] + Split(rest)
  {
    var s := line + CRLF + rest;
    FirstCrlfAfterLine(line, rest);
    assert s[..|line|] == line && s[|line| + 2..] == rest;
  }

  lemma {:induction false} SplitPrintLines(lines: seq<Bytes>)
    requires forall l | l in lines :: Find(l, CRLF).None?
    ensures Split(PrintLines(lines)) == lines + [[], []]
  {
    hide Find, Split;
    if lines == [] {
      SplitFirst([], []);
      SplitNothing();
      assert [] + CRLF + [] == CRLF;
    } else {
      SplitFirst(lines[0], PrintLines(lines[1..]));
      SplitPrintLines(lines[1..]);
      assert [lines[0]] + lines[1..] == lines;
    }
  }

  lemma SplitNothing()
    ensures Find([], CRLF).None? && Split([]) == [[]]
  {
  }

  /** Skipping a prefix in which no match starts leaves the first match where it was. */
  lemma FindAfterSkip(before: Bytes, s: Bytes, needle: Bytes)
    requires forall j: nat | j < |before| :: !Occurs(before + s, needle, j)
    requires Find(s, needle).Some?
    ensures Find(before + s, needle) == Some(|before| + Find(s, needle).value)
  {
    forall j: nat
      ensures Occurs(before + s, needle, |before| + j) <==> Occurs(s, needle, j)
    {
      if |before| + j + |needle| <= |before + s| {
        assert forall k | 0 <= k < |needle| :: (before + s)[|before| + j + k] == s[j + k] == s[j..][k];
      }
    }
    var i := Find(s, needle).value;
    forall j: nat | j < |before| + i
      ensures !Occurs(before + s, needle, j)
    {
      if j >= |before| {
        assert Occurs(before + s, needle, |before| + (j - |before|)) <==> Occurs(s, needle, j - |before|);
      }
    }
    FindIs(before + s, needle, |before| + i);
  }

  /** No head terminator starts inside a line that is not followed by an empty one. */
  lemma NoHeaderEndInLine(line: Bytes, tail: Bytes, j: nat)
    requires Find(line, CRLF).None? && !Occurs(tail, CRLF, 0)
    requires j < |line| + 2
    ensures !Occurs(line + CRLF + tail, HEADER_END, j)
  {
    var s := line + CRLF + tail;
    HeaderEndAt(s, j);
    CrlfAt(s, j);
    CrlfAt(s, j + 2);
    FirstCrlfAfterLine(line, tail);
    CrlfAt(tail, 0);
  }

  lemma HeadEndAfterLine(line: Bytes, extra: Bytes)
    requires Find(line, CRLF).None?
    ensures Find(line + CRLF + (CRLF + extra), HEADER_END) == Some(|line|)
  {
    var s := line + CRLF + (CRLF + extra);
    FirstCrlfAfterLine(line, CRLF + extra);
    forall j: nat | j < |line|
      ensures !Occurs(s, HEADER_END, j)
    {
      HeaderEndAt(s, j);
    }
    HeaderEndAt(s, |line|);
    CrlfAt(s, |line|);
    CrlfAt(s, |line| + 2);
    FindIs(s, HEADER_END, |line|);
  }

  lemma HeadEndBeforeLine(line: Bytes, tail: Bytes)
    requires Find(line, CRLF).None? && !Occurs(tail, CRLF, 0)
    requires Find(tail, HEADER_END).Some?
    ensures Find(line + CRLF + tail, HEADER_END) == Some(|line| + 2 + Find(tail, HEADER_END).value)
  {
    hide Find, Occurs;
    assert |line + CRLF| == |line| + 2;
    forall j: nat | j < |line + CRLF|
      ensures !Occurs(line + CRLF + tail, HEADER_END, j)
    {
      NoHeaderEndInLine(line, tail, j);
    }
    FindAfterSkip(line + CRLF, tail, HEADER_END);
  }

  lemma PrintLinesCons(lines: seq<Bytes>, extra: Bytes)
    requires lines != []
    ensures PrintLines(lines) + extra == lines[0] + CRLF + (PrintLines(lines[1..]) + extra)
  {
    var rest := PrintLines(lines[1..]);
    assert lines[0] + CRLF + rest + extra == lines[0] + CRLF + (rest + extra);
  }

  lemma NoCrlfAtFront(lines: seq<Bytes>, extra: Bytes)
    requires lines != [] && lines[0] != [] && Find(lines[0], CRLF).None?
    ensures !Occurs(PrintLines(lines) + extra, CRLF, 0)
  {
    PrintLinesCons(lines, extra);
    FirstCrlfAfterLine(lines[0], PrintLines(lines[1..]) + extra);
  }

  /** The first empty line of a printed head is the one that closes it, whatever follows. */
  lemma {:induction false} HeadEndOfPrintLines(lines: seq<Bytes>, extra: Bytes)
    requires lines != []
    requires forall l | l in lines :: l != [] && Find(l, CRLF).None?
    ensures |PrintLines(lines)| >= 4
    ensures Find(PrintLines(lines) + extra, HEADER_END) == Some(|PrintLines(lines)| - 4)
  {
    hide Find, Occurs;
    assert lines[0] in lines;
    var tail := PrintLines(lines[1..]) + extra;
    PrintLinesCons(lines, extra);
    if |lines| == 1 {
      HeadEndAfterLine(lines[0], extra);
      assert tail == CRLF + extra;
    } else {
      assert forall l | l in lines[1..] :: l in lines;
      assert lines[1..][0] in lines;
      HeadEndOfPrintLines(lines[1..], extra);
      NoCrlfAtFront(lines[1..], extra);
      HeadEndBeforeLine(lines[0], tail);
    }
  }
}
