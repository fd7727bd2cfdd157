/** String slices as the code sees them: bytes that passed the UTF-8 check. */
module Text {
  import opened Bytes

  // ---------- UTF-8 ----------

  predicate Continuation(b: Byte) { 0x80 <= b <= 0xBF }

  /** Length of the well-formed UTF-8 character at the front of `s`; 0 when there is none. */
  function CharLen(s: Bytes): (n: nat)
    ensures n <= 4 && n <= |s|
    ensures forall k | 1 <= k < n :: Continuation(s[k])
    ensures n > 0 ==> !Continuation(s[0])
    ensures s != [] && s[0] < 0x80 ==> n == 1
  {
    if s == [] then 0
    else if s[0] < 0x80 then 1
    else if 0xC2 <= s[0] <= 0xDF && |s| >= 2 && Continuation(s[1]) then 2
    else if |s| >= 3 && Continuation(s[2]) &&
            ((s[0] == 0xE0 && 0xA0 <= s[1] <= 0xBF) ||
             (0xE1 <= s[0] <= 0xEC && Continuation(s[1])) ||
             (s[0] == 0xED && 0x80 <= s[1] <= 0x9F) ||
             (0xEE <= s[0] <= 0xEF && Continuation(s[1]))) then 3
    else if |s| >= 4 && Continuation(s[2]) && Continuation(s[3]) &&
            ((s[0] == 0xF0 && 0x90 <= s[1] <= 0xBF) ||
             (0xF1 <= s[0] <= 0xF3 && Continuation(s[1])) ||
             (s[0] == 0xF4 && 0x80 <= s[1] <= 0x8F)) then 4
    else 0
  }

  /** `from_utf8` succeeds. */
  predicate IsUtf8(s: Bytes)
    decreases |s|
  {
    s == [] || (CharLen(s) > 0 && IsUtf8(s[CharLen(s)..]))
  }

  lemma {:induction false} Utf8Concat(a: Bytes, b: Bytes)
    requires IsUtf8(a)
    ensures IsUtf8(a + b) <==> IsUtf8(b)
    decreases |a|
  {
    if a == [] {
      assert a + b == b;
    } else {
      var n := CharLen(a);
      assert CharLen(a + b) == n;
      assert (a + b)[n..] == a[n..] + b;
      Utf8Concat(a[n..], b);
    }
  }

  lemma CharLenOfPrefix(s: Bytes, i: nat)
    requires CharLen(s) <= i <= |s|
    ensures CharLen(s[..i]) == CharLen(s)
  {
  }

  /** Cutting in front of a byte that is not a continuation byte leaves two valid strings. */
  lemma {:induction false} Utf8Cut(s: Bytes, i: nat)
    requires IsUtf8(s) && i <= |s|
    requires i < |s| ==> !Continuation(s[i])
    ensures IsUtf8(s[..i]) && IsUtf8(s[i..])
    decreases |s|
  {
    hide CharLen;
    if i == |s| {
      assert s[..i] == s;
    } else if i > 0 {
      var n := CharLen(s);
      assert n <= i;
      CharLenOfPrefix(s, i);
      Utf8Cut(s[n..], i - n);
      assert s[n..][..i - n] == s[n..i];
      assert s[n..][i - n..] == s[i..];
      assert s[..i][n..] == s[n..i];
    }
  }

  lemma Utf8Ascii(s: Bytes)
    requires forall k | 0 <= k < |s| :: s[k] < 0x80
    ensures IsUtf8(s)
    decreases |s|
  {
    if s != [] {
      Utf8Ascii(s[1..]);
    }
  }

  // ---------- Unicode white space ----------

  predicate Blank1(a: Byte) { 9 <= a <= 13 || a == 32 }

  predicate Blank2(a: Byte, b: Byte) { a == 0xC2 && (b == 0x85 || b == 0xA0) }

  predicate Blank3(a: Byte, b: Byte, c: Byte) {
    || (a == 0xE1 && b == 0x9A && c == 0x80)
    || (a == 0xE2 && b == 0x80 && (0x80 <= c <= 0x8A || c == 0xA8 || c == 0xA9 || c == 0xAF))
    || (a == 0xE2 && b == 0x81 && c == 0x9F)
    || (a == 0xE3 && b == 0x80 && c == 0x80)
  }

  /** Length of the white-space character at the front of `s`; 0 when there is none. */
  function BlankLen(s: Bytes): (n: nat)
    ensures n <= |s|
  {
    if |s| >= 1 && Blank1(s[0]) then 1
    else if |s| >= 2 && Blank2(s[0], s[1]) then 2
    else if |s| >= 3 && Blank3(s[0], s[1], s[2]) then 3
    else 0
  }

  /** Length of the white-space character at the back of `s`; 0 when there is none. */
  function BlankEndLen(s: Bytes): (n: nat)
    ensures n <= |s|
  {
    var k := |s|;
    if k >= 1 && Blank1(s[k - 1]) then 1
    else if k >= 2 && Blank2(s[k - 2], s[k - 1]) then 2
    else if k >= 3 && Blank3(s[k - 3], s[k - 2], s[k - 1]) then 3
    else 0
  }

  /** Nothing but white space. */
  predicate IsBlank(s: Bytes)
    decreases |s|
  {
    s == [] || (BlankLen(s) > 0 && IsBlank(s[BlankLen(s)..]))
  }

  lemma BlankLenExtends(s: Bytes, rest: Bytes)
    requires BlankLen(s) > 0
    ensures BlankLen(s + rest) == BlankLen(s)
  {
  }

  lemma BlankEndIsBlank(s: Bytes)
    requires BlankEndLen(s) > 0
    ensures IsBlank(s[|s| - BlankEndLen(s)..])
  {
    var tail := s[|s| - BlankEndLen(s)..];
    assert BlankLen(tail) == |tail|;
    assert IsBlank(tail[|tail|..]);
  }

  /** White space is made of whole UTF-8 characters. */
  lemma BlankIsChar(s: Bytes)
    requires BlankLen(s) > 0
    ensures CharLen(s) == BlankLen(s)
  {
  }

  lemma {:induction false} IsBlankConcat(a: Bytes, b: Bytes)
    requires IsBlank(a) && IsBlank(b)
    ensures IsBlank(a + b)
    decreases |a|
  {
    if a == [] {
      assert a + b == b;
    } else {
      BlankLenExtends(a, b);
      assert (a + b)[BlankLen(a)..] == a[BlankLen(a)..] + b;
      IsBlankConcat(a[BlankLen(a)..], b);
    }
  }

  function TrimStart(s: Bytes): Bytes
    decreases |s|
  {
    if BlankLen(s) == 0 then s else TrimStart(s[BlankLen(s)..])
  }

  function TrimEnd(s: Bytes): Bytes
    decreases |s|
  {
    if BlankEndLen(s) == 0 then s else TrimEnd(s[..|s| - BlankEndLen(s)])
  }

  /** `str::trim`. */
  function Trim(s: Bytes): Bytes {
    TrimEnd(TrimStart(s))
  }

  lemma {:induction false} TrimStartMeaning(s: Bytes) returns (before: Bytes)
    ensures IsBlank(before) && s == before + TrimStart(s) && BlankLen(TrimStart(s)) == 0
    ensures IsUtf8(s) ==> IsUtf8(TrimStart(s))
    decreases |s|
  {
    hide BlankLen, IsUtf8, CharLen;
    var n := BlankLen(s);
    if n == 0 {
      before := [];
    } else {
      var deeper := TrimStartMeaning(s[n..]);
      before := s[..n] + deeper;
      BlankFront(s, deeper);
      assert s == s[..n] + s[n..];
    }
  }

  lemma BlankFront(s: Bytes, more: Bytes)
    requires BlankLen(s) > 0 && IsBlank(more)
    ensures IsBlank(s[..BlankLen(s)] + more)
    ensures IsUtf8(s) ==> IsUtf8(s[BlankLen(s)..])
  {
    var n := BlankLen(s);
    var t := s[..n] + more;
    assert BlankLen(t) == n && t[n..] == more;
    BlankIsChar(s);
  }

  lemma BlankEndCut(s: Bytes)
    requires BlankEndLen(s) > 0
    ensures IsUtf8(s) ==> IsUtf8(s[..|s| - BlankEndLen(s)])
  {
    hide IsUtf8, CharLen;
    if IsUtf8(s) {
      Utf8Cut(s, |s| - BlankEndLen(s));
    }
  }

  lemma {:induction false} TrimEndMeaning(s: Bytes) returns (after: Bytes)
    ensures IsBlank(after) && s == TrimEnd(s) + after && BlankEndLen(TrimEnd(s)) == 0
    ensures IsUtf8(s) ==> IsUtf8(TrimEnd(s))
    decreases |s|
  {
    hide BlankLen, BlankEndLen, IsUtf8, CharLen;
    if BlankEndLen(s) == 0 {
      after := [];
    } else {
      BlankEndCut(s);
      BlankEndIsBlank(s);
      var cut, tail := s[..|s| - BlankEndLen(s)], s[|s| - BlankEndLen(s)..];
      assert s == cut + tail && TrimEnd(s) == TrimEnd(cut);
      var deeper := TrimEndMeaning(cut);
      IsBlankConcat(deeper, tail);
      after := deeper + tail;
      assert s == TrimEnd(cut) + after;
    }
  }

  lemma BlankLenOfTrimEnd(s: Bytes)
    requires BlankLen(s) == 0
    ensures BlankLen(TrimEnd(s)) == 0
  {
    hide BlankLen, BlankEndLen, IsUtf8, CharLen;
    var after := TrimEndMeaning(s);
    var t := TrimEnd(s);
    if BlankLen(t) > 0 {
      BlankLenExtends(t, after);
    }
  }

  /** Trimming takes white space off both ends and nothing else; none is left there. */
  lemma TrimMeaning(s: Bytes) returns (before: Bytes, after: Bytes)
    ensures IsBlank(before) && IsBlank(after) && s == before + Trim(s) + after
    ensures BlankLen(Trim(s)) == 0 && BlankEndLen(Trim(s)) == 0
    ensures IsUtf8(s) ==> IsUtf8(Trim(s))
  {
    hide IsBlank, BlankLen, BlankEndLen, IsUtf8, TrimStart, TrimEnd;
    before := TrimStartMeaning(s);
    after := TrimEndMeaning(TrimStart(s));
    BlankLenOfTrimEnd(TrimStart(s));
  }

  lemma BlankEndExtends(a: Bytes, b: Bytes)
    requires BlankEndLen(b) > 0
    ensures BlankEndLen(a + b) == BlankEndLen(b)
  {
  }

  /** White space ends with a white-space character, and stays white space without it. */
  lemma {:induction false} BlankEnds(s: Bytes)
    requires IsBlank(s) && s != []
    ensures BlankEndLen(s) > 0 && IsBlank(s[..|s| - BlankEndLen(s)])
    decreases |s|
  {
    hide BlankEndLen;
    var n := BlankLen(s);
    var front, rest := s[..n], s[n..];
    assert s == front + rest;
    if rest == [] {
      OneBlankEnds(s);
      assert s[..0] == [];
    } else {
      BlankEnds(rest);
      BlankEndExtends(front, rest);
      var k := |rest| - BlankEndLen(rest);
      BlankFront(s, rest[..k]);
      assert s[..|s| - BlankEndLen(s)] == front + rest[..k];
    }
  }

  lemma OneBlankEnds(s: Bytes)
    requires s != [] && BlankLen(s) == |s|
    ensures BlankEndLen(s) == |s|
  {
  }

  lemma {:induction false} TrimStartIs(before: Bytes, rest: Bytes)
    requires IsBlank(before) && BlankLen(rest) == 0
    ensures TrimStart(before + rest) == rest
    decreases |before|
  {
    hide BlankLen;
    if before == [] {
      assert before + rest == rest;
    } else {
      BlankLenExtends(before, rest);
      assert (before + rest)[BlankLen(before)..] == before[BlankLen(before)..] + rest;
      TrimStartIs(before[BlankLen(before)..], rest);
    }
  }

  lemma {:induction false} TrimEndIs(front: Bytes, after: Bytes)
    requires IsBlank(after) && BlankEndLen(front) == 0
    ensures TrimEnd(front + after) == front
    decreases |after|
  {
    hide BlankEndLen, IsBlank;
    if after == [] {
      assert front + after == front;
    } else {
      BlankEnds(after);
      BlankEndExtends(front, after);
      var k := |after| - BlankEndLen(after);
      assert (front + after)[..|front| + k] == front + after[..k];
      TrimEndIs(front, after[..k]);
    }
  }

  /** Trimming leaves exactly what stands between white space and has none at its ends. */
  lemma TrimIs(before: Bytes, core: Bytes, after: Bytes)
    requires IsBlank(before) && IsBlank(after) && core != [] && BlankLen(core) == 0 && BlankEndLen(core) == 0
    ensures Trim(before + core + after) == core
  {
    hide IsBlank, TrimStart, TrimEnd;
    NoBlankAcross(core, after);
    assert before + core + after == before + (core + after);
    TrimStartIs(before, core + after);
    TrimEndIs(core, after);
  }

  lemma NoBlankAcross(core: Bytes, after: Bytes)
    requires core != [] && BlankLen(core) == 0 && IsBlank(after)
    ensures BlankLen(core + after) == 0
  {
    assert after != [] ==> BlankLen(after) > 0;
  }

  /** Printing a trimmed value after a space and trimming again gives it back. */
  lemma TrimUndoesSpace(s: Bytes)
    ensures Trim(Trim(s)) == Trim(s)
    ensures Trim([SPACE] + Trim(s)) == Trim(s)
  {
    var _, _ := TrimMeaning(s);
    var t := Trim(s);
    assert BlankLen([SPACE] + t) == 1;
    assert ([SPACE] + t)[1..] == t;
  }

  // ---------- Lines, words, ASCII case ----------

  /** `lines().next()`: up to the first LF, without a CR in front of that LF. */
  function FirstLine(s: Bytes): Option<Bytes> {
    if s == [] then None
    else match Find(s, [LF])
      case None => Some(s)
      case Some(i) => Some(if i > 0 && s[i - 1] == CR then s[..i - 1] else s[..i])
  }

  /** Length of the run of non-white-space characters at the front of `s`. */
  function WordLen(s: Bytes): (n: nat)
    ensures n <= |s|
    decreases |s|
  {
    if s == [] || BlankLen(s) > 0 then 0 else 1 + WordLen(s[1..])
  }

  /** `split_whitespace().next()`, with what is left to split. */
  function NextWord(s: Bytes): Option<(Bytes, Bytes)> {
    var t := TrimStart(s);
    if t == [] then None else Some((t[..WordLen(t)], t[WordLen(t)..]))
  }

  /** A word: not empty, no white space anywhere. */
  predicate IsWord(w: Bytes) {
    w != [] && WordLen(w) == |w|
  }

  lemma BlankLenBeforeSpace(w: Bytes, rest: Bytes)
    requires w != [] && BlankLen(w) == 0
    ensures BlankLen(w + [SPACE] + rest) == 0
  {
  }

  lemma {:induction false} WordLenBeforeSpace(w: Bytes, rest: Bytes)
    requires WordLen(w) == |w|
    ensures WordLen(w + [SPACE] + rest) == |w|
    decreases |w|
  {
    hide BlankLen;
    if w == [] {
      assert w + [SPACE] + rest == [SPACE] + rest;
      SpaceIsBlank(rest);
    } else {
      BlankLenBeforeSpace(w, rest);
      WordLenBeforeSpace(w[1..], rest);
      assert (w + [SPACE] + rest)[1..] == w[1..] + [SPACE] + rest;
    }
  }

  lemma SpaceIsBlank(rest: Bytes)
    ensures BlankLen([SPACE] + rest) == 1
  {
  }

  /** Splitting yields the word in front of a space; the space is skipped before the next word. */
  lemma NextWordBeforeSpace(w: Bytes, rest: Bytes)
    requires IsWord(w)
    ensures NextWord(w + [SPACE] + rest) == Some((w, [SPACE] + rest))
    ensures NextWord([SPACE] + rest) == NextWord(rest)
  {
    hide BlankLen;
    var s := w + [SPACE] + rest;
    BlankLenBeforeSpace(w, rest);
    WordLenBeforeSpace(w, rest);
    assert s[..|w|] == w && s[|w|..] == [SPACE] + rest;
    SpaceIsBlank(rest);
    assert ([SPACE] + rest)[1..] == rest;
  }

  lemma BlankLenBeforeBlank(w: Bytes, rest: Bytes)
    requires w != [] && BlankLen(w) == 0 && (rest == [] || BlankLen(rest) > 0)
    ensures BlankLen(w + rest) == 0
  {
    assert rest == [] ==> w + rest == w;
  }

  lemma {:induction false} WordLenBeforeBlank(w: Bytes, rest: Bytes)
    requires WordLen(w) == |w| && (rest == [] || BlankLen(rest) > 0)
    ensures WordLen(w + rest) == |w|
    decreases |w|
  {
    hide BlankLen;
    if w == [] {
      assert w + rest == rest;
    } else {
      BlankLenBeforeBlank(w, rest);
      WordLenBeforeBlank(w[1..], rest);
      assert (w + rest)[1..] == w[1..] + rest;
    }
  }

  /** The next word is the one behind any white space, up to the next white space or the end; there is
      none in white space alone. */
  lemma NextWordIs(before: Bytes, w: Bytes, rest: Bytes)
    requires IsBlank(before) && IsWord(w) && (rest == [] || BlankLen(rest) > 0)
    ensures NextWord(before + w + rest) == Some((w, rest)) && NextWord(before) == None
  {
    hide BlankLen, IsBlank;
    BlankLenBeforeBlank(w, rest);
    WordLenBeforeBlank(w, rest);
    assert before + w + rest == before + (w + rest);
    TrimStartIs(before, w + rest);
    assert (w + rest)[..|w|] == w && (w + rest)[|w|..] == rest;
    NothingIsNotBlank();
    TrimStartIs(before, []);
    assert before + [] == before;
  }

  lemma NothingIsNotBlank()
    ensures BlankLen([]) == 0
  {
  }

  lemma BlankStarts(s: Bytes)
    requires IsBlank(s)
    ensures s == [] || BlankLen(s) > 0
  {
  }

  /** Visible ASCII characters make a word. */
  lemma {:induction false} VisibleIsWord(w: Bytes)
    requires forall b | b in w :: 33 <= b < 128
    ensures WordLen(w) == |w|
    decreases |w|
  {
    if w != [] {
      assert w[0] in w;
      assert forall b | b in w[1..] :: b in w;
      VisibleIsWord(w[1..]);
    }
  }

  function Lower(b: Byte): Byte {
    if 65 <= b <= 90 then b + 32 else b
  }

  /** `eq_ignore_ascii_case`. */
  predicate EqIgnoreCase(a: Bytes, b: Bytes) {
    |a| == |b| && forall i | 0 <= i < |a| :: Lower(a[i]) == Lower(b[i])
  }

  /** The bytes of an ASCII literal. */
  function Ascii(literal: string): Bytes {
    if literal == "" then [] else [literal[0] as int % 128] + Ascii(literal[1..])
  }

  lemma {:induction false} AsciiAt(literal: string)
    ensures |Ascii(literal)| == |literal|
    ensures forall k | 0 <= k < |literal| :: Ascii(literal)[k] == literal[k] as int % 128
  {
    if literal != "" {
      AsciiAt(literal[1..]);
    }
  }
}
