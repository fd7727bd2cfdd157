/** Integer parsing (`str::parse`, `from_str_radix`) and printing. */
module Numbers {
  import opened Bytes
  import opened Text

  const U16_MAX: nat := 0xFFFF
  const U32_MAX: nat := 0xFFFF_FFFF
  const USIZE_MAX: nat := 0xFFFF_FFFF_FFFF_FFFF

  const PLUS: Byte := 43
  const ZERO: Byte := 48

  /** `char::to_digit` for radix 10 and 16. */
  function Digit(b: Byte, radix: nat): (d: Option<nat>)
    requires 0 < radix <= 16
    ensures d.Some? ==> d.value < radix
  {
    var v := if 48 <= b <= 57 then b - 48 else if 97 <= b <= 102 then b - 87 else if 65 <= b <= 70 then b - 55 else 16;
    if v < radix then Some(v) else None
  }

  /** The number a string of digits denotes; `None` when it is empty or a byte is no digit. */
  function DigitsValue(s: Bytes, radix: nat): Option<nat>
    requires 0 < radix <= 16
    decreases |s|
  {
    if s == [] then None
    else
      match Digit(s[|s| - 1], radix)
      case None => None
      case Some(d) =>
        if |s| == 1 then Some(d)
        else match DigitsValue(s[..|s| - 1], radix)
          case None => None
          case Some(v) => Some(v * radix + d)
  }

  /** The digits of a radix: `0` to `9`, then letters in either case. */
  predicate IsDigit(b: Byte, radix: nat) {
    || (48 <= b <= 57 && b < 48 + radix)
    || (97 <= b && b < 87 + radix)
    || (65 <= b && b < 55 + radix)
  }

  predicate IsNumeral(s: Bytes, radix: nat) { s != [] && forall b | b in s :: IsDigit(b, radix) }

  /** Exactly the non-empty strings of digits have a value. */
  lemma {:induction false} DigitsValueIff(s: Bytes, radix: nat)
    requires 0 < radix <= 16
    ensures DigitsValue(s, radix).Some? <==> IsNumeral(s, radix)
    decreases |s|
  {
    if s != [] {
      var k := |s| - 1;
      assert s[k] in s && s == s[..k] + [s[k]];
      DigitsValueIff(s[..k], radix);
    }
  }

  /** What `parse` takes for the digits: everything but one leading `+`. */
  function Unsigned(s: Bytes): Bytes { if s != [] && s[0] == PLUS then s[1..] else s }

  /** Parsing fails exactly for what is no numeral, apart from one leading `+`, or too large. */
  lemma ParseIff(s: Bytes, radix: nat, max: nat)
    requires 0 < radix <= 16
    ensures if !IsNumeral(Unsigned(s), radix) then ParseUnsigned(s, radix, max) == None
            else DigitsValue(Unsigned(s), radix).Some?
                 && var v := DigitsValue(Unsigned(s), radix).value;
                    ParseUnsigned(s, radix, max) == if v <= max then Some(v) else None
  {
    DigitsValueIff(Unsigned(s), radix);
  }

  /** Parsing into an unsigned type with the given maximum: one leading `+` is accepted, a value
      beyond the maximum is an error (the checked additions of the original only fail then). */
  function ParseUnsigned(s: Bytes, radix: nat, max: nat): (r: Option<nat>)
    requires 0 < radix <= 16
    ensures r.Some? ==> r.value <= max
  {
    var digits := if s != [] && s[0] == PLUS then s[1..] else s;
    match DigitsValue(digits, radix)
    case None => None
    case Some(v) => if v <= max then Some(v) else None
  }

  function DigitByte(d: nat, upper: bool): Byte
    requires d < 16
  {
    if d < 10 then 48 + d else if upper then 55 + d else 87 + d
  }

  /** A number printed in a radix without leading zeros. */
  function Print(n: nat, radix: nat, upper: bool): (s: Bytes)
    requires 2 <= radix <= 16
    ensures s != []
    decreases n
  {
    if n < radix then [DigitByte(n, upper)]
    else Print(n / radix, radix, upper) + [DigitByte(n % radix, upper)]
  }

  lemma {:induction false} PrintFront(n: nat, radix: nat, upper: bool)
    requires 2 <= radix <= 16
    ensures Print(n, radix, upper)[0] != PLUS
    decreases n
  {
    if n >= radix {
      PrintFront(n / radix, radix, upper);
    }
  }

  /** `format!("{}", n)`. */
  function Decimal(n: nat): Bytes { Print(n, 10, false) }

  lemma {:induction false} ValueOfPrint(n: nat, radix: nat, upper: bool)
    requires radix == 10 || radix == 16
    ensures DigitsValue(Print(n, radix, upper), radix) == Some(n)
    decreases n
  {
    if n >= radix {
      ValueOfPrint(n / radix, radix, upper);
      var p := Print(n / radix, radix, upper);
      LastDigit(p, n % radix, radix, upper);
      if radix == 10 {
        assert n == n / 10 * 10 + n % 10;
      } else {
        assert n == n / 16 * 16 + n % 16;
      }
    }
  }

  lemma LastDigit(p: Bytes, d: nat, radix: nat, upper: bool)
    requires 0 < radix <= 16 && d < radix && p != [] && DigitsValue(p, radix).Some?
    ensures DigitsValue(p + [DigitByte(d, upper)], radix) == Some(DigitsValue(p, radix).value * radix + d)
  {
    var s := p + [DigitByte(d, upper)];
    assert s[..|s| - 1] == p;
    assert Digit(s[|s| - 1], radix) == Some(d);
  }

  lemma {:induction false} ValueOfLeadingZero(s: Bytes, radix: nat)
    requires 0 < radix <= 16 && s != []
    ensures DigitsValue([ZERO] + s, radix) == DigitsValue(s, radix)
    decreases |s|
  {
    var t := [ZERO] + s;
    if |s| == 1 {
      assert t[..|t| - 1] == [ZERO];
    } else {
      assert t[..|t| - 1] == [ZERO] + s[..|s| - 1];
      ValueOfLeadingZero(s[..|s| - 1], radix);
    }
  }

  /** The value of digits does not depend on the case of letters. */
  lemma {:induction false} DigitsIgnoreCase(s: Bytes, t: Bytes, radix: nat)
    requires 0 < radix <= 16 && EqIgnoreCase(s, t)
    ensures DigitsValue(s, radix) == DigitsValue(t, radix)
    decreases |s|
  {
    if s != [] {
      var k := |s| - 1;
      assert Lower(s[k]) == Lower(t[k]);
      DigitsIgnoreCase(s[..k], t[..k], radix);
    }
  }

  function Zeros(k: nat): Bytes { if k == 0 then [] else [ZERO] + Zeros(k - 1) }

  lemma {:induction false} ZerosSnoc(k: nat)
    ensures Zeros(k + 1) == Zeros(k) + [ZERO]
  {
    if k > 0 {
      ZerosSnoc(k - 1);
    }
  }

  /** Every decimal numeral is its value printed, after some zeros. */
  lemma {:induction false} NumeralIsPrinted(s: Bytes) returns (zeros: nat)
    requires IsNumeral(s, 10)
    ensures DigitsValue(s, 10).Some? && s == Zeros(zeros) + Decimal(DigitsValue(s, 10).value)
    decreases |s|
  {
    assert s != [];
    hide Zeros, Print, IsNumeral;
    var front, last := s[..|s| - 1], s[|s| - 1];
    var d := DecimalDigit(s);
    if front == [] {
      zeros := 0;
      OneDigit(d);
    } else {
      var z := NumeralIsPrinted(front);
      var m := DigitsValue(front, 10).value;
      zeros := if m == 0 then z + 1 else z;
      OneMoreDigit(m, d, z);
      assert s == front + [last];
    }
  }

  lemma DecimalDigit(s: Bytes) returns (d: nat)
    requires IsNumeral(s, 10)
    ensures var last := s[|s| - 1]; d < 10 && last == 48 + d && Digit(last, 10) == Some(d)
    ensures |s| > 1 ==> IsNumeral(s[..|s| - 1], 10)
  {
    assert s[|s| - 1] in s && forall b | b in s[..|s| - 1] :: b in s;
    d := s[|s| - 1] - 48;
  }

  lemma OneDigit(d: nat)
    requires d < 10
    ensures Zeros(0) + Decimal(d) == [48 + d]
  {
  }

  lemma OneMoreDigit(m: nat, d: nat, zeros: nat)
    requires d < 10
    ensures Zeros(if m == 0 then zeros + 1 else zeros) + Decimal(10 * m + d) == Zeros(zeros) + Decimal(m) + [48 + d]
  {
    if m == 0 {
      ZerosSnoc(zeros);
      assert Zeros(zeros) + [ZERO] + [48 + d] == Zeros(zeros + 1) + Decimal(d);
    } else {
      assert (10 * m + d) / 10 == m && (10 * m + d) % 10 == d;
    }
  }

  /** A number in decimal, after at most one plus sign and any zeros. */
  ghost predicate IsNumber(s: Bytes, n: nat) { exists plus, zeros :: s == NumberText(n, plus, zeros) }

  function NumberText(n: nat, plus: bool, zeros: nat): Bytes {
    (if plus then [PLUS] else []) + (Zeros(zeros) + Decimal(n))
  }

  /** Parsing decimals reads exactly the numbers that fit. */
  lemma ParseNumberIff(s: Bytes, max: nat, n: nat)
    ensures ParseUnsigned(s, 10, max) == Some(n) <==> n <= max && IsNumber(s, n)
  {
    hide ParseUnsigned, Decimal, Zeros, DigitsValue;
    ParseIff(s, 10, max);
    if ParseUnsigned(s, 10, max) == Some(n) {
      var zeros := NumeralIsPrinted(Unsigned(s));
      var plus := s != [] && s[0] == PLUS;
      assert s == NumberText(n, plus, zeros);
    }
    forall plus, zeros | s == NumberText(n, plus, zeros)
      ensures ParseUnsigned(s, 10, max) == if n <= max then Some(n) else None
    {
      SignedIsParsed(s, max, n, plus, zeros);
    }
  }

  lemma SignedIsParsed(s: Bytes, max: nat, n: nat, plus: bool, zeros: nat)
    requires s == NumberText(n, plus, zeros)
    ensures ParseUnsigned(s, 10, max) == if n <= max then Some(n) else None
  {
    hide Print, DigitsValue;
    var digits := Zeros(zeros) + Print(n, 10, false);
    ParseUndoesPrint(n, 10, false, zeros, max);
    PrintFront(n, 10, false);
    assert digits[0] == (if zeros > 0 then ZERO else Print(n, 10, false)[0]);
    if plus {
      assert s[1..] == digits;
    } else {
      assert s == digits;
    }
  }

  /** Parsing undoes printing, for either letter case and any number of leading zeros. */
  lemma ParseUndoesPrint(n: nat, radix: nat, upper: bool, zeros: nat, max: nat)
    requires radix == 10 || radix == 16
    ensures ParseUnsigned(Zeros(zeros) + Print(n, radix, upper), radix, max) == if n <= max then Some(n) else None
  {
    ValueOfZeros(n, radix, upper, zeros);
    PrintFront(n, radix, upper);
    var s := Zeros(zeros) + Print(n, radix, upper);
    assert s[0] == (if zeros > 0 then ZERO else Print(n, radix, upper)[0]);
  }

  lemma {:induction false} ValueOfZeros(n: nat, radix: nat, upper: bool, zeros: nat)
    requires radix == 10 || radix == 16
    ensures DigitsValue(Zeros(zeros) + Print(n, radix, upper), radix) == Some(n)
  {
    hide Print, DigitsValue;
    var p := Print(n, radix, upper);
    if zeros == 0 {
      assert Zeros(0) + p == p;
      ValueOfPrint(n, radix, upper);
    } else {
      ValueOfZeros(n, radix, upper, zeros - 1);
      ValueOfLeadingZero(Zeros(zeros - 1) + p, radix);
      assert Zeros(zeros) + p == [ZERO] + (Zeros(zeros - 1) + p);
    }
  }
}
