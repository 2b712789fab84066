/**
 * 32-bit signed integers as the assembler handles them: the wrap-around of
 * unchecked `int` addition, the decimal text written by `Int32.ToString()`,
 * and the text accepted by `Convert.ToInt32(string)` (leading and trailing
 * white space, an optional sign, one or more decimal digits, and a value in
 * Int32 range; a value out of range is an overflow, not a format error).
 */
module Int32Text {

  const Int32Min: int := -0x8000_0000
  const Int32Max: int := 0x7FFF_FFFF
  const Modulus: int := 0x1_0000_0000

  predicate InInt32(x: int) {
    Int32Min <= x <= Int32Max
  }

  /** The value unchecked 32-bit arithmetic leaves in an `int` whose exact result is `x`. */
  function Wrap32(x: int): (r: int)
    ensures InInt32(r)
    ensures (x - r) % Modulus == 0
    ensures InInt32(x) ==> r == x
  {
    if InInt32(x) then x else (x - Int32Min) % Modulus + Int32Min
  }

  predicate IsDigit(c: char) {
    '0' <= c <= '9'
  }

  predicate AllDigits(s: string) {
    forall i :: 0 <= i < |s| ==> IsDigit(s[i])
  }

  function DigitValue(c: char): (d: nat)
    requires IsDigit(c)
    ensures d < 10
  {
    c as int - '0' as int
  }

  function DigitChar(d: nat): (c: char)
    requires d < 10
    ensures IsDigit(c) && DigitValue(c) == d
  {
    ('0' as int + d) as char
  }

  /** The number a string of decimal digits denotes, most significant digit first. */
  function DigitsValue(s: string): nat
    requires AllDigits(s)
  {
    if s == [] then 0 else 10 * DigitsValue(s[..|s| - 1]) + DigitValue(s[|s| - 1])
  }

  /** The shortest decimal digit string of a natural number. */
  function NatToDecimal(n: nat): (s: string)
    ensures |s| >= 1 && AllDigits(s) && DigitsValue(s) == n
    ensures s[0] == '0' ==> n == 0 && |s| == 1
  {
    if n < 10 then [DigitChar(n)]
    else
      var prefix := NatToDecimal(n / 10);
      var s := prefix + [DigitChar(n % 10)];
      assert s[..|s| - 1] == prefix;
      s
  }

  /** The text `Int32.ToString()` gives: a minus sign for negatives, no padding, no leading zeros. */
  function Format(n: int): (s: string)
    ensures |s| >= 1
    ensures s[0] == '-' <==> n < 0
    ensures n >= 0 ==> AllDigits(s) && DigitsValue(s) == n
    ensures n < 0 ==> AllDigits(s[1..]) && |s| >= 2 && DigitsValue(s[1..]) == -n
    ensures s[0] == '0' ==> s == "0"
    ensures n < 0 ==> s[1] != '0'
  {
    if n < 0 then
      var s := "-" + NatToDecimal(-n);
      assert s[1..] == NatToDecimal(-n);
      s
    else NatToDecimal(n)
  }

  /** White space the integer parser skips at either end of its input. */
  predicate IsWhite(c: char) {
    c == ' ' || '\t' <= c <= '\r'
  }

  /** Drops the leading white space; TrimStartDropsOnlyWhite shows it drops nothing else. */
  function TrimStart(s: string): (t: string)
    ensures t != [] ==> !IsWhite(t[0])
  {
    if s != [] && IsWhite(s[0]) then TrimStart(s[1..]) else s
  }

  /** Drops the trailing white space; TrimEndDropsOnlyWhite shows it drops nothing else. */
  function TrimEnd(s: string): (t: string)
    ensures t != [] ==> !IsWhite(t[|t| - 1])
  {
    if s != [] && IsWhite(s[|s| - 1]) then TrimEnd(s[..|s| - 1]) else s
  }

  /** TrimStart keeps a suffix of its input and removes only white space before it. */
  lemma {:induction false} TrimStartDropsOnlyWhite(s: string)
    ensures |TrimStart(s)| <= |s| && TrimStart(s) == s[|s| - |TrimStart(s)|..]
    ensures forall i :: 0 <= i < |s| - |TrimStart(s)| ==> IsWhite(s[i])
  {
    if s != [] && IsWhite(s[0]) {
      TrimStartDropsOnlyWhite(s[1..]);
    }
  }

  /** TrimEnd keeps a prefix of its input and removes only white space after it. */
  lemma {:induction false} TrimEndDropsOnlyWhite(s: string)
    ensures |TrimEnd(s)| <= |s| && TrimEnd(s) == s[..|TrimEnd(s)|]
    ensures forall i :: |TrimEnd(s)| <= i < |s| ==> IsWhite(s[i])
  {
    if s != [] && IsWhite(s[|s| - 1]) {
      TrimEndDropsOnlyWhite(s[..|s| - 1]);
    }
  }

  /** How `Convert.ToInt32(string)` ends: a value, a FormatException or an OverflowException. */
  datatype ParseOutcome = Value(n: int) | Malformed | Overflow

  /** Optional sign followed by the digits, after trimming white space. */
  function Unsigned(t: string): (r: string)
    ensures |r| <= |t| && r == t[|t| - |r|..]
    ensures |r| < |t| <==> |t| > 0 && (t[0] == '-' || t[0] == '+')
    ensures |t| - |r| <= 1
  {
    if |t| > 0 && (t[0] == '-' || t[0] == '+') then t[1..] else t
  }

  function ParseInt32(s: string): (r: ParseOutcome)
    ensures r.Value? ==> InInt32(r.n)
  {
    var t := TrimEnd(TrimStart(s));
    var digits := Unsigned(t);
    if digits == [] || !AllDigits(digits) then Malformed
    else
      var v: int := if t[0] == '-' then -(DigitsValue(digits) as int) else DigitsValue(digits);
      if InInt32(v) then Value(v) else Overflow
  }

  /**
   * Parsing the text of any Int32 gives that Int32 back; the text of a
   * number outside the Int32 range is an overflow.
   */
  lemma FormatRoundTrip(n: int)
    ensures ParseInt32(Format(n)) == if InInt32(n) then Value(n) else Overflow
  {
    var s := Format(n);
    assert TrimStart(s) == s;
    assert TrimEnd(s) == s by {
      assert IsDigit(s[|s| - 1]);
    }
    if n < 0 {
      assert Unsigned(s) == s[1..];
    } else {
      assert Unsigned(s) == s by {
        assert IsDigit(s[0]);
      }
    }
  }

  /** A formatted Int32 contains no space or tab, so it survives the assembler's line split. */
  lemma FormatHasNoBlank(n: int)
    ensures forall i :: 0 <= i < |Format(n)| ==> Format(n)[i] != ' ' && Format(n)[i] != '\t'
  {
    var s := Format(n);
    forall i | 0 <= i < |s| ensures s[i] != ' ' && s[i] != '\t' {
      if n < 0 && i > 0 {
        assert s[i] == s[1..][i - 1];
      }
    }
  }

  /** A plus sign and leading zeros are accepted. */
  lemma ParsePlusSignExample()
    ensures ParseInt32("+07") == Value(7)
  {
    assert TrimStart("+07") == "+07" && TrimEnd("+07") == "+07";
    assert Unsigned("+07") == "07";
    assert DigitsValue("07") == 10 * DigitsValue("0") + 7 by {
      assert "07"[..1] == "0";
    }
  }

  /** White space other than the line separators is trimmed at both ends. */
  lemma ParseWhiteSpaceExample()
    ensures ParseInt32("\U{B}5\U{C}") == Value(5)
  {
    assert TrimStart("\U{B}5\U{C}") == "5\U{C}";
    assert TrimEnd("5\U{C}") == "5";
    assert Unsigned("5") == "5";
  }

  /** The empty token and a lone sign are malformed, not zero. */
  lemma ParseRejectsEmptyExamples()
    ensures ParseInt32("") == Malformed
    ensures ParseInt32("-") == Malformed
  {
    assert TrimStart("-") == "-" && TrimEnd("-") == "-";
  }

  /** Trailing junk after the digits is malformed. */
  lemma ParseRejectsTrailingJunkExample()
    ensures ParseInt32("5x") == Malformed
  {
    assert TrimStart("5x") == "5x" && TrimEnd("5x") == "5x";
    assert Unsigned("5x") == "5x";
    assert !IsDigit("5x"[1]);
  }

  /** A blank between the sign and the digits is malformed. */
  lemma ParseRejectsBlankAfterSignExample()
    ensures ParseInt32("- 5") == Malformed
  {
    assert TrimStart("- 5") == "- 5" && TrimEnd("- 5") == "- 5";
    assert Unsigned("- 5") == " 5";
    assert !IsDigit(" 5"[0]);
  }

  /** Examples of the decimal text of words. */
  lemma FormatExamples()
    ensures Format(0) == "0" && Format(995) == "995" && Format(10000) == "10000" && Format(-5) == "-5"
  {
    assert NatToDecimal(99) == "99";
    assert NatToDecimal(995) == "995";
    assert NatToDecimal(10) == "10";
    assert NatToDecimal(100) == "100";
    assert NatToDecimal(1000) == "1000";
  }

  /** Wrap-around: the largest operand on the largest base value gives a negative word. */
  lemma WrapExample()
    ensures Wrap32(10000 + Int32Max) == Int32Min + 9999
  {
  }
}
