/** What the literals of src/literal.cc are worth, said of their characters: digits of either case, signs,
    underscores, and the texts of numbers. */
module LiteralText {
  import opened Arith
  import opened Common
  import opened IntLiteral
  import opened FloatFormat
  import opened HexRounding
  import opened HexScan
  import opened Uint128

  const LOWER := "0123456789abcdef"
  const UPPER := "0123456789ABCDEF"

  /** The character c is the hexadecimal digit d. */
  predicate IsDigit(c: char, d: nat)
    requires d < 16
  {
    c == LOWER[d] || c == UPPER[d]
  }

  lemma DigitChars(d: nat)
    requires d < 16
    ensures LOWER[d] == (if d < 10 then '0' + d as char else 'a' + (d - 10) as char)
    ensures UPPER[d] == (if d < 10 then '0' + d as char else 'A' + (d - 10) as char)
  {
  }

  /** A hexadecimal digit is worth its place in the alphabet, in either case, and nothing else is one. */
  lemma HexdigitIs(c: char, d: nat)
    requires d < 16
    ensures ParseHexdigit(c) == Ok(d) <==> c == "0123456789abcdef"[d] || c == "0123456789ABCDEF"[d]
  {
    DigitChars(d);
  }

  lemma DecimalDigitIs(c: char, d: nat)
    requires d < 10
    ensures DecimalDigit(c) == Ok(d) <==> c == "0123456789"[d]
  {
  }

  // ---------------------------------------------------------------- the case of digits

  /** The same character, or the same digit in the other case. */
  ghost predicate SameDigit(c: char, c': char) {
    c == c' || exists d: nat :: d < 16 && IsDigit(c, d) && IsDigit(c', d)
  }

  ghost predicate SameButCase(s: string, s': string) {
    |s| == |s'| && forall i :: 0 <= i < |s| ==> SameDigit(s[i], s'[i])
  }

  lemma CaseOfDigit(c: char, c': char)
    requires SameDigit(c, c')
    ensures ParseHexdigit(c) == ParseHexdigit(c') && (c == '_' <==> c' == '_') && (c == '.' <==> c' == '.')
  {
    if c != c' {
      var d: nat :| d < 16 && IsDigit(c, d) && IsDigit(c', d);
      HexdigitIs(c, d);
      HexdigitIs(c', d);
      NoDigits();
    }
  }

  lemma NoDigits()
    ensures ParseHexdigit('_').Error? && ParseHexdigit('.').Error?
  {
  }

  lemma FrontSame(s: string, s': string)
    requires SameButCase(s, s') && s != ""
    ensures SameButCase(s[..|s| - 1], s'[..|s| - 1]) && SameDigit(s[|s| - 1], s'[|s| - 1])
  {
  }

  /** Changing the case of digits does not change what they are worth. */
  lemma {:induction false} CaseOfValue(s: string, s': string)
    requires SameButCase(s, s')
    ensures Value(16, s) == Value(16, s')
    decreases |s|
  {
    hide ParseHexdigit, SameButCase, SameDigit;
    SameLength(s, s');
    if s != "" {
      FrontSame(s, s');
      CaseOfDigit(s[|s| - 1], s'[|s| - 1]);
      CaseOfValue(s[..|s| - 1], s'[..|s| - 1]);
    }
  }

  lemma SameLength(s: string, s': string)
    requires SameButCase(s, s')
    ensures |s| == |s'|
  {
  }

  /** Nor what the mantissa of a float is worth, nor how its loop scans it. */
  lemma {:induction false} CaseOfMantissa(t: Format, m: string, m': string)
    requires SameButCase(m, m')
    ensures DigitsValue(m) == DigitsValue(m') && FractionDigits(m) == FractionDigits(m') && ('.' in m <==> '.' in m')
    ensures ScanOf(t, m) == ScanOf(t, m')
    decreases |m|
  {
    hide ParseHexdigit, SameButCase, SameDigit, BitLength, Low;
    SameLength(m, m');
    if m != "" {
      var n := |m| - 1;
      FrontSame(m, m');
      CaseOfDigit(m[n], m'[n]);
      CaseOfMantissa(t, m[..n], m'[..n]);
      assert m == m[..n] + [m[n]] && m' == m'[..n] + [m'[n]];
    }
  }

  // ---------------------------------------------------------------- underscores

  /** An underscore anywhere changes nothing. */
  lemma {:induction false} UnderscoreIgnored(base: nat, a: string, b: string)
    requires base == 10 || base == 16
    ensures Value(base, a + "_" + b) == Value(base, a + b)
    decreases |b|
  {
    hide Digit;
    var s, s' := a + "_" + b, a + b;
    if b == "" {
      assert s[..|s| - 1] == a && s[|s| - 1] == '_' && s' == a;
    } else {
      var front := b[..|b| - 1];
      UnderscoreIgnored(base, a, front);
      assert s[..|s| - 1] == a + "_" + front && s'[..|s'| - 1] == a + front && s[|s| - 1] == s'[|s'| - 1];
    }
  }

  // ---------------------------------------------------------------- the texts that are accepted

  predicate HexChars(s: string) {
    forall c :: c in s ==> c == '_' || c in LOWER || c in UPPER
  }

  predicate DecimalChars(s: string) {
    forall c :: c in s ==> c == '_' || c in "0123456789"
  }

  lemma HexCharIs(c: char)
    ensures ParseHexdigit(c).Ok? <==> c in LOWER || c in UPPER
  {
    hide ParseHexdigit;
    if ParseHexdigit(c).Ok? {
      HexdigitIs(c, ParseHexdigit(c).value);
    }
    if c in LOWER {
      var d :| 0 <= d < |LOWER| && LOWER[d] == c;
      HexdigitIs(c, d);
    }
    if c in UPPER {
      var d :| 0 <= d < |UPPER| && UPPER[d] == c;
      HexdigitIs(c, d);
    }
  }

  lemma DecimalCharIs(c: char)
    ensures DecimalDigit(c).Ok? <==> c in "0123456789"
  {
    hide DecimalDigit;
    if DecimalDigit(c).Ok? {
      DecimalDigitIs(c, DecimalDigit(c).value);
    }
    if c in "0123456789" {
      var d :| 0 <= d < 10 && "0123456789"[d] == c;
      DecimalDigitIs(c, d);
    }
  }

  /** Digits of the base and underscores are accepted, and nothing else. */
  lemma {:induction false} DigitsAccepted(s: string)
    ensures Value(16, s).Ok? <==> HexChars(s)
    ensures Value(10, s).Ok? <==> DecimalChars(s)
    decreases |s|
  {
    hide ParseHexdigit, DecimalDigit;
    if s != "" {
      var front, c := s[..|s| - 1], s[|s| - 1];
      assert s == front + [c];
      DigitsAccepted(front);
      HexCharIs(c);
      DecimalCharIs(c);
    }
  }

  /** An unsigned literal is "0x" with hexadecimal digits, or decimal digits; underscores may stand anywhere. */
  lemma UnsignedAccepted(s: string)
    ensures UnsignedValue(s).Ok? <==>
            (|s| > 2 && s[..2] == "0x" && HexChars(s[2..])) || (s != "" && DecimalChars(s))
    ensures |s| > 2 && s[..2] == "0x" ==> UnsignedValue(s) == Value(16, s[2..])
    ensures s != "" && DecimalChars(s) ==> UnsignedValue(s) == Value(10, s)
  {
    hide Value;
    DigitsAccepted(s);
    if |s| >= 2 {
      DigitsAccepted(s[2..]);
      assert s[..2] == [s[0], s[1]] && s == [s[0], s[1]] + s[2..];
      assert s[1] in s;
    }
  }

  lemma SignedAccepted(s: string)
    ensures SignedValue(s).Ok? <==>
            UnsignedValue(s).Ok? || (s != "" && (s[0] == '+' || s[0] == '-') && UnsignedValue(s[1..]).Ok?)
  {
    hide Value;
    UnsignedAccepted(s);
    if s != "" {
      assert s[0] in s;
    }
  }

  // ---------------------------------------------------------------- the texts of numbers

  /** The hexadecimal text of v in one case, without leading zeros. */
  function HexDigits(v: nat, upper: bool): (s: string)
    ensures s != ""
  {
    var digit := if upper then "0123456789ABCDEF"[v % 16] else "0123456789abcdef"[v % 16];
    if v < 16 then [digit] else HexDigits(v / 16, upper) + [digit]
  }

  /** The decimal text of v. */
  function IntegerText(v: int): (s: string) {
    if v < 0 then "-" + ToDecimal(-v) else ToDecimal(v)
  }

  lemma ValueLast(base: nat, front: string, c: char, d: nat)
    requires base == 10 || base == 16
    requires Value(base, front).Ok? && c != '_' && Digit(base, c) == Ok(d)
    ensures Value(base, front + [c]) == Ok(Value(base, front).value * base + d)
  {
    hide Digit;
    assert (front + [c])[..|front|] == front;
  }

  lemma {:induction false} HexDigitsValue(v: nat, upper: bool)
    ensures Value(16, HexDigits(v, upper)) == Ok(v)
  {
    var c := if upper then "0123456789ABCDEF"[v % 16] else "0123456789abcdef"[v % 16];
    HexdigitIs(c, v % 16);
    NoDigits();
    ValueOfNothing(16, "");
    hide Value, ParseHexdigit;
    assert "" + [c] == [c] && ""[..0] == "";
    if v < 16 {
      ValueLast(16, "", c, v);
    } else {
      HexDigitsValue(v / 16, upper);
      ValueLast(16, HexDigits(v / 16, upper), c, v % 16);
    }
  }

  /** The hexadecimal text of a number is worth that number, whichever case its digits have. */
  lemma HexTextValue(v: nat, upper: bool)
    ensures UnsignedValue("0x" + HexDigits(v, upper)) == Ok(v)
  {
    hide Value, HexDigits;
    HexDigitsValue(v, upper);
    var s := "0x" + HexDigits(v, upper);
    assert s[2..] == HexDigits(v, upper);
  }

  lemma {:induction false} DecimalTextValue(v: nat)
    ensures Value(10, ToDecimal(v)) == Ok(v)
    ensures forall i :: 0 <= i < |ToDecimal(v)| ==> DecimalDigit(ToDecimal(v)[i]).Ok?
  {
    hide Value, ToDecimal;
    ToDecimalStep(v);
    ValueOfNothing(10, "");
    assert ""[..0] == "";
    var s, c := ToDecimal(v), DigitChar(v % 10);
    assert s == s[..|s| - 1] + [s[|s| - 1]];
    NotUnderscore(c);
    if v < 10 {
      ValueLast(10, "", c, v);
    } else {
      DecimalTextValue(v / 10);
      ValueLast(10, ToDecimal(v / 10), c, v % 10);
    }
  }

  /** It has no leading zero. */
  lemma {:induction false} NoLeadingZero(v: nat)
    ensures ToDecimal(0) == "0" && (v > 0 ==> ToDecimal(v)[0] != '0')
  {
    if v >= 10 {
      NoLeadingZero(v / 10);
    }
  }

  lemma NotUnderscore(c: char)
    requires DecimalDigit(c).Ok?
    ensures c != '_' && c != 'x' && c != '-' && c != '+'
  {
  }

  /** The decimal text of a number is worth that number, with a minus, with a plus, or with no sign. */
  lemma IntegerTextValue(v: int)
    ensures SignedValue(IntegerText(v)) == Ok(v)
    ensures v >= 0 ==> UnsignedValue(IntegerText(v)) == Ok(v as nat) && SignedValue("+" + IntegerText(v)) == Ok(v)
    ensures v >= 0 ==> !HasSign(IntegerText(v))
  {
    hide Value, ToDecimal;
    var n: nat := if v < 0 then -v else v;
    var s := ToDecimal(n);
    DecimalTextValue(n);
    NotUnderscore(s[0]);
    if |s| > 1 {
      NotUnderscore(s[1]);
    }
    SignsMean(s);
  }

  /** A plus sign changes nothing and a minus sign negates, whatever follows. */
  lemma SignsMean(u: string)
    ensures SignedValue("+" + u) ==
            match UnsignedValue(u) { case Ok(v) => Ok(v) case Error => Error }
    ensures SignedValue("-" + u) ==
            match UnsignedValue(u) { case Ok(v) => Ok(-(v as int)) case Error => Error }
    ensures !HasSign(u) ==> SignedValue(u) == SignedValue("+" + u)
  {
    hide UnsignedValue;
    assert ("+" + u)[1..] == u && ("-" + u)[1..] == u;
  }
}
