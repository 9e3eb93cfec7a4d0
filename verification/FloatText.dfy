/** The texts of the float literals of src/literal.cc, said of their characters: how they come apart, what their parts
    are worth, and what WriteHex writes. */
module FloatText {
  import opened Arith
  import opened Common
  import opened IntLiteral
  import opened FloatFormat
  import opened HexRounding
  import opened HexScan
  import opened HexExponent
  import opened FloatLiteral
  import opened FloatWriter
  import opened LiteralText
  import opened Uint128

  // ---------------------------------------------------------------- hexadecimal literals

  predicate IsSign(sign: string) {
    sign == "" || sign == "+" || sign == "-"
  }

  predicate MantissaChars(m: string) {
    forall c :: c in m ==> c == '_' || c == '.' || c in LOWER || c in UPPER
  }

  lemma SignOf(sign: string, rest: string)
    requires IsSign(sign) && !HasSign(rest)
    ensures SignLength(sign + rest) == |sign| && (sign + rest)[|sign|..] == rest
    ensures IsNegative(sign + rest) <==> sign == "-"
  {
  }

  lemma MantissaCharsAre(m: string)
    ensures MantissaChars(m) <==> forall c :: c in m ==> IsMantissaChar(c)
  {
    hide ParseHexdigit;
    forall c: char ensures IsMantissaChar(c) <==> c == '_' || c == '.' || c in LOWER || c in UPPER {
      HexCharIs(c);
    }
  }

  lemma DecimalCharsAre(d: string)
    ensures DecimalChars(d) <==> forall c :: c in d ==> c == '_' || DecimalDigit(c).Ok?
    ensures DecimalChars(d) ==> !HasSign(d)
  {
    hide DecimalDigit;
    forall c: char ensures DecimalDigit(c).Ok? <==> c in "0123456789" {
      DecimalCharIs(c);
    }
    if d != "" {
      assert d[0] in d;
    }
  }

  /** The exponent's text: p or P, a sign or none, digits. */
  lemma TailOf(p: char, sign: string, d: string)
    requires (p == 'p' || p == 'P') && IsSign(sign) && DecimalChars(d) && sign + d != ""
    ensures var tail := [p] + sign + d;
            TailShape(tail) && ExponentDigits(tail) == d && (tail[1] == '-' <==> sign == "-") &&
            (tail[1] == '+' <==> sign == "+")
  {
    hide DecimalDigit;
    var tail := [p] + sign + d;
    DecimalCharsAre(d);
    assert tail[1..] == sign + d;
    SignOf(sign, d);
    assert tail[1 + |sign|..] == d;
    assert d != "" ==> d[0] in d;
  }

  lemma TextOf(sign: string, m: string, tail: string)
    requires IsSign(sign) && MantissaChars(m) && TailShape(tail)
    ensures var s := sign + ("0x" + m + tail);
            HexShape(s) && Mantissa(s) == m && Tail(s) == tail && (IsNegative(s) <==> sign == "-")
  {
    hide IsMantissaChar, TailShape, MantissaLength, SignLength, IsNegative, MantissaChars, IsSign;
    var rest := "0x" + m + tail;
    var s := sign + rest;
    Digit0x(m + tail);
    assert rest == "0x" + (m + tail);
    SignOf(sign, rest);
    MantissaCharsAre(m);
    TailNotMantissa(tail);
    MantissaLengthIs(m, tail);
    assert s[|sign| + 2..] == m + tail by {
      assert rest[2..] == m + tail;
    }
    assert (m + tail)[..|m|] == m && (m + tail)[|m|..] == tail;
  }

  lemma Digit0x(rest: string)
    ensures !HasSign("0x" + rest) && StartsWith("0x" + rest, "0x")
  {
    assert ("0x" + rest)[..2] == "0x";
  }

  /** A literal with an exponent: what its parts are, the exponent as written, and where reading it starts. */
  lemma HexLiteral(t: Format, sign: string, m: string, p: char, expSign: string, d: string)
    requires IsSign(sign) && MantissaChars(m) && (p == 'p' || p == 'P')
    requires IsSign(expSign) && DecimalChars(d) && expSign + d != ""
    ensures var s := sign + ("0x" + m + ([p] + expSign + d));
            HexShape(s) && Mantissa(s) == m && (IsNegative(s) <==> sign == "-") &&
            (NegativeExponent(s) <==> expSign == "-") && Value(10, d).Ok? &&
            FullExponent(s) == (var v: int := Value(10, d).value; if expSign == "-" then -v else v)
    ensures var s, e := sign + ("0x" + m + ([p] + expSign + d)), ScanOf(t, m).exponent;
            var add := if expSign == "-" then -e else if expSign == "+" then e else 0;
            (forall c :: c in d ==> c == '_' || DecimalDigit(c).Ok?) &&
            ParsedExponent(t, s) == (var v: int := ReadExponent(t, d, add, 0).value; if expSign == "-" then -v else v)
  {
    hide MantissaChars, TailShape, ScanOf, Value, ReadExponent, HexShape, Mantissa, Tail, DecimalDigit, IsNegative;
    TailOf(p, expSign, d);
    TextOf(sign, m, [p] + expSign + d);
    DecimalCharsAre(d);
    DigitsAccepted(d);
  }

  lemma HexLiteralWithout(t: Format, sign: string, m: string)
    requires IsSign(sign) && MantissaChars(m)
    ensures var s := sign + ("0x" + m);
            HexShape(s) && Mantissa(s) == m && (IsNegative(s) <==> sign == "-") && FullExponent(s) == 0 &&
            ParsedExponent(t, s) == 0
  {
    TextOf(sign, m, "");
    assert "0x" + m + "" == "0x" + m;
    hide MantissaChars, TailShape, ScanOf, Value, ReadExponent, HexShape, Mantissa, IsNegative;
  }

  /** There are no other literals. */
  lemma HexForm(s: string) returns (sign: string, m: string, tail: string)
    requires HexShape(s)
    ensures IsSign(sign) && MantissaChars(m) && s == sign + ("0x" + m + tail)
    ensures tail != "" ==>
              exists p: char, expSign: string, d: string ::
                (p == 'p' || p == 'P') && IsSign(expSign) && DecimalChars(d) && expSign + d != "" &&
                tail == [p] + expSign + d
  {
    hide IsMantissaChar, MantissaLength, TailShape, ExponentDigits, DecimalChars;
    var i := SignLength(s);
    sign, m, tail := s[..i], Mantissa(s), Tail(s);
    var rest := s[i + 2..];
    MantissaAll(rest);
    MantissaCharsAre(m);
    assert s[i..][..2] == "0x" && s[i..][2..] == rest;
    assert rest == m + tail;
    assert s[i..] == "0x" + m + tail;
    if tail != "" {
      var p, expSign, d := TailForm(tail);
    }
  }

  lemma TailForm(tail: string) returns (p: char, expSign: string, d: string)
    requires TailShape(tail) && tail != ""
    ensures (p == 'p' || p == 'P') && IsSign(expSign) && DecimalChars(d) && expSign + d != ""
    ensures tail == [p] + expSign + d
  {
    hide DecimalDigit;
    d := ExponentDigits(tail);
    DecimalCharsAre(d);
    p, expSign := tail[0], tail[1..][..SignLength(tail[1..])];
    assert tail == [p] + expSign + d;
  }

  lemma {:induction false} MantissaAll(s: string)
    ensures forall c :: c in s[..MantissaLength(s)] ==> IsMantissaChar(c)
    decreases |s|
  {
    hide IsMantissaChar;
    if s != "" && IsMantissaChar(s[0]) {
      MantissaAll(s[1..]);
      var n := MantissaLength(s[1..]);
      assert s[..1 + n] == [s[0]] + s[1..][..n];
    }
  }

  // ---------------------------------------------------------------- what the mantissa is worth

  /** How many digits a text has. */
  function Digits(s: string): nat {
    if s == "" then 0 else Digits(s[..|s| - 1]) + if s[|s| - 1] == '_' then 0 else 1
  }

  lemma {:induction false} WholeWorth(a: string)
    requires HexChars(a)
    ensures Value(16, a).Ok? && DigitsValue(a) == Value(16, a).value && FractionDigits(a) == 0 && '.' !in a
    decreases |a|
  {
    hide ParseHexdigit;
    DigitsAccepted(a);
    if a != "" {
      var front, c := a[..|a| - 1], a[|a| - 1];
      assert a == front + [c];
      WholeWorth(front);
      HexCharIs(c);
      NoDigits();
    }
  }

  lemma HexBoth(a: string, b: string)
    ensures HexChars(a + b) <==> HexChars(a) && HexChars(b)
  {
    if HexChars(a + b) {
      assert forall c :: c in a || c in b ==> c in a + b;
    }
  }

  lemma HexOne(c: char)
    requires HexChars([c])
    ensures c == '_' || ParseHexdigit(c).Ok?
  {
    hide ParseHexdigit;
    assert c in [c];
    HexCharIs(c);
  }

  /** The dot only says where the fraction starts; every digit behind it counts four bits. */
  lemma {:induction false} MantissaWorth(a: string, f: string)
    requires HexChars(a) && HexChars(f)
    ensures Value(16, a + f).Ok? && DigitsValue(a + "." + f) == Value(16, a + f).value
    ensures FractionDigits(a + "." + f) == Digits(f)
    decreases |f|
  {
    hide ParseHexdigit, HexChars;
    HexBoth(a, f);
    DigitsAccepted(a + f);
    NoDigits();
    var m := a + "." + f;
    if f == "" {
      WholeWorth(a);
      assert a + f == a && m[..|m| - 1] == a && m[|m| - 1] == '.';
    } else {
      var front, c := f[..|f| - 1], f[|f| - 1];
      assert f == front + [c];
      HexBoth(front, [c]);
      HexOne(c);
      MantissaWorth(a, front);
      assert m[..|m| - 1] == a + "." + front && m[|m| - 1] == c;
      assert (a + f)[..|a + f| - 1] == a + front;
      assert (a + "." + front)[|a|] == '.';
    }
  }

  // ---------------------------------------------------------------- where the exponent loop stops

  /** The loop stops behind the first digit at which the number read, with the dot's part, reaches the format's bound,
      or at the end. */
  lemma {:induction false} StopsFrom(t: Format, x: string, k: nat, add: int, value: nat) returns (n: nat)
    requires (forall c :: c in x ==> c == '_' || DecimalDigit(c).Ok?) && k <= |x| && Value(10, x[..k]) == Ok(value)
    requires forall i :: 0 < i <= k && x[i - 1] != '_' ==> Below(t, x, i, add)
    ensures k <= n <= |x| && Value(10, x[..n]).Ok?
    ensures ReadExponent(t, x[k..], add, value) == ExponentRead(Value(10, x[..n]).value, x[n..])
    ensures n < |x| ==> n > 0 && x[n - 1] != '_' && !Below(t, x, n, add)
    ensures forall i :: 0 < i < n && x[i - 1] != '_' ==> Below(t, x, i, add)
    decreases |x| - k
  {
    hide Value, DecimalDigit;
    if k == |x| {
      n := k;
      assert x[k..] == "";
    } else {
      assert x[k] in x;
      var next := k + 1;
      ValueNext(x[..k], x[k]);
      assert x[..k] + [x[k]] == x[..next] && x[k..][1..] == x[next..];
      if x[k] != '_' && !Below(t, x, next, add) {
        n := next;
      } else {
        n := StopsFrom(t, x, next, add, Value(10, x[..next]).value);
      }
    }
  }

  /** What the first n characters are worth, with the dot's part, is below the format's bound. */
  predicate Below(t: Format, x: string, n: nat, add: int) {
    n <= |x| && Value(10, x[..n]).Ok? && Value(10, x[..n]).value + add < if t.bits == 32 then 128 else 1024
  }

  lemma ExponentStops(t: Format, x: string, add: int) returns (n: nat)
    requires DecimalChars(x)
    ensures forall c :: c in x ==> c == '_' || DecimalDigit(c).Ok?
    ensures n <= |x| && Value(10, x[..n]).Ok? &&
            ReadExponent(t, x, add, 0) == ExponentRead(Value(10, x[..n]).value, x[n..])
    ensures n < |x| ==> n > 0 && x[n - 1] != '_' && !Below(t, x, n, add)
    ensures forall i :: 0 < i < n && x[i - 1] != '_' ==> Below(t, x, i, add)
  {
    hide Value, DecimalDigit, ReadExponent, Below;
    DecimalCharsAre(x);
    ValueEmpty();
    assert x[..0] == "" && x[0..] == x;
    n := StopsFrom(t, x, 0, add, 0);
  }

  // ---------------------------------------------------------------- NaNs and infinities

  /** A NaN asks for the payload written in hexadecimal, and without one for the quiet tag. */
  lemma SpecialLiterals(t: Format, sign: string, d: string)
    requires IsSign(sign)
    ensures InfinityShape(sign + "inf") && (IsNegative(sign + "inf") <==> sign == "-")
    ensures var s := sign + "nan";
            NanShape(s) && (IsNegative(s) <==> sign == "-") &&
            NanTag(t, s) == Ok(if t.bits == 32 then 0x40_0000 else 0x8_0000_0000_0000)
    ensures var s := sign + ("nan:0x" + d);
            NanShape(s) && (IsNegative(s) <==> sign == "-") && NanTag(t, s) == Value(16, d)
  {
    hide Value, SignLength, IsNegative, IsSign;
    SignOf(sign, "inf");
    assert "inf"[..3] == "inf";
    SignOf(sign, "nan");
    assert "nan"[..3] == "nan" && (sign + "nan")[|sign| + 3..] == "";
    var rest := "nan:0x" + d;
    SignOf(sign, rest);
    assert rest[..3] == "nan" && (sign + rest)[|sign| + 3..] == ":0x" + d && (":0x" + d)[..3] == ":0x";
    assert (sign + rest)[|sign| + 6..] == d;
  }

  // ---------------------------------------------------------------- what is written

  /** The sign bit is written as a minus. */
  lemma SignWritten(t: Format, mag: nat)
    requires mag < SignOne(t)
    ensures HexText(t, SignOne(t) + mag) == "-" + HexText(t, mag)
  {
    hide MagText;
  }

  lemma {:induction false} TopDigitsLast(m: nat, w: nat)
    requires w > 0 && m < Pow2(4 * w)
    ensures m / 16 < Pow2(4 * (w - 1)) && TopDigits(m, w) == TopDigits(m / 16, w - 1) + [HexChar(m % 16)]
    decreases w
  {
    hide Pow2, Shr, Low, HexChar;
    Pow2Four();
    Pow2Add(4, 4 * (w - 1));
    assert m / 16 < Pow2(4 * (w - 1)) by { DivDef(m, 16); }
    TopDigitsAre(m, w);
    if w == 1 {
      TopOfOne(m);
      TopDigitsAre(0, 0);
      assert [HexChar(m)] + "" == "" + [HexChar(m)];
    } else {
      var k := 4 * (w - 2);
      TopDigitsAre(m / 16, w - 1);
      ShiftedFour(m, k);
      TopDigitsLast(Low(m, k + 4), w - 1);
      assert [HexChar(Shr(m, k + 4))] + (TopDigits(Low(m / 16, k), w - 2) + [HexChar(m % 16)]) ==
             ([HexChar(Shr(m / 16, k))] + TopDigits(Low(m / 16, k), w - 2)) + [HexChar(m % 16)];
    }
  }

  lemma TopOfOne(m: nat)
    requires m < 16
    ensures Shr(m, 0) == m && Low(m, 0) == 0
  {
    Pow2Four();
  }

  lemma TopDigitsAre(m: nat, w: nat)
    requires m < Pow2(4 * w)
    ensures w == 0 ==> TopDigits(m, w) == ""
    ensures w > 0 ==> Shr(m, 4 * (w - 1)) < 16 &&
                      TopDigits(m, w) == [HexChar(Shr(m, 4 * (w - 1)))] + TopDigits(Low(m, 4 * (w - 1)), w - 1)
  {
    hide Pow2, Shr, Low, HexChar;
    if w > 0 {
      TopDigitFits(m, w);
    }
  }

  /** Dropping four bits first, or afterwards. */
  lemma ShiftedFour(m: nat, k: nat)
    ensures Shr(m / 16, k) == Shr(m, k + 4) && Low(m / 16, k) == Low(m, k + 4) / 16 && Low(m, k + 4) % 16 == m % 16
  {
    ShrShr(m, 4, k);
    Pow2Four();
    assert Shr(m, 4) == m / 16 && Low(m, 4) == m % 16;
    hide Pow2, Shr, Low;
    DivMod(Low(m, k + 4), 16, Low(m / 16, k), m % 16);
  }

  lemma {:induction false} TopDigitsAreAll(m: nat)
    ensures m < Pow2(4 * HexLength(m)) && TopDigits(m, HexLength(m)) == HexDigits(m, false)
  {
    hide Pow2, TopDigits;
    HexLengthBounds(m);
    TopDigitsLast(m, HexLength(m));
    if m < 16 {
      TopDigitsAre(m / 16, 0);
      assert "" + [HexChar(m)] == [HexChar(m)];
    } else {
      TopDigitsAreAll(m / 16);
    }
  }

  /** Zero, the infinity and the NaNs: the quiet one bare, the others with their payload in lower-case digits, and no
      leading zero. */
  lemma SpecialsWritten(t: Format, tag: nat)
    requires 0 < tag < SigOne(t)
    ensures HexText(t, 0) == "0x0p+0" && HexText(t, InfMag(t)) == "inf"
    ensures HexText(t, InfMag(t) + tag) ==
            if tag == (if t.bits == 32 then 0x40_0000 else 0x8_0000_0000_0000) then "nan"
            else "nan:0x" + HexDigits(tag, false)
  {
    hide TopDigits, HexDigits, HexLength;
    TopDigitsAreAll(tag);
    assert "nan" + (":0x" + HexDigits(tag, false)) == "nan:0x" + HexDigits(tag, false);
    assert "nan" + "" == "nan";
  }

  lemma {:induction false} FractionForm(m: nat, w: nat)
    requires m < Pow2(4 * w)
    ensures forall c :: c in FractionText(m, w) ==> c in LOWER
    ensures m > 0 ==> FractionText(m, w) != "" && FractionText(m, w)[|FractionText(m, w)| - 1] != '0'
    decreases w
  {
    hide Pow2, Shr, Low, HexChar, FractionText;
    FractionStep(m, w);
    if m > 0 {
      var d, rest := Shr(m, 4 * (w - 1)), Low(m, 4 * (w - 1));
      LowerChar(d);
      FractionForm(rest, w - 1);
      if rest == 0 {
        ShrLow(m, 4 * (w - 1));
        FractionStep(rest, w - 1);
        TopNotZero(Pow2(4 * (w - 1)), d, m);
      }
    }
  }

  lemma TopNotZero(p: nat, d: nat, m: nat)
    requires m > 0 && m == p * d
    ensures d > 0
  {
  }

  lemma LowerChar(d: nat)
    requires d < 16
    ensures HexChar(d) in LOWER && (d > 0 ==> HexChar(d) != '0')
  {
    assert HexChar(d) == LOWER[d];
  }

  /** Every other number is a 1, a signed decimal exponent, and between them a dot and lower-case digits without
      trailing zeros. The dot is left out when the significand's bits are all zero; a subnormal power of two keeps
      it, bare. */
  lemma NumberWritten(t: Format, mag: nat) returns (f: string, e: int)
    requires 0 < mag < InfMag(t)
    ensures HexText(t, mag) ==
            "0x1" + (if mag % SigOne(t) == 0 then "" else "." + f) + (if e < 0 then "p-" else "p+") +
            ToDecimal(if e < 0 then -e else e)
    ensures (forall c :: c in f ==> c in LOWER) && (f != "" ==> f[|f| - 1] != '0')
  {
    hide FractionText, FractionBits, LeadingExponent, ToDecimal, FractionWidth;
    e := LeadingExponent(t, mag);
    FractionBitsFit(t, mag);
    f := "";
    if mag % SigOne(t) != 0 {
      FractionForm(FractionBits(t, mag), FractionWidth(t));
      FractionStep(FractionBits(t, mag), FractionWidth(t));
      f := FractionText(FractionBits(t, mag), FractionWidth(t));
    }
    var a, b := if mag % SigOne(t) == 0 then "" else "." + f, if e < 0 then "-" else "+";
    assert "0x" + ("1" + a) + "p" + (b + ToDecimal(if e < 0 then -e else e)) ==
           "0x1" + a + ("p" + b) + ToDecimal(if e < 0 then -e else e);
  }
}
