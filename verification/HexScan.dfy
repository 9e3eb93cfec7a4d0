/** The scanning half of FloatParser::ParseHex, src/literal.cc: the text of a hexadecimal float, its value, and
    the loops over significand and exponent. */
module HexScan {
  import opened Arith
  import opened Common
  import opened IntLiteral
  import opened FloatFormat
  import opened FloatRounding
  import opened HexRounding

  // ---------------------------------------------------------------- the text of a hexadecimal float

  function SignLength(s: string): (n: nat)
    ensures n <= |s|
  {
    if HasSign(s) then 1 else 0
  }

  predicate IsNegative(s: string) {
    s != "" && s[0] == '-'
  }

  predicate StartsWith(s: string, prefix: string) {
    |prefix| <= |s| && s[..|prefix|] == prefix
  }

  predicate IsMantissaChar(c: char) {
    c == '_' || c == '.' || ParseHexdigit(c).Ok?
  }

  function MantissaLength(s: string): (n: nat)
    ensures n <= |s|
  {
    if s == "" || !IsMantissaChar(s[0]) then 0 else 1 + MantissaLength(s[1..])
  }

  predicate TailShape(tail: string) {
    tail == "" ||
    ((tail[0] == 'p' || tail[0] == 'P') && |tail| > 1 &&
     forall c :: c in ExponentDigits(tail) ==> c == '_' || DecimalDigit(c).Ok?)
  }

  /** What the lexer guarantees: a sign, "0x", a mantissa, and possibly p or P with an exponent. These are
      the assertions of ParseHex, and that something follows the p. */
  predicate HexShape(s: string) {
    var i := SignLength(s);
    StartsWith(s[i..], "0x") &&
    var rest := s[i + 2..];
    TailShape(rest[MantissaLength(rest)..])
  }

  /** What follows the p and its sign. */
  function ExponentDigits(tail: string): (d: string)
    requires |tail| > 1
  {
    tail[1 + SignLength(tail[1..])..]
  }

  function Mantissa(s: string): (m: string)
    requires HexShape(s)
  {
    var rest := s[SignLength(s) + 2..];
    rest[..MantissaLength(rest)]
  }

  function Tail(s: string): (m: string)
    requires HexShape(s)
  {
    var rest := s[SignLength(s) + 2..];
    rest[MantissaLength(rest)..]
  }

  lemma {:induction false} MantissaLengthIs(m: string, tail: string)
    requires (forall c :: c in m ==> IsMantissaChar(c)) && (tail == "" || !IsMantissaChar(tail[0]))
    ensures MantissaLength(m + tail) == |m|
  {
    hide IsMantissaChar;
    if m == "" {
      assert m + tail == tail;
    } else {
      assert m[0] in m;
      assert (m + tail)[1..] == m[1..] + tail;
      MantissaLengthIs(m[1..], tail);
    }
  }

  /** A text put together from a sign, a mantissa and a tail comes apart the same way. */
  lemma SplitHex(neg: bool, m: string, tail: string)
    requires (forall c :: c in m ==> IsMantissaChar(c)) && TailShape(tail)
    ensures var s := (if neg then "-" else "") + ("0x" + m + tail);
            HexShape(s) && Mantissa(s) == m && Tail(s) == tail && IsNegative(s) == neg
  {
    hide IsMantissaChar, TailShape, MantissaLength;
    var s := (if neg then "-" else "") + ("0x" + m + tail);
    var i := if neg then 1 else 0;
    assert SignLength(s) == i;
    assert s[i..] == "0x" + m + tail;
    assert s[i + 2..] == m + tail;
    TailNotMantissa(tail);
    MantissaLengthIs(m, tail);
    assert (m + tail)[..|m|] == m && (m + tail)[|m|..] == tail;
    assert s[i..][..2] == "0x";
  }

  lemma TailNotMantissa(tail: string)
    requires TailShape(tail)
    ensures tail == "" || !IsMantissaChar(tail[0])
  {
  }

  // ---------------------------------------------------------------- its value

  /** The mantissa's digits as one number. */
  function DigitsValue(m: string): (v: nat) {
    if m == "" then 0
    else
      var front, digit := DigitsValue(m[..|m| - 1]), ParseHexdigit(m[|m| - 1]);
      if digit.Ok? then 16 * front + digit.value else front
  }

  /** How many of them stand after the dot. */
  function FractionDigits(m: string): (n: nat) {
    if m == "" then 0
    else
      var front, digit := FractionDigits(m[..|m| - 1]), ParseHexdigit(m[|m| - 1]);
      if digit.Ok? && '.' in m[..|m| - 1] then front + 1 else front
  }

  lemma DigitsNext(m: string, c: char)
    ensures var d := ParseHexdigit(c);
            DigitsValue(m + [c]) == (if d.Ok? then 16 * DigitsValue(m) + d.value else DigitsValue(m)) &&
            FractionDigits(m + [c]) == FractionDigits(m) + if d.Ok? && '.' in m then 1 else 0
  {
    assert (m + [c])[..|m|] == m;
  }

  /** The value is DigitsValue * 2^(exponent - 4 * FractionDigits); in smallest subnormals, the power is: */
  function UnitExponent(t: Format, m: string, exponent: int): (x: int) {
    exponent - 4 * FractionDigits(m) - (MinExp(t) + 1 - t.sigBits)
  }

  // ---------------------------------------------------------------- the significand loop

  datatype Scan = Scan(significand: nat, exponent: int, seenDot: bool, seenTrailingNonZero: bool)

  function ScanStep(t: Format, st: Scan, c: char): (r: Scan) {
    if c == '_' then st
    else if c == '.' then st.(seenDot := true)
    else
      var digit := ParseHexdigit(c);
      if digit.Error? then st
      else if BitLength(st.significand) <= t.sigBits + 1 then
        st.(significand := Low(16 * st.significand, t.bits) + digit.value,
            exponent := if st.seenDot then st.exponent - 4 else st.exponent)
      else
        st.(seenTrailingNonZero := st.seenTrailingNonZero || digit.value != 0,
            exponent := if st.seenDot then st.exponent else st.exponent + 4)
  }

  function ScanOf(t: Format, m: string): (r: Scan) {
    if m == "" then Scan(0, 0, false, false) else ScanStep(t, ScanOf(t, m[..|m| - 1]), m[|m| - 1])
  }

  method ScanMantissa(t: Format, rest: string) returns (st: Scan, n: nat)
    ensures n == MantissaLength(rest) && st == ScanOf(t, rest[..n])
  {
    hide BitLength, Pow2, Low, ParseHexdigit;
    var seenDot, seenTrailingNonZero := false, false;
    var significand: nat := 0;
    var significandExponent: int := 0;
    n := 0;
    while n < |rest|
      invariant 0 <= n <= |rest|
      invariant MantissaLength(rest) == n + MantissaLength(rest[n..])
      invariant Scan(significand, significandExponent, seenDot, seenTrailingNonZero) == ScanOf(t, rest[..n])
    {
      ghost var m := rest[..n + 1];
      assert m[..|m| - 1] == rest[..n];
      assert rest[n..][1..] == rest[n + 1..];
      if rest[n] == '_' {
      } else if rest[n] == '.' {
        seenDot := true;
      } else {
        var digit := ParseHexdigit(rest[n]);
        if digit.Ok? {
          if BitLength(significand) <= t.sigBits + 1 {
            significand := Low(16 * significand, t.bits) + digit.value;
            if seenDot {
              significandExponent := significandExponent - 4;
            }
          } else {
            if !seenTrailingNonZero && digit.value != 0 {
              seenTrailingNonZero := true;
            }
            if !seenDot {
              significandExponent := significandExponent + 4;
            }
          }
        } else {
          break;
        }
      }
      n := n + 1;
    }
    st := Scan(significand, significandExponent, seenDot, seenTrailingNonZero);
  }

  /** The scan in terms of the digits: the significand holds all but the last k, those are worth `rest`. */
  ghost predicate Scanned(t: Format, m: string, k: nat, rest: nat) {
    var st := ScanOf(t, m);
    DigitsValue(m) == st.significand * Pow2(4 * k) + rest && rest < Pow2(4 * k) &&
    st.exponent == 4 * k - 4 * FractionDigits(m) &&
    st.seenDot == ('.' in m) && st.seenTrailingNonZero == (rest > 0) &&
    BitLength(st.significand) <= t.sigBits + 5 && (k > 0 ==> BitLength(st.significand) > t.sigBits + 1)
  }

  lemma {:induction false} BitLengthAtMost(x: nat, n: nat)
    ensures BitLength(x) <= n <==> x < Pow2(n)
    decreases x
  {
    if x > 0 && n > 0 {
      BitLengthAtMost(x / 2, n - 1);
    }
  }

  lemma AcceptDigit(t: Format, sig: nat, d: nat)
    requires BitLength(sig) <= t.sigBits + 1 && d < 16
    ensures Low(16 * sig, t.bits) + d == 16 * sig + d
    ensures BitLength(16 * sig + d) <= t.sigBits + 5
  {
    hide BitLength, Pow2, Low;
    BitLengthAtMost(sig, t.sigBits + 1);
    BitLengthAtMost(16 * sig + d, t.sigBits + 5);
    Pow2Add(4, t.sigBits + 1);
    Pow2Four();
    Pow2Mono(t.sigBits + 5, t.bits);
    LowSmall(16 * sig, t.bits);
  }

  lemma DropDigit(sig: nat, w: nat, rest: nat, d: nat, w': nat)
    requires rest < w && d < 16 && w' == 16 * w
    ensures 16 * (sig * w + rest) + d == sig * w' + (16 * rest + d) && 16 * rest + d < w'
  {
    assert sig * (16 * w) == 16 * (sig * w);
  }

  lemma ScanNext(t: Format, front: string, c: char, k: nat, rest: nat) returns (k': nat, rest': nat)
    requires Scanned(t, front, k, rest)
    ensures Scanned(t, front + [c], k', rest')
  {
    hide BitLength, Pow2, Low, ParseHexdigit, ScanOf, DigitsValue, FractionDigits;
    k', rest' := k, rest;
    var st, digit := ScanOf(t, front), ParseHexdigit(c);
    ScanMore(t, front, c);
    DigitsNext(front, c);
    if c != '_' && c != '.' && digit.Ok? {
      if BitLength(st.significand) <= t.sigBits + 1 {
        Pow2Four();
        AcceptDigit(t, st.significand, digit.value);
      } else {
        Pow2Add(4, 4 * k);
        Pow2Four();
        DropDigit(st.significand, Pow2(4 * k), rest, digit.value, Pow2(4 * (k + 1)));
        k', rest' := k + 1, 16 * rest + digit.value;
      }
    }
  }

  lemma ScanMore(t: Format, front: string, c: char)
    ensures ScanOf(t, front + [c]) == ScanStep(t, ScanOf(t, front), c)
    ensures '.' in front + [c] <==> '.' in front || c == '.'
    ensures c == '_' || c == '.' ==> ParseHexdigit(c).Error?
  {
    assert (front + [c])[..|front|] == front;
  }

  lemma {:induction false} ScanIsValue(t: Format, m: string) returns (k: nat, rest: nat)
    ensures Scanned(t, m, k, rest)
  {
    if m == "" {
      k, rest := 0, 0;
      Pow2Four();
    } else {
      hide Scanned;
      var front, c := m[..|m| - 1], m[|m| - 1];
      k, rest := ScanIsValue(t, front);
      k, rest := ScanNext(t, front, c, k, rest);
      assert m == front + [c];
    }
  }

  // ---------------------------------------------------------------- what the scan rounds to

  /** The truncated significand keeps kSigBits + 1 bits of a normal number and fewer of a subnormal one. */
  lemma TruncatedBits(t: Format, S: nat, e: int)
    requires S > 0
    ensures var q := Shr(Padded(t, S), RightShift(t, S, e));
            q < 2 * SigOne(t) && (e <= MinExp(t) || SigOne(t) <= q)
  {
    hide BitLength, Pow2, Shr, Padded, PaddedBits;
    var T, b := RightShift(t, S, e), PaddedBits(t, S);
    PaddedBounds(t, S);
    SigOneIsPow2(t);
    if e > MinExp(t) {
      ShrBound(Padded(t, S), T, b);
      ShrBound(Padded(t, S), T, b - 1);
    } else {
      Pow2Mono(b, T + t.sigBits + 1);
      ShrBound(Padded(t, S), T, T + t.sigBits + 1);
    }
  }

  /** Padding the significand scales the whole number. */
  lemma PaddedDigits(t: Format, m: string, k: nat, rest: nat)
    requires Scanned(t, m, k, rest) && ScanOf(t, m).significand > 0
    ensures var S := ScanOf(t, m).significand;
            Padded(t, S) * Pow2(4 * k) + rest == Scaled(DigitsValue(m), Pow2(PadBits(t, BitLength(S))))
    ensures PaddedBits(t, ScanOf(t, m).significand) == t.sigBits + 1 ==> k == 0 && rest == 0
  {
    hide BitLength, Pow2, DigitsValue, ScanOf;
    Pow2Four();
    var S, c := ScanOf(t, m).significand, PadBits(t, BitLength(ScanOf(t, m).significand));
    assert S * 1 == S && Padded(t, S) * 1 == Padded(t, S);
    if c == 0 {
      assert DigitsValue(m) * 1 == DigitsValue(m);
    }
  }

  /** Among all numbers of the format the true magnitude, and no other, is nearest to the literal's value. */
  lemma TrueMagIsNearest(t: Format, m: string, exponent: int, mag: nat)
    requires ScanOf(t, m).significand > 0
    ensures var st := ScanOf(t, m);
            NearestTo(t, DigitsValue(m), UnitExponent(t, m, exponent), mag) <==>
            mag == TrueMag(t, st.significand, exponent + st.exponent + BitLength(st.significand) - 1,
                           st.seenTrailingNonZero)
  {
    hide BitLength, Pow2, Shr, DigitsValue, ScanOf, Nearest, NearestTo, Scaled, Padded;
    var k, rest := ScanIsValue(t, m);
    var st := ScanOf(t, m);
    var S := st.significand;
    var e := exponent + st.exponent + BitLength(S) - 1;
    var c, T, step := PadBits(t, BitLength(S)), RightShift(t, S, e), ExponentStep(t, e);
    var N := Padded(t, S) * Pow2(4 * k) + rest;
    PaddedDigits(t, m, k, rest);
    TruncatedBits(t, S, e);
    Pow2Add(4 * k, T);
    NearestIsRounded(t, Padded(t, S), Pow2(4 * k), rest, T, step, mag, Scaled(N, Pow2(step)), Pow2(4 * k + T)) by {
      ScaledIs(N, Pow2(step));
    }
    NearestToRatio(t, N, step, 4 * k + T, mag);
    NearestToScaled(t, DigitsValue(m), c, N, UnitExponent(t, m, exponent), mag);
  }

  lemma ScaledIs(N: nat, w: nat)
    ensures Scaled(N, w) == N * w
  {
  }

  /** The outcome is the nearest number's bits, or the error when that is infinity. */
  ghost predicate CorrectlyRounded(t: Format, sign: bool, N: nat, X: int, r: Result<nat>) {
    exists mag :: NearestTo(t, N, X, mag) && r == Encoded(t, sign, mag)
  }

  /** Being correctly rounded is being the code of the true magnitude. */
  lemma RoundedIsCorrect(t: Format, m: string, exponent: int, sign: bool, r: Result<nat>)
    requires ScanOf(t, m).significand > 0
    ensures var st := ScanOf(t, m);
            var e := exponent + st.exponent + BitLength(st.significand) - 1;
            CorrectlyRounded(t, sign, DigitsValue(m), UnitExponent(t, m, exponent), r) <==>
            r == Encoded(t, sign, TrueMag(t, st.significand, e, st.seenTrailingNonZero))
  {
    hide BitLength, ScanOf, DigitsValue, NearestTo, Encoded, TrueMag;
    forall mag {
      TrueMagIsNearest(t, m, exponent, mag);
    }
  }

  lemma ZeroUnits(t: Format)
    ensures Units(t, 0) == 0
  {
  }

  lemma SubnormalEncodes(t: Format, sign: bool, mag: nat)
    requires mag < SigOne(t)
    ensures Encoded(t, sign, mag) == Ok(Signed(t, sign, mag))
  {
    if t.bits == 32 {
    } else {
    }
  }

  lemma ZeroDigits(t: Format, m: string, k: nat, rest: nat, sign: bool, exponent: int)
    requires Scanned(t, m, k, rest) && ScanOf(t, m).significand == 0
    ensures CorrectlyRounded(t, sign, DigitsValue(m), UnitExponent(t, m, exponent), Ok(Make(t, sign, MinExp(t), 0)))
  {
    hide Pow2, Nearest, Units;
    assert k == 0 && rest == 0 by {
      BitLengthZero();
      Pow2Four();
    }
    var X := UnitExponent(t, m, exponent);
    assert Scaled(0, Up(X)) == 0;
    ZeroUnits(t);
    NearestExact(t, 0, Up(-X), 0, 0);
    MakeIsSigned(t, sign, MinExp(t), 0);
    SubnormalEncodes(t, sign, 0);
    assert NearestTo(t, DigitsValue(m), X, 0);
  }

  // ---------------------------------------------------------------- the exponent loop

  datatype ExponentRead = ExponentRead(value: nat, unread: string)

  /** The exponent loop, which stops early once the exponent looks too large. */
  function ReadExponent(t: Format, x: string, add: int, value: nat): (r: ExponentRead)
    requires forall c :: c in x ==> c == '_' || DecimalDigit(c).Ok?
  {
    if x == "" then ExponentRead(value, "")
    else if x[0] == '_' then ReadExponent(t, x[1..], add, value)
    else
      assert x[0] in x;
      var next := value * 10 + DecimalDigit(x[0]).value;
      if next + add >= MaxExp(t) then ExponentRead(next, x[1..]) else ReadExponent(t, x[1..], add, next)
  }

  method ReadExponentDigits(t: Format, x: string, add: int) returns (exponent: nat)
    requires forall c :: c in x ==> c == '_' || DecimalDigit(c).Ok?
    ensures exponent == ReadExponent(t, x, add, 0).value
  {
    exponent := 0;
    var i := 0;
    while i < |x|
      invariant 0 <= i <= |x|
      invariant ReadExponent(t, x[i..], add, exponent).value == ReadExponent(t, x, add, 0).value
    {
      ghost var rest := x[i..];
      assert rest[1..] == x[i + 1..];
      if x[i] != '_' {
        assert x[i] in x;
        exponent := exponent * 10 + DecimalDigit(x[i]).value;
        if exponent + add >= MaxExp(t) {
          break;
        }
      }
      i := i + 1;
    }
  }

  /** significand_exponent_add: the dot's part of the exponent, with the sign of the exponent's text; it is
      left at zero when the exponent has no sign. */
  function ExponentAdd(tail: string, significandExponent: int): (r: int)
    requires |tail| > 1
  {
    if tail[1] == '-' then -significandExponent else if tail[1] == '+' then significandExponent else 0
  }

  function TailExponent(t: Format, tail: string, significandExponent: int): (e: int)
    requires TailShape(tail)
  {
    if tail == "" then 0
    else
      var v: int := ReadExponent(t, ExponentDigits(tail), ExponentAdd(tail, significandExponent), 0).value;
      if tail[1] == '-' then -v else v
  }

  /** The exponent as far as ParseHex reads it. */
  function ParsedExponent(t: Format, s: string): (e: int)
    requires HexShape(s)
  {
    TailExponent(t, Tail(s), ScanOf(t, Mantissa(s)).exponent)
  }

  method ParseExponent(t: Format, tail: string, significandExponent: int) returns (exponent: int)
    requires TailShape(tail)
    ensures exponent == TailExponent(t, tail, significandExponent)
  {
    hide ReadExponent;
    exponent := 0;
    var exponentIsNeg := false;
    if tail != "" {
      var j := 1;
      var significandExponentAdd := 0;
      if tail[j] == '-' {
        exponentIsNeg := true;
        significandExponentAdd := -significandExponent;
        j := j + 1;
      } else if tail[j] == '+' {
        j := j + 1;
        significandExponentAdd := significandExponent;
      }
      assert tail[j..] == ExponentDigits(tail);
      exponent := ReadExponentDigits(t, tail[j..], significandExponentAdd);
    }
    if exponentIsNeg {
      exponent := -exponent;
    }
  }
}
