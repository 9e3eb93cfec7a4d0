/** FloatParser::ParseHex, src/literal.cc: the bits of a hexadecimal float. */
module FloatParser {
  import opened Arith
  import opened Common
  import opened IntLiteral
  import opened FloatFormat
  import opened FloatRounding
  import opened HexRounding
  import opened HexScan
  import opened HexExponent

  /** The branch for exponents at or below the top subnormal one. */
  method RoundSubnormal(t: Format, isNeg: bool, S: nat, e: int, flag: bool) returns (r: Result<nat>)
    requires S > 0 && e <= MinExp(t)
    ensures r == Encoded(t, isNeg, ReadMag(t, S, e, flag))
  {
    hide Pow2, Shr, Low, BitLength, ShiftAndRoundToNearest, ReadMag, Make;
    var significand, seenTrailingNonZero, exponent := S, flag, e;
    var significandBits := BitLength(significand);
    if significandBits > t.sigBits {
      var shift := significandBits - t.sigBits;
      seenTrailingNonZero := seenTrailingNonZero || Low(significand, shift - 1) != 0;
      significand := Shr(significand, shift);
    } else {
      SubnormalLeftFits(t, significand);
      if significandBits < t.sigBits {
        significand := Low(significand * Pow2(t.sigBits - significandBits), t.bits);
      }
    }
    ghost var s1, flag1 := significand, seenTrailingNonZero;
    var shift := MinExp(t) - exponent;
    ghost var mag := 0;
    if shift <= t.sigBits {
      if shift != 0 {
        seenTrailingNonZero := seenTrailingNonZero || Low(significand, shift - 1) != 0;
        significand := Low(ShiftAndRoundToNearest(t, significand, shift, seenTrailingNonZero), t.sigBits);
      }
      mag := significand;
      exponent := MinExp(t);
    }
    SubnormalRounds(t, isNeg, S, e, flag, s1, flag1, mag);
    MakeIsSigned(t, isNeg, MinExp(t), mag);
    SubnormalEncodes(t, isNeg, mag);
    if shift <= t.sigBits && significand != 0 {
      return Ok(Make(t, isNeg, exponent, significand));
    }
    r := Ok(Make(t, isNeg, MinExp(t), 0));
  }

  lemma SubnormalLeftFits(t: Format, S: nat)
    requires S > 0 && BitLength(S) <= t.sigBits
    ensures var shifted := S * Pow2(t.sigBits - BitLength(S));
            shifted >= 0 && Low(shifted, t.bits) == shifted && (BitLength(S) == t.sigBits ==> shifted == S)
  {
    hide Pow2, BitLength, Low;
    var b := BitLength(S);
    BitLengthBounds(S);
    Pow2Four();
    Pow2Add(b, t.sigBits - b);
    MulLeRight(S, Pow2(b), Pow2(t.sigBits - b));
    MulLeRight(0, S, Pow2(t.sigBits - b));
    Pow2Mono(t.sigBits + 1, t.bits);
    HalfPow(t.sigBits + 1);
    LowSmall(S * Pow2(t.sigBits - b), t.bits);
  }

  /** The last part: normalise, round, pack. */
  method RoundHex(t: Format, isNeg: bool, S: nat, exponent0: int, flag: bool) returns (r: Result<nat>)
    requires S > 0 && BitLength(S) <= t.sigBits + 5 && (flag ==> BitLength(S) > t.sigBits + 1)
    ensures var e := exponent0 + BitLength(S) - 1;
            r == Encoded(t, isNeg, ReadMag(t, S, e, flag))
  {
    hide Pow2, Shr, Low, BitLength, ShiftAndRoundToNearest, ReadMag, Make;
    var significand, seenTrailingNonZero := S, flag;
    var significandBits := BitLength(significand);
    var exponent := exponent0 + significandBits - 1;
    if exponent <= MinExp(t) {
      r := RoundSubnormal(t, isNeg, S, exponent, flag);
    } else {
      ghost var e := exponent;
      if significandBits > t.sigBits + 1 {
        significand := ShiftAndRoundToNearest(t, significand, significandBits - t.sigBits - 1, seenTrailingNonZero);
        if significand > 2 * SigOne(t) - 1 {
          exponent := exponent + 1;
        }
      } else {
        ShiftLeftFits(t, significand);
        ShortPadded(t, significand);
        significand := Low(significand * Pow2(t.sigBits + 1 - significandBits), t.bits);
      }
      NormalRounds(t, isNeg, S, e, flag, significand);
      SigFieldOf(t, significand);
      MakeNormal(t, isNeg, e, significand, exponent, Low(significand, t.sigBits));
      if exponent >= MaxExp(t) {
        return Error;
      }
      r := Ok(Make(t, isNeg, exponent, Low(significand, t.sigBits)));
    }
  }

  lemma ShiftLeftFits(t: Format, S: nat)
    requires S > 0 && BitLength(S) <= t.sigBits + 1
    ensures var shifted := S * Pow2(t.sigBits + 1 - BitLength(S));
            shifted >= 0 && Low(shifted, t.bits) == shifted == Padded(t, S)
  {
    hide Pow2, BitLength, Low;
    PaddedBounds(t, S);
    Pow2Four();
    Pow2Mono(PaddedBits(t, S), t.bits);
    LowSmall(Padded(t, S), t.bits);
  }

  lemma SigFieldOf(t: Format, M: nat)
    requires SigOne(t) <= M <= 2 * SigOne(t)
    ensures Low(M, t.sigBits) == if M == 2 * SigOne(t) then 0 else M - SigOne(t)
  {
    SigOneIsPow2(t);
    DivMod(M, SigOne(t), if M == 2 * SigOne(t) then 2 else 1, if M == 2 * SigOne(t) then 0 else M - SigOne(t));
  }

  /** The result is the code of the magnitude below a nearest one. */
  ghost predicate RoundedBelow(t: Format, sign: bool, N: nat, X: int, r: Result<nat>) {
    exists mag :: mag > 0 && NearestTo(t, N, X, mag) && r == Encoded(t, sign, mag - 1)
  }

  /** What ParseHex makes of a literal. With the exponent it reads, the outcome is the number nearest to the
      exact value of the digits, ties to even, or the overflow error when that is infinity, exactly on the
      literals that HexMisrounds leaves; on the others it is the number below that one. With the exponent
      as written, it is the nearest exactly on the literals of RightAsWritten. */
  ghost predicate ReadsHex(t: Format, s: string, r: Result<nat>)
    requires HexShape(s)
  {
    var m := Mantissa(s);
    var read, written := UnitExponent(t, m, ParsedExponent(t, s)), UnitExponent(t, m, FullExponent(s));
    (CorrectlyRounded(t, IsNegative(s), DigitsValue(m), read, r) <==> !HexMisrounds(t, s)) &&
    (HexMisrounds(t, s) ==> RoundedBelow(t, IsNegative(s), DigitsValue(m), read, r)) &&
    (CorrectlyRounded(t, IsNegative(s), DigitsValue(m), written, r) <==> RightAsWritten(t, s))
  }

  method ParseHex(t: Format, s: string) returns (r: Result<nat>)
    requires HexShape(s)
    ensures ReadsHex(t, s, r)
  {
    hide Pow2, BitLength, ReadMag, Misrounds, CorrectlyRounded, RoundedBelow, ScanOf, DigitsValue, Encoded,
         TailExponent, TailShape, MantissaLength, AgreesWith, FullExponent;
    var isNeg, i := false, 0;
    if s[0] == '-' {
      isNeg := true;
      i := 1;
    } else if s[0] == '+' {
      i := 1;
    }
    i := i + 2;
    var st, n := ScanMantissa(t, s[i..]);
    ghost var m := Mantissa(s);
    ghost var k, rest := ScanIsValue(t, m);
    PowZero();
    if st.significand == 0 {
      ZeroDigits(t, m, k, rest, isNeg, ParsedExponent(t, s));
      ZeroDigits(t, m, k, rest, isNeg, FullExponent(s));
      return Ok(Make(t, isNeg, MinExp(t), 0));
    }
    var exponent := ParseExponent(t, s[i..][n..], st.exponent);
    r := RoundHex(t, isNeg, st.significand, exponent + st.exponent, st.seenTrailingNonZero);
    ReadIsRounded(t, m, exponent, isNeg, r);
    WrittenIsRead(t, s, r);
  }

  /** The magnitude ParseHex arrives at, against the literal's value at the exponent it read. */
  lemma ReadIsRounded(t: Format, m: string, exponent: int, sign: bool, r: Result<nat>)
    requires ScanOf(t, m).significand > 0
    requires var st := ScanOf(t, m);
             r == Encoded(t, sign, ReadMag(t, st.significand, LeadingExp(st, exponent), st.seenTrailingNonZero))
    ensures var st := ScanOf(t, m);
            var wrong := Misrounds(t, st.significand, LeadingExp(st, exponent), st.seenTrailingNonZero);
            var X := UnitExponent(t, m, exponent);
            (CorrectlyRounded(t, sign, DigitsValue(m), X, r) <==> !wrong) &&
            (wrong ==> RoundedBelow(t, sign, DigitsValue(m), X, r))
  {
    hide BitLength, ScanOf, DigitsValue, NearestTo, Encoded, TrueMag, Misrounds, CorrectlyRounded;
    var st := ScanOf(t, m);
    var e := LeadingExp(st, exponent);
    ReadMagRight(t, sign, st.significand, e, st.seenTrailingNonZero);
    RoundedIsCorrect(t, m, exponent, sign, r);
    TrueMagIsNearest(t, m, exponent, TrueMag(t, st.significand, e, st.seenTrailingNonZero));
  }

  // ---------------------------------------------------------------- exact values

  lemma ExactMeansNoRemainder(t: Format, S: nat, K: nat, rest: nat, T: nat, e: nat, num: nat, den: nat, q: nat,
                              mag: nat)
    requires rest < K && T > 0
    requires var M := Shr(S, T); M < 2 * SigOne(t) && (e == 0 || SigOne(t) <= M) && q == e * SigOne(t) + M
    requires num == (S * K + rest) * Pow2(e) && den == K * Pow2(T) && Units(t, mag) * den == num
    ensures Low(S, T) == 0 && rest == 0
  {
    hide Pow2, Units, Shr, Low;
    var w, d, rem := Pow2(e), Pow2(T), Low(S, T);
    ShrLow(S, T);
    MulLt(K, 0, d);
    NeighbourDistances(t, S, Shr(S, T), d, rem, K, rest, e, num, den, q);
    NoRemainderArith(rem, d, K, rest, w);
    if mag < q {
      UnitsMono(t, mag, q);
      LessRight(Units(t, mag), Units(t, q), den);
    } else if mag > q {
      if mag > q + 1 { UnitsMono(t, q + 1, mag); }
      MulLeRight(Units(t, q + 1), Units(t, mag), den);
    }
  }

  lemma NoRemainderArith(rem: nat, d: nat, K: nat, rest: nat, w: nat)
    requires rem < d && rest < K && w > 0
    ensures w * (rem * K + rest) >= 0
    ensures w * ((d - rem) * K - rest) > 0
    ensures w * (rem * K + rest) == 0 ==> rem == 0 && rest == 0
  {
    MulLe(K, 0, rem);
    MulLe(K, 1, d - rem);
    MulLt(w, 0, (d - rem) * K - rest);
    MulLe(w, 0, rem * K + rest);
    if rem > 0 { MulLe(K, 1, rem); }
    if rem * K + rest > 0 { MulLt(w, 0, rem * K + rest); }
  }

  /** The literal's value is exactly the number mag. */
  ghost predicate IsExactly(t: Format, N: nat, X: int, mag: nat) {
    Scaled(N, Up(X)) == Scaled(Units(t, mag), Up(-X))
  }

  lemma ExactlyRescaled(N: nat, U: nat, x: nat, y: nat, c: nat, x': nat, y': nat)
    requires c > 0 && x' == x * c && y' == y * c
    ensures Scaled(N, x) == Scaled(U, y) <==> Scaled(N, x') == Scaled(U, y')
  {
    hide Scaled;
    ScaledTimes(N, x, c, x');
    ScaledTimes(U, y, c, y');
    ScaleOrder(c, Scaled(N, x), Scaled(U, y));
    MulCommutes(c, Scaled(N, x));
    MulCommutes(c, Scaled(U, y));
  }

  lemma ExactlyRatio(t: Format, N: nat, a: nat, b: nat, mag: nat)
    ensures IsExactly(t, N, a - b, mag) <==> Scaled(N, Pow2(a)) == Scaled(Units(t, mag), Pow2(b))
  {
    hide Pow2, Scaled, Up, Units;
    if a >= b {
      UpTimes(a - b, b);
      ExactlyRescaled(N, Units(t, mag), Up(a - b), 1, Pow2(b), Pow2(a), Pow2(b));
    } else {
      UpTimes(b - a, a);
      ExactlyRescaled(N, Units(t, mag), 1, Up(b - a), Pow2(a), Pow2(a), Pow2(b));
    }
  }

  lemma NotMisrounded(t: Format, S: nat, e: int)
    requires S > 0
    requires RightShift(t, S, e) == 0 || Low(Padded(t, S), RightShift(t, S, e)) == 0
    ensures !Misrounds(t, S, e, false)
  {
    hide Pow2, Shr, Low, BitLength, Padded;
    if BitLength(S) > t.sigBits {
      UnpaddedIs(t, S);
    }
  }

  /** A literal whose value the format can express is never misrounded. */
  lemma ExactNeverMisrounds(t: Format, m: string, exponent: int, mag: nat)
    requires ScanOf(t, m).significand > 0 && IsExactly(t, DigitsValue(m), UnitExponent(t, m, exponent), mag)
    ensures var st := ScanOf(t, m);
            !Misrounds(t, st.significand, exponent + st.exponent + BitLength(st.significand) - 1,
                       st.seenTrailingNonZero)
  {
    hide BitLength, Pow2, Shr, Low, DigitsValue, ScanOf, Scaled, Padded, Units, IsExactly, Misrounds;
    var k, rest := ScanIsValue(t, m);
    var st := ScanOf(t, m);
    var S := st.significand;
    var e := exponent + st.exponent + BitLength(S) - 1;
    var c, T, step := PadBits(t, BitLength(S)), RightShift(t, S, e), ExponentStep(t, e);
    var N, X := Padded(t, S) * Pow2(4 * k) + rest, UnitExponent(t, m, exponent);
    PaddedDigits(t, m, k, rest);
    TruncatedBits(t, S, e);
    ExactlyPadded(t, DigitsValue(m), c, N, X, step, 4 * k + T, mag);
    Pow2Add(4 * k, T);
    if T > 0 {
      var q := Units(t, mag);
      ScaledIs(N, Pow2(step));
      ScaledIs(Units(t, mag), Pow2(4 * k + T));
      MulLe(SigOne(t), 0, step);
      ExactMeansNoRemainder(t, Padded(t, S), Pow2(4 * k), rest, T, step, Scaled(N, Pow2(step)), Pow2(4 * k + T),
                            step * SigOne(t) + Shr(Padded(t, S), T), mag);
    }
    NotMisrounded(t, S, e);
  }

  lemma ExactlyPadded(t: Format, N: nat, c: nat, N': nat, X: int, a: nat, b: nat, mag: nat)
    requires N' == Scaled(N, Pow2(c)) && a - b == X - c && IsExactly(t, N, X, mag)
    ensures Scaled(N', Pow2(a)) == Scaled(Units(t, mag), Pow2(b))
  {
    hide Pow2, Scaled, IsExactly, Units;
    ExactlyRatio(t, N, a + c, b, mag);
    Pow2Add(c, a);
    ScaledTwice(N, Pow2(c), Pow2(a), Pow2(a + c));
  }

  lemma ScaledTwice(N: nat, w: nat, c: nat, z: nat)
    requires z == w * c
    ensures Scaled(Scaled(N, w), c) == Scaled(N, z)
  {
    MulAssoc(N, w, c);
  }

  /** The number a representable literal is rounded to is itself. */
  lemma ExactIsNearest(t: Format, N: nat, X: int, mag: nat, m: nat)
    requires mag <= InfMag(t) && IsExactly(t, N, X, mag)
    ensures NearestTo(t, N, X, m) <==> m == mag
  {
    hide Nearest, Units, Up;
    NearestExact(t, Scaled(N, Up(X)), Up(-X), mag, m);
  }

  // ---------------------------------------------------------------- significands that fit

  /** The lower bits of a multiple of 2^i. */
  lemma LowOfShifted(S: nat, a: nat, i: nat, n: nat)
    requires S == a * Pow2(i) && n <= i
    ensures Low(S, n) == 0
  {
    hide Pow2, Shr, Low;
    ShlShr(a, i);
    ShrShr(S, n, i - n);
    ZeroSum(Pow2(n), Low(Shr(S, n), i - n), Low(S, n));
  }

  lemma ZeroSum(w: nat, x: nat, low: nat)
    requires w * x + low == 0
    ensures low == 0
  {
    MulLe(w, 0, x);
  }

  lemma NotHalf(h: nat, x: nat)
    requires h > 0
    ensures (2 * h) * x != h
  {
    if x > 0 { MulLe(2 * h, 1, x); }
  }

  /** With at most kSigBits bits above its zeros, nothing that is cut off has a bit set. */
  lemma FewBits(t: Format, S: nat, e: int, a: nat, i: nat)
    requires S > 0 && S == a * Pow2(i) && BitLength(S) - t.sigBits <= i
    ensures !Misrounds(t, S, e, false)
  {
    hide Pow2, Shr, Low, BitLength;
    var b, p := BitLength(S), t.sigBits;
    if b > p {
      LowOfShifted(S, a, i, b - p);
      LowOfShifted(S, a, i, b - p - 1);
      if e < MinExp(t) {
        var T := b - p + (MinExp(t) - e);
        BelowHalfBit(S, T);
        ShrShr(S, b - p, T - 1 - (b - p));
        HalfPow(b - p);
        NotHalf(Pow2(b - p - 1), Low(Shr(S, b - p), T - 1 - (b - p)));
      }
    }
  }

  /** A digit string of at most kSigBits significant bits, a * 2^j, is scanned without loss. */
  lemma ShortScan(t: Format, m: string, a: nat, j: nat) returns (i: nat)
    requires ScanOf(t, m).significand > 0 && DigitsValue(m) == a * Pow2(j) && a < SigOne(t)
    ensures var st := ScanOf(t, m);
            !st.seenTrailingNonZero && st.significand == a * Pow2(i) && BitLength(st.significand) - t.sigBits <= i
  {
    hide Pow2, Shr, Low, BitLength, ScanOf, DigitsValue, FractionDigits;
    var k, rest := ScanIsValue(t, m);
    var S := ScanOf(t, m).significand;
    var b, K := BitLength(S), Pow2(4 * k);
    BitLengthBounds(S);
    SigOneIsPow2(t);
    LessRight(a, SigOne(t), Pow2(j));
    Pow2Add(t.sigBits, j);
    Pow2Add(b - 1, 4 * k);
    MulLeRight(Pow2(b - 1), S, K);
    if t.sigBits + j <= b - 1 + 4 * k {
      Pow2Mono(t.sigBits + j, b - 1 + 4 * k);
      assert false;
    }
    PowZero();
    i := if k == 0 then j else j - 4 * k;
    Pow2Add(i, 4 * k);
    MulAssoc(a, Pow2(i), K);
    MulCommutes(S, K);
    MulCommutes(a * Pow2(i), K);
    DivMod(DigitsValue(m), K, S, rest);
    MulLe(Pow2(i), 0, a);
    DivMod(DigitsValue(m), K, a * Pow2(i), 0);
  }

  /** A literal whose digits have at most kSigBits significant bits, and whose exponent is read to its end, is
      rounded to nearest whatever that exponent is. */
  lemma FittingIsRight(t: Format, s: string, a: nat, j: nat)
    requires HexShape(s) && WholeExponentRead(t, s) && DigitsValue(Mantissa(s)) == a * Pow2(j) && a < SigOne(t)
    ensures !HexMisrounds(t, s) && RightAsWritten(t, s)
  {
    hide Pow2, BitLength, ScanOf, DigitsValue, Misrounds, ParsedExponent, FullExponent, WholeExponentRead, HexShape,
         Mantissa;
    if ScanOf(t, Mantissa(s)).significand > 0 {
      var st := ScanOf(t, Mantissa(s));
      var i := ShortScan(t, Mantissa(s), a, j);
      FewBits(t, st.significand, LeadingExp(st, ParsedExponent(t, s)), a, i);
      WholeExponentIsFull(t, s);
    }
  }
}
