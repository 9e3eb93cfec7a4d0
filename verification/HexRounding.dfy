/** The tail of FloatParser::ParseHex, src/literal.cc: from a scanned significand and exponent to bits. The
    result is the nearest number of the format, or the one below it exactly where Misrounds holds. */
module HexRounding {
  import opened Arith
  import opened Common
  import opened FloatFormat
  import opened FloatRounding

  /** The number of significant bits: kBits - Clz(x). */
  function BitLength(x: nat): (n: nat) {
    if x == 0 then 0 else 1 + BitLength(x / 2)
  }

  lemma {:induction false} BitLengthBounds(x: nat)
    requires x > 0
    ensures BitLength(x) > 0 && Pow2(BitLength(x) - 1) <= x < Pow2(BitLength(x))
    decreases x
  {
    if x > 1 {
      BitLengthBounds(x / 2);
    }
  }

  /** A magnitude with its sign, or the overflow error. */
  function Encoded(t: Format, sign: bool, mag: nat): (r: Result<nat>) {
    if mag >= InfMag(t) then Error else Ok(Signed(t, sign, mag))
  }

  // The exact value behind a scan is (S + fraction) * 2^(e - b + 1), with b the bit length of S. The
  // following put S in at least kSigBits + 1 bits by appending zeros, and say how far it is shifted
  // right, and at which exponent step it stands, in the format.

  function PadBits(t: Format, b: nat): (c: nat) {
    if b <= t.sigBits then t.sigBits + 1 - b else 0
  }

  function Padded(t: Format, S: nat): (r: nat) {
    S * Pow2(PadBits(t, BitLength(S)))
  }

  function PaddedBits(t: Format, S: nat): (b: nat)
    ensures b > t.sigBits
  {
    BitLength(S) + PadBits(t, BitLength(S))
  }

  function RightShift(t: Format, S: nat, e: int): (r: nat) {
    PaddedBits(t, S) - t.sigBits + if e <= MinExp(t) then MinExp(t) - e else -1
  }

  function ExponentStep(t: Format, e: int): (r: nat) {
    if e <= MinExp(t) then 0 else e - MinExp(t) - 1
  }

  /** The correctly rounded magnitude. */
  function TrueMag(t: Format, S: nat, e: int, below: bool): (r: nat) {
    RoundedMag(t, Padded(t, S), RightShift(t, S, e), ExponentStep(t, e), below)
  }

  /** The scans on which ParseHex does not round to nearest. `flag` is whether a non-zero digit was dropped.
      - A normal number: nothing dropped, an even quotient, and more than half left over, which the
        flag does not cover.
      - At the top subnormal exponent: the excess bits are cut off though they round up.
      - Below it: exactly half plus the highest of the bits cut off by the normalisation, the one
        that update_seen_trailing_non_zero leaves out. */
  predicate Misrounds(t: Format, S: nat, e: int, flag: bool) {
    var b, p := BitLength(S), t.sigBits;
    if e > MinExp(t) then
      e < MaxExp(t) && b > p + 1 && !flag && Low(S, b - p - 1) > Pow2(b - p - 2) && Shr(S, b - p - 1) % 2 == 0
    else if e == MinExp(t) then
      b > p && RoundsUp(S, b - p, flag)
    else
      var T := b - p + (MinExp(t) - e);
      b > p && MinExp(t) - e <= p && !flag && Low(S, T) == Pow2(T - 1) + Pow2(b - p - 1) && Shr(S, T) % 2 == 0
  }

  /** The magnitude ParseHex arrives at: the nearest one, or the one below it where it misrounds. */
  function ReadMag(t: Format, S: nat, e: int, flag: bool): (r: nat) {
    var mag := TrueMag(t, S, e, flag);
    if Misrounds(t, S, e, flag) && mag > 0 then mag - 1 else mag
  }

  predicate RoundsUp(S: nat, T: nat, below: bool)
    requires T > 0
  {
    Low(S, T) >= Pow2(T - 1) && (Shr(S, T) % 2 == 1 || below || Low(S, T - 1) != 0)
  }

  lemma RoundHalfEvenUp(S: nat, T: nat, below: bool)
    requires T > 0
    ensures RoundHalfEven(S, T, below) == Shr(S, T) + if RoundsUp(S, T, below) then 1 else 0
  {
    hide Pow2, Shr, Low;
    HalfPow(T);
    BelowHalfBit(S, T);
  }

  lemma PaddedBounds(t: Format, S: nat)
    requires S > 0
    ensures Pow2(PaddedBits(t, S) - 1) <= Padded(t, S) < Pow2(PaddedBits(t, S))
  {
    hide Pow2, BitLength;
    BitLengthBounds(S);
    var b := BitLength(S);
    var c := PadBits(t, b);
    Pow2Add(b, c);
    Pow2Add(b - 1, c);
    MulLeRight(Pow2(b - 1), S, Pow2(c));
    MulLeRight(S + 1, Pow2(b), Pow2(c));
    MulSucc(Pow2(c), S);
    if c == 0 { assert Pow2(0) == 1; }
  }

  // ---------------------------------------------------------------- normal numbers

  /** Packing a rounded significand M, carry included, is adding it to its exponent step. */
  lemma MakeNormal(t: Format, sign: bool, e: int, M: nat, exponent: int, sig: nat)
    requires e > MinExp(t) && SigOne(t) <= M <= 2 * SigOne(t)
    requires exponent == e + (if M > 2 * SigOne(t) - 1 then 1 else 0)
    requires sig == if M == 2 * SigOne(t) then 0 else M - SigOne(t)
    ensures ExponentStep(t, e) * SigOne(t) >= 0
    ensures exponent >= MaxExp(t) <==> ExponentStep(t, e) * SigOne(t) + M >= InfMag(t)
    ensures exponent < MaxExp(t) ==> Make(t, sign, exponent, sig) == Signed(t, sign, ExponentStep(t, e) * SigOne(t) + M)
  {
    if t.bits == 32 {
    } else {
    }
  }

  lemma EncodedCapped(t: Format, sign: bool, x: nat, y: nat)
    ensures Encoded(t, sign, x) == Encoded(t, sign, if y <= InfMag(t) then y else InfMag(t)) <==>
            x == y || (x >= InfMag(t) && y >= InfMag(t))
  {
  }

  lemma TrueMagIs(t: Format, S: nat, e: int, below: bool, step: int)
    requires step == ExponentStep(t, e) * SigOne(t)
    ensures step >= 0
    ensures var y := step + RoundHalfEven(Padded(t, S), RightShift(t, S, e), below);
            TrueMag(t, S, e, below) == if y <= InfMag(t) then y else InfMag(t)
  {
    hide RoundHalfEven, Padded, RightShift;
    MulLe(SigOne(t), 0, ExponentStep(t, e));
  }

  lemma StepBelowInfinity(t: Format, e: int, M: nat)
    requires e > MinExp(t) && SigOne(t) <= M < 2 * SigOne(t)
    ensures ExponentStep(t, e) * SigOne(t) >= 0
    ensures e < MaxExp(t) <==> ExponentStep(t, e) * SigOne(t) + M < InfMag(t)
  {
    if t.bits == 32 {
    } else {
    }
  }

  lemma SigOneIsPow2(t: Format)
    ensures SigOne(t) == Pow2(t.sigBits) && 2 * SigOne(t) == Pow2(t.sigBits + 1)
  {
    TraitsAsShifts(t);
  }

  /** A significand too long by one to four bits. */
  lemma ExcessBits(t: Format, S: nat)
    requires var b := BitLength(S); t.sigBits < b - 1 && b <= t.sigBits + 5
    ensures var shift := BitLength(S) - t.sigBits - 1;
            SigOne(t) <= Shr(S, shift) < 2 * SigOne(t) && S + Pow2(shift - 1) < Pow2(t.bits)
  {
    hide BitLength, Pow2, Shr;
    var b := BitLength(S);
    var shift := b - t.sigBits - 1;
    assert S > 0 by { BitLengthZero(); }
    BitLengthBounds(S);
    SigOneIsPow2(t);
    ShrBound(S, shift, b);
    ShrBound(S, shift, b - 1);
    Pow2Mono(shift - 1, b);
    Pow2Mono(b + 1, t.bits);
    HalfPow(b + 1);
  }

  lemma BitLengthZero()
    ensures BitLength(0) == 0
  {
  }

  lemma ShortPadded(t: Format, S: nat)
    requires S > 0 && BitLength(S) <= t.sigBits + 1
    ensures SigOne(t) <= Padded(t, S) < 2 * SigOne(t)
  {
    hide BitLength, Pow2;
    PaddedBounds(t, S);
    SigOneIsPow2(t);
  }

  lemma UnshiftedRound(S: nat, below: bool)
    ensures RoundHalfEven(S, 0, below) == S
  {
    assert Pow2(0) == 1;
  }

  lemma UnpaddedIs(t: Format, S: nat)
    requires BitLength(S) > t.sigBits
    ensures Padded(t, S) == S && PaddedBits(t, S) == BitLength(S)
  {
    hide Pow2, BitLength;
    PowZero();
    assert S * 1 == S;
  }

  /** The rounded significand of a number above the subnormal range. */
  lemma NormalRounds(t: Format, sign: bool, S: nat, e: int, flag: bool, M: nat)
    requires S > 0 && e > MinExp(t) && BitLength(S) <= t.sigBits + 5 && (flag ==> BitLength(S) > t.sigBits + 1)
    requires M == if BitLength(S) > t.sigBits + 1 then ShiftAndRoundToNearest(t, S, BitLength(S) - t.sigBits - 1, flag)
                  else Padded(t, S)
    ensures SigOne(t) <= M <= 2 * SigOne(t) && ExponentStep(t, e) * SigOne(t) >= 0
    ensures Encoded(t, sign, ExponentStep(t, e) * SigOne(t) + M) == Encoded(t, sign, ReadMag(t, S, e, flag))
  {
    hide BitLength, Pow2, Shr, Low, ShiftAndRoundToNearest, RoundHalfEven, Padded, TrueMag, ExponentStep, Encoded;
    var b, step := BitLength(S), ExponentStep(t, e) * SigOne(t);
    TrueMagIs(t, S, e, flag, step);
    if b > t.sigBits + 1 {
      var shift := b - t.sigBits - 1;
      ExcessBits(t, S);
      ShiftAndRoundCarries(t, S, shift, flag);
      UnpaddedIs(t, S);
      RoundHalfEvenUp(S, shift, flag);
      BelowHalfBit(S, shift);
      StepBelowInfinity(t, e, Shr(S, shift));
      if Misrounds(t, S, e, flag) {
        StepBelowInfinity(t, e, Shr(S, shift) + 1);
      }
      EncodedCapped(t, sign, step + M, step + RoundHalfEven(S, shift, flag));
    } else {
      ShortPadded(t, S);
      UnshiftedRound(M, flag);
      EncodedCapped(t, sign, step + M, step + M);
    }
  }

  // ---------------------------------------------------------------- subnormal numbers

  /** Two shifts: the first drops j bits, the second rounds by k. What the second one's half bit sees. */
  lemma TwoShifts(S: nat, j: nat, k: nat)
    requires j > 0 && k > 0
    ensures Low(Shr(S, j), k) >= Pow2(k - 1) <==> Low(S, j + k) >= Pow2(j + k - 1)
    ensures Low(S, j + k - 1) == Pow2(j) * Low(Shr(S, j), k - 1) + Low(S, j)
    ensures Low(S, j + k - 1) == 0 <==> Low(Shr(S, j), k - 1) == 0 && Low(S, j) == 0
  {
    hide Pow2, Shr, Low;
    ShrShr(S, j, k);
    ShrShr(S, j, k - 1);
    Pow2Add(j, k - 1);
    DigitOrder(Pow2(j), Low(Shr(S, j), k), Pow2(k - 1), Low(S, j));
    DigitOrder(Pow2(j), Low(Shr(S, j), k - 1), 1, Low(S, j));
  }

  lemma DigitOrder(w: nat, a: nat, b: nat, low: nat)
    requires low < w
    ensures w * a + low >= w * b <==> a >= b
    ensures a == 0 ==> w * a == 0
    ensures w * b >= 0 && w * a >= 0
  {
    if a >= b { MulLe(w, b, a); } else { MulLe(w, a + 1, b); MulSucc(w, a); }
    MulLe(w, 0, b);
    MulLe(w, 0, a);
  }

  /** The highest bit of the first shift's j dropped bits. */
  lemma HighestDropped(S: nat, j: nat)
    requires j > 0
    ensures Low(S, j) != 0 && Low(S, j - 1) == 0 <==> Low(S, j) == Pow2(j - 1)
  {
    hide Pow2, Shr, Low;
    BelowHalfBit(S, j);
  }

  /** Rounding in two steps, the flag ignoring the highest bit the first one dropped. */
  lemma TwoStepRounding(t: Format, S: nat, j: nat, k: nat, flag: bool)
    requires j > 0 && k > 0 && Shr(S, j) + Pow2(k - 1) < Pow2(t.bits)
    ensures var flag2 := flag || Low(S, j - 1) != 0 || Low(Shr(S, j), k - 1) != 0;
            RoundHalfEven(S, j + k, flag) == ShiftAndRoundToNearest(t, Shr(S, j), k, flag2) +
            if !flag && Low(S, j + k) == Pow2(j + k - 1) + Pow2(j - 1) && Shr(S, j + k) % 2 == 0 then 1 else 0
  {
    hide Pow2, Shr, Low, ShiftAndRoundToNearest, RoundHalfEven;
    var flag2 := flag || Low(S, j - 1) != 0 || Low(Shr(S, j), k - 1) != 0;
    ShiftAndRoundCarries(t, Shr(S, j), k, flag2);
    RoundHalfEvenUp(S, j + k, flag);
    ShrShr(S, j, k);
    TwoShifts(S, j, k);
    HighestDropped(S, j);
    BelowHalfBit(S, j + k);
    DroppedZero(Pow2(j), Low(Shr(S, j), k - 1), Low(S, j));
    BelowHalfBit(S, j);
    HalfPow(j);
  }

  lemma DroppedZero(w: nat, a: nat, low: nat)
    requires low < w
    ensures a != 0 ==> w * a + low >= w
    ensures a == 0 ==> w * a + low == low
  {
    if a != 0 { MulLe(w, 1, a); }
  }

  /** A value below half the smallest subnormal. */
  lemma TooSmall(S: nat, T: nat, below: bool)
    requires T > 0 && S < Pow2(T - 1)
    ensures RoundHalfEven(S, T, below) == 0
  {
    hide Pow2, Shr, Low, RoundHalfEven;
    HalfPow(T);
    LowSmall(S, T);
    RoundHalfEvenUp(S, T, below);
  }

  lemma LastBitOfDouble(a: nat, d: nat)
    requires d == 2 * a
    ensures Shr(d, 1) == a && Low(d, 1) == 0 && Low(d, 0) == 0
  {
    assert Pow2(1) == 2 && Pow2(0) == 1;
  }

  /** The source's normalisation to kSigBits bits, on the padded significand. */
  lemma Normalized(t: Format, S: nat)
    requires S > 0
    ensures var b, p, j := BitLength(S), t.sigBits, PaddedBits(t, S) - t.sigBits;
            Shr(Padded(t, S), j) == (if b > p then Shr(S, b - p) else S * Pow2(p - b)) &&
            (Low(Padded(t, S), j - 1) != 0 <==> b > p && Low(S, b - p - 1) != 0) &&
            (b <= p ==> j == 1 && Low(Padded(t, S), 1) == 0)
  {
    hide BitLength, Pow2, Shr, Low;
    var b, p := BitLength(S), t.sigBits;
    if b > p {
      UnpaddedIs(t, S);
    } else {
      HalfPow(p + 1 - b);
      SwapFactors(S, 2, Pow2(p - b));
      MulAssoc(S, 2, Pow2(p - b));
      LastBitOfDouble(S * Pow2(p - b), Padded(t, S));
    }
  }

  lemma NormalizedBound(t: Format, S: nat)
    requires S > 0
    ensures var s1 := Shr(Padded(t, S), PaddedBits(t, S) - t.sigBits);
            SigOne(t) <= 2 * s1 < 2 * SigOne(t)
  {
    hide BitLength, Pow2, Shr, Padded, PaddedBits;
    var j := PaddedBits(t, S) - t.sigBits;
    PaddedBounds(t, S);
    ShrBound(Padded(t, S), j, PaddedBits(t, S));
    ShrBound(Padded(t, S), j, PaddedBits(t, S) - 1);
    SigOneIsPow2(t);
    HalfPow(t.sigBits);
  }

  /** With nothing to normalise away, the two halves of the padding never misround. */
  lemma EvenNotOdd(T: nat, x: nat, k: nat)
    requires T == k + 1 && k > 0 && x < Pow2(k)
    ensures 2 * x != Pow2(T - 1) + Pow2(0)
  {
    assert Pow2(0) == 1;
    HalfPow(k);
  }

  /** Misrounding below the normal range, on the padded significand. */
  lemma MisroundsPadded(t: Format, S: nat, e: int, flag: bool)
    requires S > 0 && e <= MinExp(t)
    ensures var Sn, j, k := Padded(t, S), PaddedBits(t, S) - t.sigBits, MinExp(t) - e;
            Misrounds(t, S, e, flag) <==>
            if k == 0 then RoundsUp(Sn, j, flag)
            else k <= t.sigBits && !flag && Low(Sn, j + k) == Pow2(j + k - 1) + Pow2(j - 1) && Shr(Sn, j + k) % 2 == 0
  {
    hide BitLength, Pow2, Shr, Low, Padded, PaddedBits;
    var k := MinExp(t) - e;
    if BitLength(S) > t.sigBits {
      UnpaddedIs(t, S);
    } else {
      Normalized(t, S);
      PowZero();
      if k > 0 {
        var s1 := Shr(Padded(t, S), 1);
        ShrShr(Padded(t, S), 1, k);
        EvenNotOdd(1 + k, Low(s1, k), k);
        PowOne();
      }
    }
  }

  lemma PowZero()
    ensures Pow2(0) == 1
  {
  }

  lemma PowOne()
    ensures Pow2(1) == 2
  {
  }

  /** The magnitude computed for a number at or below the top subnormal exponent. */
  lemma SubnormalRounds(t: Format, sign: bool, S: nat, e: int, flag: bool, s1: nat, flag1: bool, mag: nat)
    requires S > 0 && e <= MinExp(t)
    requires s1 == if BitLength(S) > t.sigBits then Shr(S, BitLength(S) - t.sigBits)
             else S * Pow2(t.sigBits - BitLength(S))
    requires flag1 <==> flag || (BitLength(S) > t.sigBits && Low(S, BitLength(S) - t.sigBits - 1) != 0)
    requires var shift := MinExp(t) - e;
             mag == if shift > t.sigBits then 0 else if shift == 0 then s1
                    else Low(ShiftAndRoundToNearest(t, s1, shift, flag1 || Low(s1, shift - 1) != 0), t.sigBits)
    ensures mag < SigOne(t) && (MinExp(t) == e ==> mag != 0)
    ensures Encoded(t, sign, mag) == Encoded(t, sign, ReadMag(t, S, e, flag))
  {
    hide BitLength, Pow2, Shr, Low, ShiftAndRoundToNearest, RoundHalfEven, Padded, PaddedBits, TrueMag, Encoded,
         Misrounds;
    var Sn, j, shift := Padded(t, S), PaddedBits(t, S) - t.sigBits, MinExp(t) - e;
    TrueMagIs(t, S, e, flag, 0);
    Normalized(t, S);
    NormalizedBound(t, S);
    MisroundsPadded(t, S, e, flag);
    EncodedCapped(t, sign, mag, RoundHalfEven(Sn, j + shift, flag));
    if shift > t.sigBits {
      PaddedBounds(t, S);
      Pow2Mono(PaddedBits(t, S), j + shift - 1);
      TooSmall(Sn, j + shift, flag);
    } else if shift == 0 {
      RoundHalfEvenUp(Sn, j, flag);
    } else {
      SubnormalSum(t, s1, shift, flag1 || Low(s1, shift - 1) != 0);
      TwoStepRounding(t, Sn, j, shift, flag);
    }
  }

  /** The rounded subnormal fits its field and its addition does not wrap. */
  lemma SubnormalSum(t: Format, s1: nat, shift: nat, flag: bool)
    requires 0 < shift <= t.sigBits && s1 < SigOne(t)
    ensures s1 + Pow2(shift - 1) < Pow2(t.bits)
    ensures ShiftAndRoundToNearest(t, s1, shift, flag) < SigOne(t)
    ensures Low(ShiftAndRoundToNearest(t, s1, shift, flag), t.sigBits) == ShiftAndRoundToNearest(t, s1, shift, flag)
  {
    hide Pow2, Shr, Low, ShiftAndRoundToNearest;
    SigOneIsPow2(t);
    Pow2Mono(shift, t.sigBits);
    Pow2Mono(t.sigBits + 2, t.bits);
    HalfPow(t.sigBits + 2);
    HalfPow(t.sigBits + 1);
    HalfPow(shift);
    ShiftAndRoundCarries(t, s1, shift, flag);
    ShrHalf(s1, shift);
    LowSmall(ShiftAndRoundToNearest(t, s1, shift, flag), t.sigBits);
  }

  lemma ShrHalf(a: nat, k: nat)
    requires k > 0
    ensures 2 * Shr(a, k) <= a
  {
    hide Pow2, Shr, Low;
    ShrLow(a, k);
    Pow2Mono(1, k);
    PowOne();
    MulLeRight(2, Pow2(k), Shr(a, k));
  }

  // ---------------------------------------------------------------- the magnitude ParseHex arrives at

  /** Only numbers that round up are misrounded. */
  lemma MisroundsUp(t: Format, S: nat, e: int, flag: bool)
    requires S > 0 && Misrounds(t, S, e, flag)
    ensures RightShift(t, S, e) > 0 && RoundsUp(Padded(t, S), RightShift(t, S, e), flag)
  {
    hide BitLength, Pow2, Shr, Low, Padded;
    UnpaddedIs(t, S);
    BelowHalfBit(S, RightShift(t, S, e));
  }

  lemma ReadMagRight(t: Format, sign: bool, S: nat, e: int, flag: bool)
    requires S > 0
    ensures Encoded(t, sign, ReadMag(t, S, e, flag)) == Encoded(t, sign, TrueMag(t, S, e, flag)) <==>
            !Misrounds(t, S, e, flag)
    ensures Misrounds(t, S, e, flag) ==> TrueMag(t, S, e, flag) > 0
    ensures ReadMag(t, S, e, flag) <= TrueMag(t, S, e, flag) <= InfMag(t)
  {
    hide BitLength, Pow2, Shr, Low, Padded, RightShift, RoundHalfEven, Misrounds;
    if Misrounds(t, S, e, flag) {
      MisroundsUp(t, S, e, flag);
      RoundHalfEvenUp(Padded(t, S), RightShift(t, S, e), flag);
      MulLe(SigOne(t), 0, ExponentStep(t, e));
    }
  }
}
