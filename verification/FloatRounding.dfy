/** Rounding a significand: half to even against the nearest number of the format, and the shortcut of
    ShiftAndRoundToNearest in src/literal.cc. */
module FloatRounding {
  import opened Arith
  import opened FloatFormat

  /** S / 2^T rounded half to even, where `below` says whether the exact value exceeds S / 2^T. */
  function RoundHalfEven(S: nat, T: nat, below: bool): (r: nat) {
    var d := Pow2(T);
    var q, rem := Shr(S, T), Low(S, T);
    if T > 0 && (2 * rem > d || (2 * rem == d && (below || q % 2 == 1))) then q + 1 else q
  }

  lemma HalfCompare(rem: nat, K: nat, rest: nat, half: nat)
    requires rest < K
    ensures rem > half ==> rem * K + rest > (2 * half - rem) * K - rest
    ensures rem == half ==> (rem * K + rest) - ((2 * half - rem) * K - rest) == 2 * rest
    ensures rem < half ==> rem * K + rest < (2 * half - rem) * K - rest
  {
    if rem > half {
      MulLe(K, 2 * half - rem + 2, rem);
      assert K * (2 * half - rem + 2) == (2 * half - rem) * K + 2 * K;
    } else if rem < half {
      MulLe(K, rem + 2, 2 * half - rem);
      assert K * (rem + 2) == rem * K + 2 * K;
    }
  }

  /** The distances of S * K + rest (over K * d) to M and M + 1, for S == d * M + rem. */
  lemma Distances(M: nat, d: nat, rem: nat, K: nat, rest: nat, w: nat)
    ensures ((d * M + rem) * K + rest) * w - (M * w) * (K * d) == w * (rem * K + rest)
    ensures ((M + 1) * w) * (K * d) - ((d * M + rem) * K + rest) * w == w * ((d - rem) * K - rest)
  {
  }

  lemma WeightedOrder(w: nat, a: int, b: int)
    requires w > 0
    ensures w * a < w * b <==> a < b
    ensures w * a == w * b <==> a == b
    ensures w * a >= 0 <==> a >= 0
  {
    if a < b { MulLt(w, a, b); } else if b < a { MulLt(w, b, a); }
    if a >= 0 { MulLe(w, 0, a); } else { MulLe(w, a, -1); }
  }

  lemma WeightedBetween(t: Format, num: nat, den: nat, q: nat, w: nat, lo: nat, hi: nat, m: nat)
    requires den > 0 && q < InfMag(t) && w > 0
    requires num - Units(t, q) * den == w * lo && Units(t, q + 1) * den - num == w * hi
    ensures Nearest(t, num, den, m) <==> m == if lo < hi || (lo == hi && q % 2 == 0) then q else q + 1
  {
    hide Units, Nearest;
    WeightedOrder(w, lo, hi);
    MulLe(w, 0, lo);
    MulLe(w, 0, hi);
    NearestBetween(t, num, den, q, m);
  }

  /** The half-to-even choice compares the two distances. */
  lemma RoundChoice(S: nat, T: nat, K: nat, rest: nat, lo: int, hi: int)
    requires rest < K && T > 0
    requires lo == Low(S, T) * K + rest && hi == (Pow2(T) - Low(S, T)) * K - rest
    ensures lo >= 0 && hi >= 0
    ensures RoundHalfEven(S, T, rest > 0) ==
            Shr(S, T) + if lo < hi || (lo == hi && Shr(S, T) % 2 == 0) then 0 else 1
  {
    var rem, d := Low(S, T), Pow2(T);
    HalfCompare(rem, K, rest, Pow2(T - 1));
    MulLe(K, 0, rem);
    MulLe(K, 1, d - rem);
  }

  /** Below infinity: the nearest of all numbers is the half-to-even choice between the neighbours of a
      truncated significand M at exponent step e. */
  lemma NearestNeighbour(t: Format, S: nat, K: nat, rest: nat, T: nat, e: nat, m: nat, num: nat, den: nat, q: nat)
    requires rest < K && T > 0
    requires var M := Shr(S, T);
             M < 2 * SigOne(t) && (e == 0 || SigOne(t) <= M) && q == e * SigOne(t) + M < InfMag(t)
    requires num == (S * K + rest) * Pow2(e) && den == K * Pow2(T)
    ensures den > 0
    ensures Nearest(t, num, den, m) <==> m == q - Shr(S, T) + RoundHalfEven(S, T, rest > 0)
  {
    hide Pow2, Units, Nearest;
    var w, d := Pow2(e), Pow2(T);
    var M, rem := Shr(S, T), Low(S, T);
    var lo, hi := rem * K + rest, (d - rem) * K - rest;
    RoundChoice(S, T, K, rest, lo, hi);
    StepParity(t, e, M);
    MulLt(K, 0, d);
    ShrLow(S, T);
    NeighbourDistances(t, S, M, d, rem, K, rest, e, num, den, q);
    WeightedBetween(t, num, den, q, w, lo, hi, m);
  }

  lemma NeighbourDistances(t: Format, S: nat, M: nat, d: nat, rem: nat, K: nat, rest: nat, e: nat, num: nat, den: nat,
                           q: nat)
    requires M < 2 * SigOne(t) && (e == 0 || SigOne(t) <= M) && q == e * SigOne(t) + M
    requires S == d * M + rem && num == (S * K + rest) * Pow2(e) && den == K * d
    ensures num - Units(t, q) * den == Pow2(e) * (rem * K + rest)
    ensures Units(t, q + 1) * den - num == Pow2(e) * ((d - rem) * K - rest)
  {
    hide Pow2, Units;
    UnitsOf(t, e, M);
    UnitsOf(t, e, M + 1);
    Distances(M, d, rem, K, rest, Pow2(e));
  }

  lemma StepParity(t: Format, e: nat, M: nat)
    ensures (e * SigOne(t) + M) % 2 == M % 2
  {
    assert e * SigOne(t) == 2 * (e * (SigOne(t) / 2));
  }

  /** The correctly rounded magnitude of (S plus what is below it) / 2^T at exponent step e. */
  function RoundedMag(t: Format, S: nat, T: nat, e: nat, below: bool): (r: nat)
    ensures r <= InfMag(t)
  {
    MulLe(SigOne(t), 0, e);
    var r := e * SigOne(t) + RoundHalfEven(S, T, below);
    if r <= InfMag(t) then r else InfMag(t)
  }

  lemma OverflowBound(S: nat, M: nat, d: nat, rem: nat, K: nat, rest: nat, w: nat, num: int, den: int)
    requires S == d * M + rem && num == (S * K + rest) * w && den == K * d
    ensures (M * w) * den <= num
  {
    MulLe(w, 0, rem * K + rest);
    MulLe(K, 0, rem);
    Distances(M, d, rem, K, rest, w);
  }

  lemma NearestOverflowed(t: Format, S: nat, K: nat, rest: nat, T: nat, e: nat, m: nat, num: nat, den: nat, q: nat)
    requires den > 0
    requires var M := Shr(S, T);
             M < 2 * SigOne(t) && (e == 0 || SigOne(t) <= M) && q == e * SigOne(t) + M >= InfMag(t)
    requires num == (S * K + rest) * Pow2(e) && den == K * Pow2(T)
    ensures Nearest(t, num, den, m) <==> m == InfMag(t)
  {
    hide Pow2, Units, Nearest;
    var M, d := Shr(S, T), Pow2(T);
    ShrLow(S, T);
    OverflowBound(S, M, d, Low(S, T), K, rest, Pow2(e), num, den);
    UnitsOf(t, e, M);
    if InfMag(t) < q {
      UnitsMono(t, InfMag(t), q);
      MulLeRight(Units(t, InfMag(t)), Units(t, q), den);
    }
    NearestOverflow(t, num, den, m);
  }

  lemma MulLeRight(a: int, b: int, d: int)
    requires d >= 0 && a <= b
    ensures a * d <= b * d
  {
  }

  lemma NearestUnshifted(t: Format, S: nat, K: nat, e: nat, m: nat, num: nat, den: nat, q: nat)
    requires K > 0 && S < 2 * SigOne(t) && (e == 0 || SigOne(t) <= S) && q == e * SigOne(t) + S <= InfMag(t)
    requires num == (S * K) * Pow2(e) && den == K
    ensures Nearest(t, num, den, m) <==> m == q
  {
    hide Pow2, Units, Nearest;
    UnitsOf(t, e, S);
    SwapFactors(S, K, Pow2(e));
    NearestExact(t, num, den, q, m);
  }

  lemma SwapFactors(a: int, b: int, c: int)
    ensures (a * b) * c == (a * c) * b
  {
  }

  /** The nearest number to (S * K + rest) * 2^e / (K * 2^T) is the rounded magnitude. */
  lemma NearestIsRounded(t: Format, S: nat, K: nat, rest: nat, T: nat, e: nat, m: nat, num: nat, den: nat)
    requires rest < K && (T == 0 ==> rest == 0)
    requires Shr(S, T) < 2 * SigOne(t) && (e == 0 || SigOne(t) <= Shr(S, T))
    requires num == (S * K + rest) * Pow2(e) && den == K * Pow2(T)
    ensures den > 0
    ensures Nearest(t, num, den, m) <==> m == RoundedMag(t, S, T, e, rest > 0)
  {
    hide Units, Nearest;
    MulLt(K, 0, Pow2(T));
    MulLe(SigOne(t), 0, e);
    var q := e * SigOne(t) + Shr(S, T);
    if q >= InfMag(t) {
      NearestOverflowed(t, S, K, rest, T, e, m, num, den, q);
    } else if T == 0 {
      NearestUnshifted(t, S, K, e, m, num, den, q);
    } else {
      hide Pow2;
      NearestNeighbour(t, S, K, rest, T, e, m, num, den, q);
    }
  }

  // ---------------------------------------------------------------- ShiftAndRoundToNearest

  function ShiftAndRoundToNearest(t: Format, significand: nat, shift: nat, seenTrailingNonZero: bool): (r: nat)
    requires shift > 0
  {
    if Shr(significand, shift) % 2 == 1 || seenTrailingNonZero
    then Shr(Low(significand + Pow2(shift - 1), t.bits), shift)
    else Shr(significand, shift)
  }

  lemma HalfCarry(S: nat, half: nat, d: nat, q: nat, rem: nat)
    requires d == 2 * half && S == d * q + rem && rem < d
    ensures (S + half) / d == q + if rem >= half then 1 else 0
  {
    if rem >= half {
      MulSucc(d, q);
      DivMod(S + half, d, q + 1, rem - half);
    } else {
      DivMod(S + half, d, q, rem + half);
    }
  }

  /** It adds one exactly when the half bit is set and the quotient is odd or the flag is up. */
  lemma ShiftAndRoundCarries(t: Format, S: nat, shift: nat, flag: bool)
    requires shift > 0 && S + Pow2(shift - 1) < Pow2(t.bits)
    ensures ShiftAndRoundToNearest(t, S, shift, flag) ==
            Shr(S, shift) + if Low(S, shift) >= Pow2(shift - 1) && (Shr(S, shift) % 2 == 1 || flag) then 1 else 0
  {
    hide Pow2, Low;
    LowSmall(S + Pow2(shift - 1), t.bits);
    HalfPow(shift);
    ShrLow(S, shift);
    HalfCarry(S, Pow2(shift - 1), Pow2(shift), Shr(S, shift), Low(S, shift));
  }

  lemma BelowHalfBit(S: nat, shift: nat)
    requires shift > 0
    ensures Low(S, shift) >= Pow2(shift - 1) ==> Low(S, shift - 1) == Low(S, shift) - Pow2(shift - 1)
    ensures Low(S, shift) < Pow2(shift - 1) ==> Low(S, shift - 1) == Low(S, shift)
  {
    hide Shr, Low;
    ShrShr(S, shift - 1, 1);
    LastBit(Shr(S, shift - 1));
    LowPart(Pow2(shift - 1), Low(Shr(S, shift - 1), 1), Low(S, shift - 1), Low(S, shift));
  }

  lemma LastBit(a: nat)
    ensures Low(a, 1) == a % 2 && Shr(a, 1) == a / 2
  {
  }

  lemma LowPart(half: nat, bit: nat, low: nat, whole: nat)
    requires bit < 2 && low < half && whole == half * bit + low
    ensures whole >= half ==> low == whole - half
    ensures whole < half ==> low == whole
  {
  }

  /** Half to even, exactly when the flag tells whether anything below the half bit is non-zero, or the
      answer does not depend on it: the half bit is clear or the quotient is odd. */
  lemma ShiftAndRoundIsHalfToEven(t: Format, S: nat, shift: nat, flag: bool, below: bool)
    requires shift > 0 && S + Pow2(shift - 1) < Pow2(t.bits)
    ensures ShiftAndRoundToNearest(t, S, shift, flag) == RoundHalfEven(S, shift, below) <==>
            (flag <==> below || Low(S, shift - 1) != 0) ||
            Low(S, shift) < Pow2(shift - 1) || Shr(S, shift) % 2 == 1
  {
    hide Pow2, Shr, Low, ShiftAndRoundToNearest;
    ShiftAndRoundCarries(t, S, shift, flag);
    BelowHalfBit(S, shift);
    HalfPow(shift);
  }
}
