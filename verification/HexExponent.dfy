/** The exponent of a hexadecimal float, src/literal.cc: ParseHex stops reading it once it looks too large. What
    that does to the literal's value, and exactly when the result is right all the same. */
module HexExponent {
  import opened Arith
  import opened Common
  import opened IntLiteral
  import opened FloatFormat
  import opened FloatRounding
  import opened HexRounding
  import opened HexScan

  // ---------------------------------------------------------------- the exponent as written

  /** The exponent as written. */
  function FullExponent(s: string): (e: int)
    requires HexShape(s)
  {
    if Tail(s) == "" || Value(10, ExponentDigits(Tail(s))).Error? then 0
    else
      var v: int := Value(10, ExponentDigits(Tail(s))).value;
      if Tail(s)[1] == '-' then -v else v
  }

  /** No digit is left when the exponent loop stops. */
  predicate WholeExponentRead(t: Format, s: string)
    requires HexShape(s)
  {
    var tail := Tail(s);
    tail == "" ||
    forall c :: c in ReadExponent(t, ExponentDigits(tail), ExponentAdd(tail, ScanOf(t, Mantissa(s)).exponent), 0).unread
      ==> c == '_'
  }

  lemma {:induction false} ValueAppend(a: string, b: string)
    requires Value(10, a).Ok? && forall c :: c in b ==> c == '_'
    ensures Value(10, a + b) == Value(10, a)
    decreases |b|
  {
    if b == "" {
      assert a + b == a;
    } else {
      assert forall i :: 0 <= i < |b| ==> b[i] in b;
      ValueAppend(a, b[..|b| - 1]);
      assert (a + b)[..|a + b| - 1] == a + b[..|b| - 1];
    }
  }

  lemma ValueNext(pre: string, c: char)
    requires Value(10, pre).Ok? && (c == '_' || DecimalDigit(c).Ok?)
    ensures Value(10, pre + [c]) ==
            if c == '_' then Value(10, pre) else Ok(Value(10, pre).value * 10 + DecimalDigit(c).value)
  {
    assert (pre + [c])[..|pre|] == pre;
  }

  lemma {:induction false} ReadWhole(t: Format, pre: string, x: string, add: int, value: nat)
    requires Value(10, pre) == Ok(value) && forall c :: c in x ==> c == '_' || DecimalDigit(c).Ok?
    requires forall c :: c in ReadExponent(t, x, add, value).unread ==> c == '_'
    ensures Value(10, pre + x) == Ok(ReadExponent(t, x, add, value).value)
    decreases |x|
  {
    hide DecimalDigit;
    if x == "" {
      assert pre + x == pre;
    } else {
      assert x[0] in x;
      assert pre + x == (pre + [x[0]]) + x[1..];
      ValueNext(pre, x[0]);
      if x[0] != '_' && value * 10 + DecimalDigit(x[0]).value + add >= MaxExp(t) {
        ValueAppend(pre + [x[0]], x[1..]);
      } else {
        ReadWhole(t, pre + [x[0]], x[1..], add, if x[0] == '_' then value else value * 10 + DecimalDigit(x[0]).value);
      }
    }
  }

  /** When the loop runs to the end of the digits, the exponent read is the exponent written. */
  lemma WholeExponentIsFull(t: Format, s: string)
    requires HexShape(s) && WholeExponentRead(t, s)
    ensures ParsedExponent(t, s) == FullExponent(s)
  {
    hide ReadExponent, Value, ScanOf;
    var tail := Tail(s);
    if tail != "" {
      ValueEmpty();
      ReadWhole(t, "", ExponentDigits(tail), ExponentAdd(tail, ScanOf(t, Mantissa(s)).exponent), 0);
      assert "" + ExponentDigits(tail) == ExponentDigits(tail);
    }
  }

  lemma ValueEmpty()
    ensures Value(10, "") == Ok(0)
  {
  }

  /** The exponent of the leading bit, when the text's exponent is taken to be x. */
  function LeadingExp(st: Scan, x: int): (e: int) {
    x + st.exponent + BitLength(st.significand) - 1
  }

  /** The literals ParseHex does not round to nearest. */
  predicate HexMisrounds(t: Format, s: string)
    requires HexShape(s)
  {
    var st := ScanOf(t, Mantissa(s));
    st.significand > 0 &&
    Misrounds(t, st.significand, LeadingExp(st, ParsedExponent(t, s)), st.seenTrailingNonZero)
  }

  // ---------------------------------------------------------------- where magnitudes end

  /** The exponent of half the smallest subnormal. */
  function HalfExp(t: Format): (e: int) {
    MinExp(t) - t.sigBits
  }

  /** What rounds to infinity: 2^kMaxExp and more, and what is within half a last place below it. */
  predicate Overflows(t: Format, S: nat, e: int) {
    var b, p := BitLength(S), t.sigBits;
    e >= MaxExp(t) ||
    (e == MaxExp(t) - 1 && b > p + 1 && Shr(S, b - p - 1) == 2 * SigOne(t) - 1 && Low(S, b - p - 1) >= Pow2(b - p - 2))
  }

  /** What rounds to zero: half the smallest subnormal and less. */
  predicate Vanishes(t: Format, S: nat, e: int, flag: bool)
    requires S > 0
  {
    e < HalfExp(t) || (e == HalfExp(t) && S == Pow2(BitLength(S) - 1) && !flag)
  }

  /** What ParseHex reads as zero: that, and what it should read as the smallest subnormal but misrounds. */
  predicate ReadsZero(t: Format, S: nat, e: int, flag: bool)
    requires S > 0
  {
    Vanishes(t, S, e, flag) || (e == HalfExp(t) && Misrounds(t, S, e, flag))
  }

  /** More than the leading bit, less than one and a half times it. */
  predicate AboveLeadingBit(S: nat, flag: bool)
    requires S > 0
  {
    var top := Pow2(BitLength(S) - 1);
    (S > top || flag) && 2 * S < 3 * top
  }

  lemma QuotientBounds(t: Format, S: nat, e: int)
    requires S > 0
    ensures var q := Shr(Padded(t, S), RightShift(t, S, e));
            q < 2 * SigOne(t) && (e > MinExp(t) ==> SigOne(t) <= q) && (e <= HalfExp(t) ==> q == 0) &&
            (e == HalfExp(t) + 1 ==> q == 1) && (e > HalfExp(t) + 1 ==> q >= 2)
  {
    hide BitLength, Pow2, Shr, Padded, PaddedBits;
    TruncatedBits(t, S, e);
    if e <= MinExp(t) {
      var Sn, T, b := Padded(t, S), RightShift(t, S, e), PaddedBits(t, S);
      PaddedBounds(t, S);
      PowZero();
      PowOne();
      if e <= HalfExp(t) {
        Pow2Mono(b, T);
        ShrBound(Sn, T, T);
      } else {
        Pow2Mono(T, b - 1);
        ShrBound(Sn, T, T);
        ShrBound(Sn, T, T + 1);
        if e > HalfExp(t) + 1 {
          Pow2Mono(T + 1, b - 1);
        }
      }
    }
  }

  lemma OverflowingMag(t: Format, S: nat, e: int, flag: bool)
    requires S > 0 && e >= MaxExp(t)
    ensures TrueMag(t, S, e, flag) == InfMag(t)
  {
    hide Pow2, BitLength, Shr, Padded, RoundHalfEven;
    TruncatedBits(t, S, e);
    var q := Shr(Padded(t, S), RightShift(t, S, e));
    StepBelowInfinity(t, e, q);
    TrueMagIs(t, S, e, flag, ExponentStep(t, e) * SigOne(t));
    AtLeastQuotient(Padded(t, S), RightShift(t, S, e), flag);
  }

  lemma AtLeastQuotient(S: nat, T: nat, below: bool)
    ensures RoundHalfEven(S, T, below) >= Shr(S, T)
  {
  }

  lemma CarryAtInfinity(t: Format, e: int)
    requires MinExp(t) < e < MaxExp(t)
    ensures ExponentStep(t, e) * SigOne(t) >= 0
    ensures ExponentStep(t, e) * SigOne(t) + 2 * SigOne(t) >= InfMag(t) <==> e == MaxExp(t) - 1
  {
    if t.bits == 32 {
    } else {
    }
  }

  /** The parts of a magnitude below infinity. */
  lemma Parts(t: Format, S: nat, e: int, flag: bool, step: int, q: nat)
    requires S > 0 && e < MaxExp(t) && step == ExponentStep(t, e) * SigOne(t) &&
             q == Shr(Padded(t, S), RightShift(t, S, e))
    ensures step >= 0 && step + q < InfMag(t)
    ensures var up := RightShift(t, S, e) > 0 && RoundsUp(Padded(t, S), RightShift(t, S, e), flag);
            TrueMag(t, S, e, flag) == step + q + (if up then 1 else 0) &&
            (Misrounds(t, S, e, flag) ==> up) && ReadMag(t, S, e, flag) >= step + q
  {
    hide BitLength, Pow2, Shr, Low, Padded, RightShift, RoundHalfEven, TrueMag, Misrounds, RoundsUp;
    var Sn, T := Padded(t, S), RightShift(t, S, e);
    QuotientBounds(t, S, e);
    TrueMagIs(t, S, e, flag, step);
    if e > MinExp(t) {
      StepBelowInfinity(t, e, q);
    }
    if Misrounds(t, S, e, flag) {
      MisroundsUp(t, S, e, flag);
    }
    if T > 0 {
      RoundHalfEvenUp(Sn, T, flag);
    } else {
      UnshiftedRound(Sn, flag);
      Unshifted(Sn);
    }
  }

  lemma Unshifted(S: nat)
    ensures Shr(S, 0) == S
  {
    PowZero();
  }

  lemma OverflowsIs(t: Format, S: nat, e: int, flag: bool)
    requires S > 0
    ensures TrueMag(t, S, e, flag) == InfMag(t) <==> Overflows(t, S, e)
    ensures ReadMag(t, S, e, flag) == InfMag(t) <==> Overflows(t, S, e)
  {
    hide BitLength, Pow2, Shr, Low, Padded, TrueMag, Overflows, RoundsUp, RightShift, Misrounds;
    if e >= MaxExp(t) {
      OverflowingMag(t, S, e, flag);
    } else {
      var q, step := Shr(Padded(t, S), RightShift(t, S, e)), ExponentStep(t, e) * SigOne(t);
      QuotientBounds(t, S, e);
      Parts(t, S, e, flag, step, q);
      if e > MinExp(t) {
        CarryAtInfinity(t, e);
        if q < 2 * SigOne(t) - 1 {
          StepBelowInfinity(t, e, q + 1);
        }
      }
    }
    OverflowsUp(t, S, e, flag);
  }

  lemma OverflowsUp(t: Format, S: nat, e: int, flag: bool)
    requires S > 0
    ensures Overflows(t, S, e) <==>
            e >= MaxExp(t) ||
            (e == MaxExp(t) - 1 && Shr(Padded(t, S), RightShift(t, S, e)) == 2 * SigOne(t) - 1 &&
             RightShift(t, S, e) > 0 && RoundsUp(Padded(t, S), RightShift(t, S, e), flag))
    ensures Overflows(t, S, e) ==> !Misrounds(t, S, e, flag)
  {
    hide BitLength, Pow2, Shr, Low, Padded;
    if BitLength(S) > t.sigBits {
      UnpaddedIs(t, S);
    }
  }

  /** The bits below the highest one. */
  lemma BelowTop(S: nat, b: nat, below: bool)
    requires b > 0 && Pow2(b - 1) <= S < Pow2(b)
    ensures Low(S, b) == S && Low(S, b - 1) == S - Pow2(b - 1) && Shr(S, b) == 0 && Shr(S, b - 1) == 1
    ensures RoundsUp(S, b, below) <==> S > Pow2(b - 1) || below
  {
    hide Pow2, Shr, Low;
    LowSmall(S, b);
    BelowHalfBit(S, b);
    ShrLow(S, b - 1);
    HalfPow(b);
    ShrBound(S, b - 1, b);
    PowOne();
    ShrBound(S, b - 1, b - 1);
    PowZero();
  }

  /** Padding moves the highest bit along. */
  lemma PaddedTop(t: Format, S: nat)
    requires S > 0
    ensures var b, top := BitLength(S), Pow2(PaddedBits(t, S) - 1);
            (Padded(t, S) > top <==> S > Pow2(b - 1)) && (Padded(t, S) == top <==> S == Pow2(b - 1)) &&
            (2 * Padded(t, S) < 3 * top <==> 2 * S < 3 * Pow2(b - 1))
  {
    hide BitLength, Pow2;
    BitLengthBounds(S);
    var b := BitLength(S);
    var c := PadBits(t, b);
    Pow2Add(b - 1, c);
    RightOrder(S, Pow2(b - 1), Pow2(c));
    RightOrder(2 * S, 3 * Pow2(b - 1), Pow2(c));
    MulAssoc(2, S, Pow2(c));
    MulAssoc(3, Pow2(b - 1), Pow2(c));
  }

  lemma RightOrder(a: int, b: int, d: int)
    requires d > 0
    ensures a * d < b * d <==> a < b
    ensures a * d == b * d <==> a == b
  {
    if a < b { LessRight(a, b, d); } else if b < a { LessRight(b, a, d); }
  }

  lemma VanishesIs(t: Format, S: nat, e: int, flag: bool)
    requires S > 0
    ensures TrueMag(t, S, e, flag) == 0 <==> Vanishes(t, S, e, flag)
    ensures ReadMag(t, S, e, flag) == 0 <==> ReadsZero(t, S, e, flag)
    ensures e <= HalfExp(t) ==> TrueMag(t, S, e, flag) <= 1
  {
    hide BitLength, Pow2, Shr, Low, Padded, RightShift, TrueMag, RoundsUp, Misrounds, Vanishes;
    if e >= MaxExp(t) {
      OverflowsIs(t, S, e, flag);
    } else {
      QuotientBounds(t, S, e);
      Parts(t, S, e, flag, ExponentStep(t, e) * SigOne(t), Shr(Padded(t, S), RightShift(t, S, e)));
    }
    VanishesUp(t, S, e, flag);
  }

  lemma VanishesUp(t: Format, S: nat, e: int, flag: bool)
    requires S > 0
    ensures e <= HalfExp(t) ==> RightShift(t, S, e) > 0
    ensures Vanishes(t, S, e, flag) <==>
            e <= HalfExp(t) && !RoundsUp(Padded(t, S), RightShift(t, S, e), flag)
    ensures e < HalfExp(t) ==> Vanishes(t, S, e, flag)
  {
    hide BitLength, Pow2, Shr, Low, Padded, PaddedBits, RoundsUp;
    if e < HalfExp(t) {
      FarBelow(t, S, e, flag);
    } else if e == HalfExp(t) {
      PaddedBounds(t, S);
      BitLengthBounds(S);
      BelowTop(Padded(t, S), PaddedBits(t, S), flag);
      PaddedTop(t, S);
    }
  }

  lemma FarBelow(t: Format, S: nat, e: int, flag: bool)
    requires S > 0 && e < HalfExp(t)
    ensures !RoundsUp(Padded(t, S), RightShift(t, S, e), flag)
  {
    hide BitLength, Pow2, Shr, Padded, PaddedBits;
    PaddedBounds(t, S);
    Pow2Mono(PaddedBits(t, S), RightShift(t, S, e) - 1);
    HalfPow(RightShift(t, S, e));
    LowSmall(Padded(t, S), RightShift(t, S, e));
  }

  /** Between one and two smallest subnormals. */
  lemma NearOne(t: Format, S: nat, flag: bool)
    requires S > 0
    ensures ReadMag(t, S, HalfExp(t) + 1, flag) == (if 2 * S < 3 * Pow2(BitLength(S) - 1) then 1 else 2)
  {
    hide BitLength, Pow2, Shr, Low, Padded, PaddedBits, TrueMag;
    var e, b := HalfExp(t) + 1, PaddedBits(t, S);
    QuotientBounds(t, S, e);
    Parts(t, S, e, flag, 0, Shr(Padded(t, S), RightShift(t, S, e)));
    PaddedBounds(t, S);
    PaddedTop(t, S);
    BelowTop(Padded(t, S), b, flag);
    HalfPow(b - 1);
    if BitLength(S) > t.sigBits {
      UnpaddedIs(t, S);
    }
  }

  // ---------------------------------------------------------------- smaller exponents

  /** A value shifted further rounds to at most half of what is left before, rounded up. */
  lemma HalvedRound(S: nat, T: nat, below: bool)
    ensures RoundHalfEven(S, T + 1, below) <= (Shr(S, T) + 1) / 2
  {
    hide Pow2, Shr, Low, RoundHalfEven;
    RoundHalfEvenUp(S, T + 1, below);
    ShrShr(S, T, 1);
    LastBit(Shr(S, T));
    HalfBit(Pow2(T), Low(Shr(S, T), 1), Low(S, T), Low(S, T + 1));
  }

  lemma HalfBit(half: nat, bit: nat, low: nat, whole: nat)
    requires whole == half * bit + low && low < half
    ensures bit == 0 ==> whole < half
  {
  }

  lemma LaterRound(S: nat, T: nat, T': nat, below: bool)
    requires T < T'
    ensures RoundHalfEven(S, T', below) <= (Shr(S, T) + 1) / 2
  {
    hide Pow2, Shr, RoundHalfEven;
    HalvedRound(S, T' - 1, below);
    ShrShr(S, T, T' - 1 - T);
    ShrDown(Shr(S, T), T' - 1 - T);
  }

  lemma ShrDown(a: nat, k: nat)
    ensures Shr(a, k) <= a
  {
    hide Pow2, Shr, Low;
    ShrLow(a, k);
    Pow2Mono(0, k);
    PowZero();
    MulLeRight(1, Pow2(k), Shr(a, k));
  }

  /** From two smallest subnormals on, a smaller exponent means a number below the one ParseHex reads. */
  lemma BelowReadMag(t: Format, S: nat, e: int, e': int, flag: bool)
    requires S > 0 && e' < e < MaxExp(t) && e >= HalfExp(t) + 2
    ensures TrueMag(t, S, e', flag) < ReadMag(t, S, e, flag)
  {
    hide BitLength, Pow2, Shr, Padded, PaddedBits, TrueMag, ReadMag, RoundHalfEven, RoundsUp, Misrounds;
    var q, step := Shr(Padded(t, S), RightShift(t, S, e)), ExponentStep(t, e) * SigOne(t);
    var step' := ExponentStep(t, e') * SigOne(t);
    QuotientBounds(t, S, e);
    Parts(t, S, e, flag, step, q);
    TrueMagIs(t, S, e', flag, step');
    if e' > MinExp(t) {
      Parts(t, S, e', flag, step', q);
      MulLe(SigOne(t), ExponentStep(t, e') + 1, ExponentStep(t, e));
    } else {
      LaterRound(Padded(t, S), RightShift(t, S, e), RightShift(t, S, e'), flag);
    }
  }

  // ---------------------------------------------------------------- the exponent as read and as written

  lemma {:induction false} DigitGrows(a: string, b: string)
    requires Value(10, a + b).Ok? && exists c :: c in b && c != '_'
    ensures Value(10, a).Ok? && Value(10, a + b).value >= 10 * Value(10, a).value
    decreases |b|
  {
    hide DecimalDigit;
    var n := |b| - 1;
    assert (a + b)[..|a + b| - 1] == a + b[..n];
    if b[n] == '_' {
      assert forall c :: c in b && c != '_' ==> c in b[..n];
      DigitGrows(a, b[..n]);
    } else {
      ValueGrows(10, a + b[..n], |a|);
      assert (a + b[..n])[..|a|] == a;
    }
  }

  lemma {:induction false} ReadIsPrefix(t: Format, pre: string, x: string, add: int, value: nat)
    requires Value(10, pre) == Ok(value) && forall c :: c in x ==> c == '_' || DecimalDigit(c).Ok?
    ensures Value(10, pre + x).Ok? && ReadExponent(t, x, add, value).value <= Value(10, pre + x).value
    ensures var r := ReadExponent(t, x, add, value);
            (exists c :: c in r.unread && c != '_') ==>
              r.value + add >= MaxExp(t) && Value(10, pre + x).value >= 10 * r.value
    decreases |x|
  {
    hide DecimalDigit, Value;
    if x == "" {
      assert pre + x == pre;
    } else {
      assert x[0] in x;
      assert pre + x == (pre + [x[0]]) + x[1..];
      ValueNext(pre, x[0]);
      var next := if x[0] == '_' then value else value * 10 + DecimalDigit(x[0]).value;
      ReadIsPrefix(t, pre + [x[0]], x[1..], add, next);
      if x[0] != '_' && next + add >= MaxExp(t) && exists c :: c in x[1..] && c != '_' {
        DigitGrows(pre + [x[0]], x[1..]);
      }
      ValueGrows(10, pre + x, |pre| + 1);
      assert (pre + x)[..|pre| + 1] == pre + [x[0]];
    }
  }

  /** When a digit is left unread, at least ten times as much was written. */
  lemma UnreadDigits(t: Format, s: string)
    requires HexShape(s) && !WholeExponentRead(t, s)
    ensures Tail(s) != ""
    ensures var p, w := ParsedExponent(t, s), FullExponent(s);
            var add := ExponentAdd(Tail(s), ScanOf(t, Mantissa(s)).exponent);
            if Tail(s)[1] == '-' then p <= 0 && w <= 10 * p && -p + add >= MaxExp(t)
            else p >= 0 && w >= 10 * p && p + add >= MaxExp(t)
  {
    hide ReadExponent, Value, ScanOf, MantissaLength;
    var x := ExponentDigits(Tail(s));
    ValueEmpty();
    ReadIsPrefix(t, "", x, ExponentAdd(Tail(s), ScanOf(t, Mantissa(s)).exponent), 0);
    assert "" + x == x;
  }

  /** So the exponent read is the one written exactly when no digit is left, or all are zeros. */
  lemma ReadIsWritten(t: Format, s: string)
    requires HexShape(s)
    ensures ParsedExponent(t, s) == FullExponent(s) <==> WholeExponentRead(t, s) || FullExponent(s) == 0
  {
    hide ParsedExponent, FullExponent, WholeExponentRead, HexShape, Tail;
    if WholeExponentRead(t, s) {
      WholeExponentIsFull(t, s);
    } else {
      UnreadDigits(t, s);
    }
  }

  /** Does reading a number at exponent e give what is nearest to it at e'? `down` when the exponent is
      negative, so that e' is the smaller of the two. */
  predicate AgreesWith(t: Format, S: nat, flag: bool, e: int, e': int, down: bool)
    requires S > 0
  {
    if e == e' then !Misrounds(t, S, e, flag)
    else if down then
      ReadsZero(t, S, e, flag) || (e == HalfExp(t) + 1 && e' == HalfExp(t) && AboveLeadingBit(S, flag))
    else Overflows(t, S, e) || Vanishes(t, S, e', flag)
  }

  lemma EncodedInjective(t: Format, sign: bool, x: nat, y: nat)
    requires x <= InfMag(t) && y <= InfMag(t)
    ensures Encoded(t, sign, x) == Encoded(t, sign, y) <==> x == y
  {
  }

  lemma AgreesIs(t: Format, sign: bool, S: nat, flag: bool, e: int, e': int, down: bool)
    requires S > 0
    requires e == e' || if down then e' < e < MaxExp(t) else e' >= e + 9 * MaxExp(t) || e' >= e >= MaxExp(t)
    ensures Encoded(t, sign, ReadMag(t, S, e, flag)) == Encoded(t, sign, TrueMag(t, S, e', flag)) <==>
            AgreesWith(t, S, flag, e, e', down)
  {
    hide BitLength, Pow2, TrueMag, ReadMag, Misrounds, Encoded, Overflows, Vanishes, ReadsZero, AboveLeadingBit;
    ReadMagRight(t, sign, S, e, flag);
    if e != e' {
      ReadMagRight(t, sign, S, e', flag);
      EncodedInjective(t, sign, ReadMag(t, S, e, flag), TrueMag(t, S, e', flag));
      if down {
        AgreesDown(t, S, flag, e, e');
      } else {
        AgreesUp(t, S, flag, e, e');
      }
    }
  }

  lemma AgreesUp(t: Format, S: nat, flag: bool, e: int, e': int)
    requires S > 0 && (e' >= e + 9 * MaxExp(t) || e' >= e >= MaxExp(t))
    ensures ReadMag(t, S, e, flag) == TrueMag(t, S, e', flag) <==> Overflows(t, S, e) || Vanishes(t, S, e', flag)
  {
    hide BitLength, Pow2, Shr, Low, TrueMag, ReadMag, Misrounds;
    OverflowsIs(t, S, e, flag);
    OverflowsIs(t, S, e', flag);
    VanishesIs(t, S, e, flag);
    VanishesIs(t, S, e', flag);
  }

  lemma AgreesDown(t: Format, S: nat, flag: bool, e: int, e': int)
    requires S > 0 && e' < e < MaxExp(t)
    ensures ReadMag(t, S, e, flag) == TrueMag(t, S, e', flag) <==>
            ReadsZero(t, S, e, flag) || (e == HalfExp(t) + 1 && e' == HalfExp(t) && AboveLeadingBit(S, flag))
  {
    hide BitLength, Pow2, TrueMag, ReadMag, Misrounds;
    VanishesIs(t, S, e, flag);
    VanishesIs(t, S, e', flag);
    BitLengthBounds(S);
    if e >= HalfExp(t) + 2 {
      BelowReadMag(t, S, e, e', flag);
    } else if e == HalfExp(t) + 1 {
      NearOne(t, S, flag);
    }
  }

  predicate NegativeExponent(s: string)
    requires HexShape(s)
  {
    Tail(s) != "" && Tail(s)[1] == '-'
  }

  /** The literals that ParseHex rounds to nearest, with the exponent as written. Where a digit of it is left
      unread, the number read and the number written must round alike. */
  predicate RightAsWritten(t: Format, s: string)
    requires HexShape(s)
  {
    var st := ScanOf(t, Mantissa(s));
    st.significand == 0 ||
    AgreesWith(t, st.significand, st.seenTrailingNonZero, LeadingExp(st, ParsedExponent(t, s)),
               LeadingExp(st, FullExponent(s)), NegativeExponent(s))
  }

  lemma ExponentsApart(t: Format, s: string)
    requires HexShape(s) && ScanOf(t, Mantissa(s)).significand > 0
    ensures var st := ScanOf(t, Mantissa(s));
            var e, e' := LeadingExp(st, ParsedExponent(t, s)), LeadingExp(st, FullExponent(s));
            e == e' ||
            if NegativeExponent(s) then e' < e < MaxExp(t)
            else e' >= e + 9 * MaxExp(t) || e' >= e >= MaxExp(t)
  {
    hide BitLength, Pow2, ScanOf, ParsedExponent, FullExponent, WholeExponentRead, DigitsValue, FractionDigits,
         MantissaLength;
    var k, rest := ScanIsValue(t, Mantissa(s));
    BitLengthBounds(ScanOf(t, Mantissa(s)).significand);
    ReadIsWritten(t, s);
    if !WholeExponentRead(t, s) {
      UnreadDigits(t, s);
    }
  }

  /** What ParseHex reads is nearest to the literal as written exactly on those. */
  lemma WrittenIsRead(t: Format, s: string, r: Result<nat>)
    requires HexShape(s) && ScanOf(t, Mantissa(s)).significand > 0
    requires var st := ScanOf(t, Mantissa(s));
             var e := LeadingExp(st, ParsedExponent(t, s));
             r == Encoded(t, IsNegative(s), ReadMag(t, st.significand, e, st.seenTrailingNonZero))
    ensures var m := Mantissa(s);
            CorrectlyRounded(t, IsNegative(s), DigitsValue(m), UnitExponent(t, m, FullExponent(s)), r) <==>
            RightAsWritten(t, s)
  {
    hide BitLength, ScanOf, DigitsValue, FractionDigits, CorrectlyRounded, Encoded, TrueMag, ReadMag, AgreesWith,
         ParsedExponent, FullExponent, HexShape, Mantissa, NegativeExponent;
    var st := ScanOf(t, Mantissa(s));
    ExponentsApart(t, s);
    RoundedIsCorrect(t, Mantissa(s), FullExponent(s), IsNegative(s), r);
    AgreesIs(t, IsNegative(s), st.significand, st.seenTrailingNonZero, LeadingExp(st, ParsedExponent(t, s)),
             LeadingExp(st, FullExponent(s)), NegativeExponent(s));
  }

  /** After p+ the exponent as read and the exponent as written round to the same number, so stopping
      early never shows: both overflow. */
  lemma PlusStopsSafely(t: Format, s: string, r: Result<nat>)
    requires HexShape(s) && Tail(s) != "" && Tail(s)[1] == '+' && ScanOf(t, Mantissa(s)).significand > 0
    ensures var m := Mantissa(s);
            CorrectlyRounded(t, IsNegative(s), DigitsValue(m), UnitExponent(t, m, ParsedExponent(t, s)), r) <==>
            CorrectlyRounded(t, IsNegative(s), DigitsValue(m), UnitExponent(t, m, FullExponent(s)), r)
  {
    hide ScanOf, DigitsValue, FractionDigits, CorrectlyRounded, BitLength, TrueMag, Value, ReadExponent, MantissaLength,
         DecimalDigit;
    if WholeExponentRead(t, s) {
      WholeExponentIsFull(t, s);
    } else {
      var m, tail := Mantissa(s), Tail(s);
      var st := ScanOf(t, m);
      var x, add := ExponentDigits(tail), ExponentAdd(tail, st.exponent);
      ValueEmpty();
      ReadIsPrefix(t, "", x, add, 0);
      assert "" + x == x;
      BitLengthBounds(st.significand);
      RoundedIsCorrect(t, m, ParsedExponent(t, s), IsNegative(s), r);
      RoundedIsCorrect(t, m, FullExponent(s), IsNegative(s), r);
      var lead := st.exponent + BitLength(st.significand) - 1;
      OverflowingMag(t, st.significand, ParsedExponent(t, s) + lead, st.seenTrailingNonZero);
      OverflowingMag(t, st.significand, FullExponent(s) + lead, st.seenTrailingNonZero);
    }
  }
}
