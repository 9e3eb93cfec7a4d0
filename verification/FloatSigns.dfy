/** What a sign in front of a float literal of src/literal.cc means: a plus nothing, a minus the sign bit. */
module FloatSigns {
  import opened Arith
  import opened Common
  import opened IntLiteral
  import opened FloatFormat
  import opened FloatRounding
  import opened HexRounding
  import opened HexScan
  import opened HexExponent
  import opened FloatParser
  import opened FloatLiteral

  /** An outcome with the sign bit added. */
  function Minus(t: Format, r: Result<nat>): Result<nat> {
    match r
    case Ok(bits) => Ok(Pow2(t.bits - 1) + bits)
    case Error => Error
  }

  lemma Signless(sign: char, u: string)
    requires (sign == '+' || sign == '-') && !HasSign(u)
    ensures var s := [sign] + u;
            SignLength(s) == 1 && SignLength(u) == 0 && s[1..] == u && u[0..] == u
    ensures !IsNegative(u) && (IsNegative([sign] + u) <==> sign == '-')
  {
  }

  lemma Behind(s: string, u: string, k: nat)
    requires |s| == |u| + 1 && s[1..] == u && k <= |u|
    ensures s[1 + k..] == u[k..]
  {
  }

  /** Behind the sign the literal is the same. */
  lemma SameShape(literalType: LiteralType, sign: char, u: string)
    requires (sign == '+' || sign == '-') && !HasSign(u)
    ensures Shape(literalType, [sign] + u) <==> Shape(literalType, u)
  {
    hide MantissaLength, TailShape;
    var s := [sign] + u;
    Signless(sign, u);
    if |u| >= 3 { Behind(s, u, 3); }
    if |u| >= 2 { Behind(s, u, 2); }
  }

  lemma SameParts(t: Format, sign: char, u: string)
    requires (sign == '+' || sign == '-') && !HasSign(u) && HexShape(u) && HexShape([sign] + u)
    ensures var s := [sign] + u;
            Mantissa(s) == Mantissa(u) && ParsedExponent(t, s) == ParsedExponent(t, u) &&
            FullExponent(s) == FullExponent(u) &&
            (HexMisrounds(t, s) <==> HexMisrounds(t, u)) && (RightAsWritten(t, s) <==> RightAsWritten(t, u))
  {
    hide MantissaLength, TailExponent, ScanOf, Misrounds, AgreesWith, BitLength, Value, TailShape;
    Signless(sign, u);
    Behind([sign] + u, u, 2);
  }

  lemma SameTag(t: Format, sign: char, u: string)
    requires (sign == '+' || sign == '-') && !HasSign(u) && NanShape(u) && NanShape([sign] + u)
    ensures NanTag(t, [sign] + u) == NanTag(t, u)
  {
    hide Value;
    Signless(sign, u);
    Behind([sign] + u, u, 3);
    if u[3..] != "" {
      Behind([sign] + u, u, 6);
    }
  }

  // ---------------------------------------------------------------- plus

  /** For every literal type, a plus sign changes nothing. */
  lemma PlusMeansNothing(t: Format, literalType: LiteralType, u: string, r: Result<nat>)
    requires !HasSign(u) && Shape(literalType, u)
    ensures Shape(literalType, "+" + u) && (ReadsAs(t, literalType, "+" + u, r) <==> ReadsAs(t, literalType, u, r))
  {
    hide CorrectlyRounded, RoundedBelow, HexMisrounds, RightAsWritten, Mantissa, ParsedExponent, FullExponent, NanTag,
         HexShape, NanShape, InfinityShape, IsNegative;
    assert "+" + u == ['+'] + u;
    SameShape(literalType, '+', u);
    Signless('+', u);
    match literalType {
      case Hexfloat => SameParts(t, '+', u);
      case Infinity =>
      case Nan => SameTag(t, '+', u);
    }
  }

  // ---------------------------------------------------------------- minus

  lemma EncodedMinus(t: Format, mag: nat, r: Result<nat>)
    requires r.Ok? ==> r.value < SignOne(t)
    ensures Minus(t, r) == Encoded(t, true, mag) <==> r == Encoded(t, false, mag)
  {
    hide Pow2;
    TraitsAsShifts(t);
  }

  lemma RoundedMinus(t: Format, N: nat, X: int, r: Result<nat>)
    requires r.Ok? ==> r.value < SignOne(t)
    ensures CorrectlyRounded(t, true, N, X, Minus(t, r)) <==> CorrectlyRounded(t, false, N, X, r)
    ensures RoundedBelow(t, true, N, X, Minus(t, r)) <==> RoundedBelow(t, false, N, X, r)
  {
    hide Encoded, NearestTo, Minus;
    forall mag: nat
      ensures Minus(t, r) == Encoded(t, true, mag) <==> r == Encoded(t, false, mag)
    {
      EncodedMinus(t, mag, r);
    }
  }

  /** For every literal type, a minus sign adds the sign bit to what is read without it. */
  lemma MinusAddsTheSign(t: Format, literalType: LiteralType, u: string, r: Result<nat>)
    requires !HasSign(u) && Shape(literalType, u) && (r.Ok? ==> r.value < Pow2(t.bits - 1))
    ensures Shape(literalType, "-" + u)
    ensures ReadsAs(t, literalType, "-" + u, Minus(t, r)) <==> ReadsAs(t, literalType, u, r)
  {
    hide Pow2, CorrectlyRounded, RoundedBelow, HexMisrounds, RightAsWritten, Mantissa, ParsedExponent, FullExponent,
         NanTag, HexShape, NanShape, InfinityShape, IsNegative, DigitsValue;
    assert "-" + u == ['-'] + u;
    TraitsAsShifts(t);
    SameShape(literalType, '-', u);
    Signless('-', u);
    match literalType {
      case Hexfloat =>
        SameParts(t, '-', u);
        RoundedMinus(t, DigitsValue(Mantissa(u)), UnitExponent(t, Mantissa(u), ParsedExponent(t, u)), r);
        RoundedMinus(t, DigitsValue(Mantissa(u)), UnitExponent(t, Mantissa(u), FullExponent(u)), r);
      case Infinity =>
      case Nan => SameTag(t, '-', u);
    }
  }

  // ---------------------------------------------------------------- one outcome

  lemma OneRounding(t: Format, sign: bool, N: nat, X: int, r: Result<nat>, r': Result<nat>)
    ensures CorrectlyRounded(t, sign, N, X, r) && CorrectlyRounded(t, sign, N, X, r') ==> r == r'
    ensures RoundedBelow(t, sign, N, X, r) && RoundedBelow(t, sign, N, X, r') ==> r == r'
  {
    hide Nearest, Encoded;
    if CorrectlyRounded(t, sign, N, X, r) && CorrectlyRounded(t, sign, N, X, r') {
      var a: nat :| NearestTo(t, N, X, a) && r == Encoded(t, sign, a);
      var b: nat :| NearestTo(t, N, X, b) && r' == Encoded(t, sign, b);
      NearestUnique(t, Scaled(N, Up(X)), Up(-X), a, b);
    }
    if RoundedBelow(t, sign, N, X, r) && RoundedBelow(t, sign, N, X, r') {
      var a: nat :| a > 0 && NearestTo(t, N, X, a) && r == Encoded(t, sign, a - 1);
      var b: nat :| b > 0 && NearestTo(t, N, X, b) && r' == Encoded(t, sign, b - 1);
      NearestUnique(t, Scaled(N, Up(X)), Up(-X), a, b);
    }
  }

  /** Every literal is read as one thing. */
  lemma OneOutcome(t: Format, literalType: LiteralType, s: string, r: Result<nat>, r': Result<nat>)
    requires Shape(literalType, s) && ReadsAs(t, literalType, s, r) && ReadsAs(t, literalType, s, r')
    ensures r == r'
  {
    if literalType == Hexfloat {
      hide CorrectlyRounded, RoundedBelow, HexMisrounds, RightAsWritten, Mantissa, ParsedExponent, FullExponent,
           HexShape, DigitsValue;
      var m := Mantissa(s);
      OneRounding(t, IsNegative(s), DigitsValue(m), UnitExponent(t, m, ParsedExponent(t, s)), r, r');
    }
  }

  /** Without a minus sign the sign bit is clear. */
  lemma SignBitClear(t: Format, literalType: LiteralType, u: string, r: Result<nat>)
    requires !HasSign(u) && Shape(literalType, u) && ReadsAs(t, literalType, u, r) && r.Ok?
    ensures r.value < Pow2(t.bits - 1)
  {
    hide Pow2, NearestTo, HexMisrounds, RightAsWritten, Mantissa, ParsedExponent, FullExponent, NanTag, HexShape,
         NanShape, InfinityShape, DigitsValue;
    TraitsAsShifts(t);
  }

  /** What is read after a minus sign is what is read without it, with the sign bit. */
  lemma MinusReads(t: Format, literalType: LiteralType, u: string, r: Result<nat>, r': Result<nat>)
    requires !HasSign(u) && Shape(literalType, u) && Shape(literalType, "-" + u)
    requires ReadsAs(t, literalType, u, r) && ReadsAs(t, literalType, "-" + u, r')
    ensures r' == Minus(t, r)
  {
    hide ReadsAs, Shape, Minus, Pow2;
    if r.Ok? {
      SignBitClear(t, literalType, u, r);
    }
    MinusAddsTheSign(t, literalType, u, r);
    OneOutcome(t, literalType, "-" + u, Minus(t, r), r');
  }
}
