/** Reading back what WriteHex wrote gives the original bits, for every bit pattern of both formats. */
module FloatRoundTrip {
  import opened Arith
  import opened Common
  import opened IntLiteral
  import opened FloatFormat
  import opened FloatRounding
  import opened HexRounding
  import opened HexScan
  import opened HexExponent
  import opened FloatParser
  import opened FloatLiteral
  import opened FloatWriter
  import Uint128

  // ---------------------------------------------------------------- the mantissa's value

  lemma {:induction false} FractionChars(m: nat, w: nat)
    requires m < Pow2(4 * w)
    ensures forall c :: c in FractionText(m, w) ==> ParseHexdigit(c).Ok?
    decreases w
  {
    hide Pow2, Shr, Low;
    FractionStep(m, w);
    if m != 0 {
      FractionChars(Low(m, 4 * (w - 1)), w - 1);
    }
  }

  /** Fraction digits after `pre`: m is what the missing zeros would complete them to. */
  lemma {:induction false} FractionValue(pre: string, m: nat, w: nat)
    requires m < Pow2(4 * w) && '.' in pre
    ensures |FractionText(m, w)| <= w
    ensures var text := FractionText(m, w);
            DigitsValue(pre + text) * Pow2(4 * (w - |text|)) == DigitsValue(pre) * Pow2(4 * w) + m &&
            FractionDigits(pre + text) == FractionDigits(pre) + |text|
    decreases w
  {
    hide Pow2, Shr, Low, FractionText, DigitsValue, FractionDigits, ParseHexdigit;
    var text := FractionText(m, w);
    FractionStep(m, w);
    if m == 0 {
      assert pre + text == pre;
    } else {
      var d, rest := Shr(m, 4 * (w - 1)), Low(m, 4 * (w - 1));
      var pre', text' := pre + [HexChar(d)], FractionText(rest, w - 1);
      DigitsNext(pre, HexChar(d));
      assert pre + text == pre' + text';
      FractionValue(pre', rest, w - 1);
      ShrLow(m, 4 * (w - 1));
      Pow2Add(4, 4 * (w - 1));
      Pow2Four();
      NextDigit(DigitsValue(pre), d, Pow2(4 * (w - 1)), rest, m, Pow2(4 * w));
    }
  }

  lemma NextDigit(v: nat, d: nat, w: nat, rest: nat, m: nat, w': nat)
    requires m == w * d + rest && w' == 16 * w
    ensures (16 * v + d) * w + rest == v * w' + m
  {
  }

  /** The mantissa text in numbers: its digits, completed with zeros, are a one and the fraction's bits. */
  lemma MantissaValue(t: Format, mag: nat)
    requires 0 < mag < InfMag(t)
    ensures FractionBits.requires(t, mag) && FractionBits(t, mag) < Pow2(4 * FractionWidth(t))
    ensures var m, w := MantissaText(t, mag), FractionWidth(t);
            FractionDigits(m) <= w &&
            DigitsValue(m) * Pow2(4 * (w - FractionDigits(m))) == Pow2(4 * w) + FractionBits(t, mag)
    ensures forall c :: c in MantissaText(t, mag) ==> IsMantissaChar(c)
    ensures |MantissaText(t, mag)| <= FractionWidth(t) + 2
  {
    hide Pow2, FractionText, DigitsValue, FractionDigits, ParseHexdigit, FractionBits;
    var w := FractionWidth(t);
    FractionBitsFit(t, mag);
    One();
    if mag % SigOne(t) == 0 {
      NoFraction(t, mag);
      assert MantissaText(t, mag) == "1";
      assert DigitsValue("1") * Pow2(4 * w) == Pow2(4 * w);
    } else {
      var text := FractionText(FractionBits(t, mag), w);
      FractionValue("1.", FractionBits(t, mag), w);
      FractionChars(FractionBits(t, mag), w);
      assert MantissaText(t, mag) == "1." + text;
      assert DigitsValue("1.") * Pow2(4 * w) == Pow2(4 * w);
    }
  }

  lemma One()
    ensures DigitsValue("1") == 1 && FractionDigits("1") == 0
    ensures DigitsValue("1.") == 1 && FractionDigits("1.") == 0
    ensures ParseHexdigit('1') == Ok(1)
  {
    NoDigits();
    hide DigitsValue, FractionDigits;
    assert "1" == "" + ['1'] && "1." == "1" + ['.'];
    DigitsNext("", '1');
    DigitsNext("1", '.');
  }

  lemma NoDigits()
    ensures DigitsValue("") == 0 && FractionDigits("") == 0
  {
  }

  lemma NoFraction(t: Format, mag: nat)
    requires 0 < mag < InfMag(t) && mag % SigOne(t) == 0 && FractionBits.requires(t, mag)
    ensures FractionBits(t, mag) == 0
  {
    Kinds(t, mag);
    assert 0 * Pow2(FractionPad(t)) == 0;
  }

  lemma PadFacts(t: Format)
    ensures Pow2(4 * FractionWidth(t)) == SigOne(t) * Pow2(FractionPad(t))
  {
    hide Pow2;
    SigOneIsPow2(t);
    Pow2Add(t.sigBits, FractionPad(t));
  }

  lemma Distribute(a: int, b: int, c: int)
    ensures a * c + b * c == (a + b) * c
  {
  }

  lemma RegroupNormal(N: nat, D: nat, M: nat, w: nat, pad: nat, a: nat)
    requires N * D == M * pad && a == w * D
    ensures Scaled(N, a) == Scaled(M * w, pad)
  {
    assert N * (w * D) == w * (N * D);
    assert w * (M * pad) == (M * w) * pad;
  }

  lemma NormalIsExactly(t: Format, mag: nat, N: nat, F: nat)
    requires mag < InfMag(t) && mag / SigOne(t) > 0 && F <= FractionWidth(t)
    requires FractionBits.requires(t, mag)
    requires N * Pow2(4 * (FractionWidth(t) - F)) == Pow2(4 * FractionWidth(t)) + FractionBits(t, mag)
    ensures IsExactly(t, N, LeadingExponent(t, mag) - 4 * F - (MinExp(t) + 1 - t.sigBits), mag)
  {
    hide Pow2, Scaled, IsExactly, Low, BitLength;
    var n, sig, W, pad := mag / SigOne(t), mag % SigOne(t), FractionWidth(t), FractionPad(t);
    var D := Pow2(4 * (W - F));
    PadFacts(t);
    Distribute(SigOne(t), sig, Pow2(pad));
    Pow2Add(n - 1, 4 * (W - F));
    RegroupNormal(N, D, SigOne(t) + sig, Pow2(n - 1), Pow2(pad), Pow2(n - 1 + 4 * (W - F)));
    ExactlyRatio(t, N, n - 1 + 4 * (W - F), pad, mag);
  }

  lemma LowTop(t: Format, x: nat)
    requires SigOne(t) <= x < 2 * SigOne(t)
    ensures Low(x, t.sigBits) == x - SigOne(t)
  {
    SigOneIsPow2(t);
    DivMod(x, SigOne(t), 1, x - SigOne(t));
  }

  lemma RegroupSubnormal(N: nat, D: nat, sig: nat, k: nat, pad: nat, b: nat)
    requires N * D == (sig * k) * pad && b == pad * k
    ensures Scaled(N, D) == Scaled(sig, b)
  {
    assert (sig * k) * pad == sig * (pad * k);
  }

  lemma SubnormalIsExactly(t: Format, mag: nat, N: nat, F: nat)
    requires 0 < mag && mag / SigOne(t) == 0 && F <= FractionWidth(t)
    requires FractionBits.requires(t, mag)
    requires N * Pow2(4 * (FractionWidth(t) - F)) == Pow2(4 * FractionWidth(t)) + FractionBits(t, mag)
    ensures IsExactly(t, N, LeadingExponent(t, mag) - 4 * F - (MinExp(t) + 1 - t.sigBits), mag)
  {
    hide Pow2, Scaled, IsExactly, Low, BitLength;
    SmallMag(t, mag);
    var W, pad, lz := FractionWidth(t), FractionPad(t), LeadingZeroes(t, mag);
    LeadingZeroesBounds(t, mag);
    var k := Pow2(lz + 1);
    LowTop(t, mag * k);
    PadFacts(t);
    Distribute(SigOne(t), mag * k - SigOne(t), Pow2(pad));
    Pow2Add(pad, lz + 1);
    RegroupSubnormal(N, Pow2(4 * (W - F)), mag, k, Pow2(pad), Pow2(pad + lz + 1));
    ExactlyRatio(t, N, 4 * (W - F), pad + lz + 1, mag);
  }

  // ---------------------------------------------------------------- the exponent's text

  lemma {:induction false} ReadDecimal(t: Format, v: nat, y: string, add: int)
    requires v + add < MaxExp(t) && forall c :: c in y ==> c == '_' || DecimalDigit(c).Ok?
    ensures forall c :: c in Uint128.ToDecimal(v) + y ==> c == '_' || DecimalDigit(c).Ok?
    ensures ReadExponent(t, Uint128.ToDecimal(v) + y, add, 0) == ReadExponent(t, y, add, v)
    decreases v
  {
    hide Uint128.ToDecimal, DecimalDigit;
    Uint128.ToDecimalStep(v);
    var text, y' := Uint128.ToDecimal(v), [Uint128.DigitChar(v % 10)] + y;
    assert text == text[..|text| - 1] + [text[|text| - 1]];
    assert text + y == text[..|text| - 1] + y';
    ReadDigit(t, v, y, add);
    if v < 10 {
      assert text + y == y';
    } else {
      ReadDecimal(t, v / 10, y', add);
    }
  }

  lemma ReadDigit(t: Format, v: nat, y: string, add: int)
    requires forall c :: c in y ==> c == '_' || DecimalDigit(c).Ok?
    ensures var y' := [Uint128.DigitChar(v % 10)] + y;
            (forall c :: c in y' ==> c == '_' || DecimalDigit(c).Ok?) &&
            ReadExponent(t, y', add, v / 10) ==
            if v + add >= MaxExp(t) then ExponentRead(v, y) else ReadExponent(t, y, add, v)
  {
    var y' := [Uint128.DigitChar(v % 10)] + y;
    assert y'[1..] == y && y'[0] != '_';
    assert v == v / 10 * 10 + v % 10;
  }

  /** A decimal exponent is read to its end when dropping its last digit leaves it below the bound. */
  lemma ReadDecimalWhole(t: Format, v: nat, add: int)
    requires v / 10 + add < MaxExp(t)
    ensures forall c :: c in Uint128.ToDecimal(v) ==> c == '_' || DecimalDigit(c).Ok?
    ensures ReadExponent(t, Uint128.ToDecimal(v), add, 0).value == v
  {
    hide Uint128.ToDecimal, DecimalDigit;
    Uint128.ToDecimalStep(v);
    var text := Uint128.ToDecimal(v);
    assert text == text[..|text| - 1] + [text[|text| - 1]];
    ReadDigit(t, v, "", add);
    assert [Uint128.DigitChar(v % 10)] + "" == [Uint128.DigitChar(v % 10)];
    if v >= 10 {
      ReadDecimal(t, v / 10, [Uint128.DigitChar(v % 10)], add);
    }
    ReadNothing(t, add, v);
  }

  lemma ReadNothing(t: Format, add: int, v: nat)
    ensures ReadExponent(t, "", add, v) == ExponentRead(v, "")
  {
  }

  /** The exponent WriteHex wrote is the exponent ParseHex reads. */
  lemma TailReadsBack(t: Format, e: int, significandExponent: int)
    requires -100 <= significandExponent <= 100
    requires (if e < 0 then -e else e) / 10 + (if e < 0 then -significandExponent else significandExponent) < MaxExp(t)
    ensures TailShape("p" + ExponentText(e))
    ensures TailExponent(t, "p" + ExponentText(e), significandExponent) == e
  {
    hide Uint128.ToDecimal, ReadExponent, DecimalDigit;
    var v := if e < 0 then -e else e;
    var text, digits := "p" + ExponentText(e), Uint128.ToDecimal(v);
    assert text[0] == 'p' && text[1] == if e < 0 then '-' else '+';
    assert text[1..] == ExponentText(e);
    assert text[2..] == digits;
    assert ExponentDigits(text) == digits;
    ReadDecimalWhole(t, v, if e < 0 then -significandExponent else significandExponent);
  }

  /** The dot moves the exponent by at most four for each character. */
  lemma {:induction false} ScanExponentBound(t: Format, m: string)
    ensures -4 * |m| <= ScanOf(t, m).exponent <= 4 * |m|
  {
    hide BitLength, Low;
    if m != "" {
      ScanExponentBound(t, m[..|m| - 1]);
    }
  }

  // ---------------------------------------------------------------- finite numbers

  /** The text of a finite number other than zero comes apart into the pieces it was written from. */
  lemma NumberShape(t: Format, sign: bool, mag: nat)
    requires 0 < mag < InfMag(t)
    ensures var s := (if sign then "-" else "") + MagText(t, mag);
            HexShape(s) && Mantissa(s) == MantissaText(t, mag) && IsNegative(s) == sign &&
            ParsedExponent(t, s) == LeadingExponent(t, mag)
  {
    hide MantissaText, ExponentText, LeadingExponent, TailShape, TailExponent, HexShape, Mantissa, Tail, BitLength,
         Pow2, ScanOf;
    var m, e := MantissaText(t, mag), LeadingExponent(t, mag);
    var tail, se := "p" + ExponentText(e), ScanOf(t, m).exponent;
    MantissaValue(t, mag);
    ScanExponentBound(t, m);
    ExponentBound(t, mag);
    TailReadsBack(t, e, se);
    SplitHex(sign, m, tail);
    assert MagText(t, mag) == "0x" + m + tail;
  }

  /** Exponents are far enough below the bound for the exponent loop to reach their last digit. */
  lemma ExponentBound(t: Format, mag: nat)
    requires mag < InfMag(t)
    ensures var e := LeadingExponent(t, mag);
            (if e < 0 then -e else e) / 10 + 4 * (FractionWidth(t) + 2) < MaxExp(t)
  {
    hide BitLength;
    LeadingZeroesBounds(t, mag % SigOne(t));
    LeadingZeroesLow(t, mag % SigOne(t));
    Kinds(t, mag);
  }

  lemma NumberReadsBack(t: Format, sign: bool, mag: nat, r: Result<nat>)
    requires 0 < mag < InfMag(t)
    requires var s := (if sign then "-" else "") + MagText(t, mag);
             HexShape(s) && ReadsAs(t, Hexfloat, s, r)
    ensures r == Ok(Signed(t, sign, mag))
  {
    hide MagText, MantissaText, LeadingExponent, ScanOf, DigitsValue, FractionDigits, FractionBits, HexShape, Mantissa,
         ParsedExponent, IsExactly, NearestTo, BitLength, Pow2, Misrounds;
    var s, m, e := (if sign then "-" else "") + MagText(t, mag), MantissaText(t, mag), LeadingExponent(t, mag);
    NumberShape(t, sign, mag);
    MantissaValue(t, mag);
    if mag / SigOne(t) == 0 {
      SubnormalIsExactly(t, mag, DigitsValue(m), FractionDigits(m));
    } else {
      NormalIsExactly(t, mag, DigitsValue(m), FractionDigits(m));
    }
    if ScanOf(t, m).significand > 0 {
      ExactNeverMisrounds(t, m, e, mag);
    }
    ExactMagnitude(t, sign, DigitsValue(m), UnitExponent(t, m, e), mag, r);
  }

  /** A correctly rounded representable value is its own bits. */
  lemma ExactMagnitude(t: Format, sign: bool, N: nat, X: int, mag: nat, r: Result<nat>)
    requires mag < InfMag(t) && IsExactly(t, N, X, mag) && CorrectlyRounded(t, sign, N, X, r)
    ensures r == Ok(Signed(t, sign, mag))
  {
    hide IsExactly, NearestTo;
    var nearest :| NearestTo(t, N, X, nearest) && r == Encoded(t, sign, nearest);
    ExactIsNearest(t, N, X, mag, nearest);
  }

  lemma ZeroShape(t: Format, sign: bool)
    ensures var s := (if sign then "-" else "") + MagText(t, 0);
            HexShape(s) && Mantissa(s) == "0" && IsNegative(s) == sign
    ensures ScanOf(t, "0").significand == 0 && DigitsValue("0") == 0
  {
    hide HexShape, Mantissa, Tail, TailShape, DigitsValue, ScanOf, MagText, IsNegative, IsMantissaChar;
    ZeroDigit();
    ZeroTail();
    ZeroText(t);
    SplitHex(sign, "0", "p+0");
    ZeroValue();
    ZeroScan(t);
  }

  lemma ZeroText(t: Format)
    ensures MagText(t, 0) == "0x" + "0" + "p+0"
  {
  }

  lemma ZeroDigit()
    ensures forall c :: c in "0" ==> IsMantissaChar(c)
  {
    assert ParseHexdigit('0') == Ok(0);
  }

  lemma ZeroValue()
    ensures DigitsValue("0") == 0
  {
    assert ParseHexdigit('0') == Ok(0);
    NoDigits();
    assert "0" == "" + ['0'];
    hide DigitsValue;
    DigitsNext("", '0');
  }

  lemma ZeroTail()
    ensures TailShape("p+0")
  {
    assert ExponentDigits("p+0") == "0";
  }

  lemma ZeroScan(t: Format)
    ensures ScanOf(t, "0").significand == 0
  {
    hide Pow2;
    assert "0"[..0] == "";
    Pow2Mono(0, t.bits);
    Pow2Four();
    LowSmall(0, t.bits);
  }

  lemma ZeroReadsBack(t: Format, sign: bool, r: Result<nat>)
    requires var s := (if sign then "-" else "") + MagText(t, 0);
             HexShape(s) && ReadsAs(t, Hexfloat, s, r)
    ensures r == Ok(Signed(t, sign, 0))
  {
    hide HexShape, Mantissa, ParsedExponent, ScanOf, DigitsValue, FractionDigits, MagText, NearestTo;
    ZeroShape(t, sign);
    var s := (if sign then "-" else "") + MagText(t, 0);
    var X := UnitExponent(t, "0", ParsedExponent(t, s));
    ZeroUnits(t);
    assert IsExactly(t, 0, X, 0);
    ExactMagnitude(t, sign, 0, X, 0, r);
  }

  // ---------------------------------------------------------------- NaNs

  lemma ValueNextHex(pre: string, c: char, d: nat)
    requires Value(16, pre).Ok? && ParseHexdigit(c) == Ok(d) && c != '_'
    ensures Value(16, pre + [c]) == Ok(Value(16, pre).value * 16 + d)
  {
    assert (pre + [c])[..|pre|] == pre;
  }

  lemma {:induction false} TagValue(pre: string, v: nat, m: nat, w: nat)
    requires m < Pow2(4 * w) && Value(16, pre) == Ok(v)
    ensures Value(16, pre + TopDigits(m, w)) == Ok(v * Pow2(4 * w) + m)
    decreases w
  {
    hide Pow2, Shr, Low, TopDigits, Value, ParseHexdigit, HexChar;
    Pow2Four();
    if w == 0 {
      TopDigitsNone(m);
      assert pre + "" == pre;
      assert v * 1 == v;
    } else {
      var d, rest := Shr(m, 4 * (w - 1)), Low(m, 4 * (w - 1));
      TopDigitsStep(m, w);
      NotUnderscore(d);
      ValueNextHex(pre, HexChar(d), d);
      assert pre + TopDigits(m, w) == (pre + [HexChar(d)]) + TopDigits(rest, w - 1);
      TagValue(pre + [HexChar(d)], v * 16 + d, rest, w - 1);
      ShrLow(m, 4 * (w - 1));
      Pow2Add(4, 4 * (w - 1));
      NextDigit(v, d, Pow2(4 * (w - 1)), rest, m, Pow2(4 * w));
    }
  }

  lemma NotUnderscore(d: nat)
    requires d < 16
    ensures HexChar(d) != '_'
  {
  }

  /** A text that opens with a sign and continues with `rest`. */
  lemma AfterSign(sign: bool, rest: string)
    requires rest != "" && rest[0] != '-' && rest[0] != '+'
    ensures var s := (if sign then "-" else "") + rest;
            IsNegative(s) == sign && SignLength(s) == (if sign then 1 else 0) && s[SignLength(s)..] == rest
  {
  }

  lemma NanReadsBack(t: Format, sign: bool, tag: nat)
    requires 0 < tag < SigOne(t)
    ensures var s := (if sign then "-" else "") + ("nan" + TagText(t, tag));
            NanShape(s) && IsNegative(s) == sign && NanTag(t, s) == Ok(tag)
  {
    hide TopDigits, HexLength, Pow2, Value, TagText, SignLength;
    var tagText := TagText(t, tag);
    var s := (if sign then "-" else "") + ("nan" + tagText);
    AfterSign(sign, "nan" + tagText);
    var i := SignLength(s);
    assert s[i + 3..] == s[i..][3..] == tagText;
    assert s[i..][..3] == "nan";
    TagTextCases(t, tag);
    if tag != QuietNanTag(t) {
      var digits := TopDigits(tag, HexLength(tag));
      assert tagText[..3] == ":0x";
      assert s[i + 6..] == s[i + 3..][3..] == digits;
      EmptyHex();
      TagValue("", 0, tag, HexLength(tag));
      assert "" + digits == digits;
    }
  }

  lemma TagTextCases(t: Format, tag: nat)
    ensures tag < Pow2(4 * HexLength(tag))
    ensures TagText(t, tag) == if tag == QuietNanTag(t) then "" else ":0x" + TopDigits(tag, HexLength(tag))
  {
    HexLengthBounds(tag);
  }

  lemma EmptyHex()
    ensures Value(16, "") == Ok(0)
  {
  }

  // ---------------------------------------------------------------- every bit pattern

  /** The literal type the lexer gives the text of a bit pattern. */
  function LiteralTypeOf(t: Format, bits: nat): (r: LiteralType) {
    if Mag(t, bits) > InfMag(t) then Nan else if Mag(t, bits) == InfMag(t) then Infinity else Hexfloat
  }

  lemma TextIs(t: Format, bits: nat)
    requires bits < 2 * SignOne(t)
    ensures HexText(t, bits) == (if bits >= SignOne(t) then "-" else "") + MagText(t, Mag(t, bits))
    ensures Mag(t, bits) > InfMag(t) ==> 0 < Mag(t, bits) - InfMag(t) < SigOne(t) &&
                                         MagText(t, Mag(t, bits)) == "nan" + TagText(t, Mag(t, bits) - InfMag(t))
    ensures Mag(t, bits) == InfMag(t) ==> MagText(t, Mag(t, bits)) == "inf"
  {
    hide TagText, MantissaText, ExponentText, LeadingExponent;
    assert "" + MagText(t, Mag(t, bits)) == MagText(t, Mag(t, bits));
  }

  lemma TextHasShape(t: Format, bits: nat)
    requires bits < 2 * SignOne(t)
    ensures Shape(LiteralTypeOf(t, bits), HexText(t, bits))
  {
    hide HexShape, NanShape, HexText, MagText, Mantissa, ParsedExponent, ScanOf, SignLength;
    var sign, mag := bits >= SignOne(t), Mag(t, bits);
    TextIs(t, bits);
    if mag > InfMag(t) {
      NanReadsBack(t, sign, mag - InfMag(t));
    } else if mag == InfMag(t) {
      AfterSign(sign, "inf");
    } else if mag == 0 {
      ZeroShape(t, sign);
    } else {
      NumberShape(t, sign, mag);
    }
  }

  /** Whatever Parse may return for the text of a bit pattern, it is that bit pattern. */
  lemma TextReadsBack(t: Format, bits: nat, r: Result<nat>)
    requires bits < 2 * SignOne(t)
    requires Shape(LiteralTypeOf(t, bits), HexText(t, bits))
    requires ReadsAs(t, LiteralTypeOf(t, bits), HexText(t, bits), r)
    ensures r == Ok(bits)
  {
    hide HexShape, NanShape, NanTag, HexText, MagText, Mantissa, ParsedExponent, ScanOf, SignLength, CorrectlyRounded,
         HexMisrounds;
    var sign, mag := bits >= SignOne(t), Mag(t, bits);
    TextIs(t, bits);
    if mag > InfMag(t) {
      NanReadsBack(t, sign, mag - InfMag(t));
    } else if mag == InfMag(t) {
      AfterSign(sign, "inf");
    } else if mag == 0 {
      ZeroReadsBack(t, sign, r);
    } else {
      NumberReadsBack(t, sign, mag, r);
    }
  }

  /** Writing and reading back is the identity on all 2^32 floats and all 2^64 doubles. */
  method RoundTrip(t: Format, bits: nat) returns (r: Result<nat>)
    requires bits < 2 * SignOne(t)
    ensures r == Ok(bits)
  {
    hide HexText, Shape, ReadsAs;
    var buffer, len := FormatHex(t, bits);
    TextHasShape(t, bits);
    r := Parse(t, LiteralTypeOf(t, bits), buffer[..len]);
    TextReadsBack(t, bits, r);
  }
}
