/** Where ParseHex departs from rounding to nearest: a literal it misrounds, and two whose exponent it does not
    read to the end. */
module HexLimits {
  import opened Arith
  import opened Common
  import opened IntLiteral
  import opened FloatFormat
  import opened FloatRounding
  import opened HexRounding
  import opened HexScan
  import opened HexExponent

  lemma ScanAccept(m: string, c: char, d: nat, sig: nat, x: int, dot: bool, m': string)
    requires m' == m + [c] && ScanOf(FLOAT, m) == Scan(sig, x, dot, false) && sig < 0x100_0000
    requires ParseHexdigit(c) == Ok(d) && c != '_' && c != '.'
    ensures ScanOf(FLOAT, m') == Scan(16 * sig + d, if dot then x - 4 else x, dot, false)
  {
    hide Pow2, BitLength, Low, ScanOf;
    assert Pow2(24) == 0x100_0000 by { SigOneIsPow2(FLOAT); }
    BitLengthAtMost(sig, 24);
    AcceptDigit(FLOAT, sig, d);
    ScanMore(FLOAT, m, c);
  }

  /** 134217737 in hexadecimal. Nothing is dropped and the quotient is even, so nine sixteenths of the last
      place are cut off instead of rounded up. */
  lemma MisroundedLiteral()
    ensures HexShape("0x8000009p+0") && HexMisrounds(FLOAT, "0x8000009p+0")
  {
    hide ParseHexdigit, DecimalDigit, ScanOf, BitLength, Misrounds, HexShape, Mantissa, ParsedExponent;
    MisroundedScan();
    MisroundedShape();
    MisroundedNumber();
  }

  lemma MisroundedShape()
    ensures HexShape("0x8000009p+0") && Mantissa("0x8000009p+0") == "8000009"
    ensures ParsedExponent(FLOAT, "0x8000009p+0") == 0
  {
    hide HexShape, Mantissa, ScanOf, Tail, ReadExponent;
    var s, m, tail := "0x8000009p+0", "8000009", "p+0";
    assert ExponentDigits(tail) == "0";
    assert s == "0x" + m + tail;
    EightNine();
    assert "" + s == s;
    SplitHex(false, m, tail);
    ReadZero(ExponentAdd(tail, ScanOf(FLOAT, m).exponent));
  }

  lemma EightNine()
    ensures forall c :: c in "8000009" ==> IsMantissaChar(c)
  {
    assert ParseHexdigit('8').Ok? && ParseHexdigit('0').Ok? && ParseHexdigit('9').Ok?;
  }

  lemma ReadZero(add: int)
    ensures ReadExponent(FLOAT, "0", add, 0).value == 0
  {
    assert "0"[1..] == "";
  }

  lemma MisroundedScan()
    ensures ScanOf(FLOAT, "8000009") == Scan(0x800_0009, 0, false, false)
  {
    MisroundedPrefix();
    hide ScanOf;
    assert ParseHexdigit('0') == Ok(0) && ParseHexdigit('9') == Ok(9);
    ScanAccept("8000", '0', 0, 0x8000, 0, false, "80000");
    ScanAccept("80000", '0', 0, 0x8_0000, 0, false, "800000");
    ScanAccept("800000", '9', 9, 0x80_0000, 0, false, "8000009");
  }

  lemma MisroundedPrefix()
    ensures ScanOf(FLOAT, "8000") == Scan(0x8000, 0, false, false)
  {
    EmptyScan();
    hide ScanOf;
    assert ParseHexdigit('8') == Ok(8) && ParseHexdigit('0') == Ok(0);
    ScanAccept("", '8', 8, 0, 0, false, "8");
    ScanAccept("8", '0', 0, 8, 0, false, "80");
    ScanAccept("80", '0', 0, 0x80, 0, false, "800");
    ScanAccept("800", '0', 0, 0x800, 0, false, "8000");
  }

  lemma EmptyScan()
    ensures ScanOf(FLOAT, "") == Scan(0, 0, false, false)
  {
  }

  lemma MisroundedNumber()
    ensures BitLength(0x800_0009) == 28 && Misrounds(FLOAT, 0x800_0009, 27, false)
  {
    hide Pow2, BitLength;
    Pow2Values();
    Pow2Add(16, 11);
    Pow2Add(16, 12);
    SmallPowers();
    Pow2Add(8, 3);
    Pow2Add(8, 4);
    BitLengthAtMost(0x800_0009, 28);
    BitLengthAtMost(0x800_0009, 27);
  }

  lemma SmallPowers()
    ensures Pow2(3) == 8 && Pow2(4) == 16
  {
  }

  /** A number 2^1341 times too small is read as the smallest subnormal: after "p-149" the loop stops. The
      literal is not one of those misrounded, so by ParseHex its result is wrong. */
  lemma ExponentCutShort()
    ensures var s := "0x1p-1490";
            HexShape(s) && ParsedExponent(FLOAT, s) == -149 && FullExponent(s) == -1490 &&
            !WholeExponentRead(FLOAT, s) &&
            !HexMisrounds(FLOAT, s) && !RightAsWritten(FLOAT, s)
  {
    hide HexShape, Mantissa, Tail, ScanOf, ReadExponent, Value, IsMantissaChar, BitLength;
    OneScan();
    OneBit();
    CutShortRead();
    CutShortValue();
    var s, tail := "0x1p-1490", "p-1490";
    assert s == "0x" + "1" + tail && "" + s == s;
    assert ExponentDigits(tail) == "1490";
    SplitHex(false, "1", tail);
    assert '0' in "0";
  }

  /** No result is right for both exponents. */
  lemma CutShortShows(r: Result<nat>)
    ensures CorrectlyRounded(FLOAT, false, DigitsValue("1"), UnitExponent(FLOAT, "1", -149), r) ==>
            !CorrectlyRounded(FLOAT, false, DigitsValue("1"), UnitExponent(FLOAT, "1", -1490), r)
  {
    hide CorrectlyRounded, TrueMag, ScanOf, BitLength, DigitsValue, UnitExponent;
    OneScan();
    OneBit();
    SmallestSubnormal();
    RoundsToZero();
    RoundedIsCorrect(FLOAT, "1", -149, false, r);
    RoundedIsCorrect(FLOAT, "1", -1490, false, r);
  }

  lemma OneScan()
    ensures ScanOf(FLOAT, "1") == Scan(1, 0, false, false)
    ensures forall c :: c in "1" ==> IsMantissaChar(c)
  {
    EmptyScan();
    hide ScanOf;
    ScanAccept("", '1', 1, 0, 0, false, "1");
  }

  lemma OneBit()
    ensures BitLength(1) == 1
  {
  }

  lemma SmallestSubnormal()
    ensures TrueMag(FLOAT, 1, -149, false) == 1
  {
    hide Pow2, BitLength, Shr, Low;
    OneBit();
    ShrLow(Pow2(23), 23);
    ShlShr(1, 23);
    Pow2Mono(0, 22);
    TrueMagIs(FLOAT, 1, -149, false, 0);
  }

  lemma RoundsToZero()
    ensures TrueMag(FLOAT, 1, -1490, false) == 0
  {
    hide Pow2, BitLength, RoundHalfEven;
    OneBit();
    Pow2Mono(24, 1363);
    SigOneIsPow2(FLOAT);
    TooSmall(Padded(FLOAT, 1), RightShift(FLOAT, 1, -1490), false);
  }

  lemma CutShortRead()
    ensures ReadExponent(FLOAT, "1490", 0, 0) == ExponentRead(149, "0")
  {
    hide ReadExponent;
    ReadOne("1490", 1, "490", 0);
    ReadOne("490", 4, "90", 1);
    ReadOne("90", 9, "0", 14);
  }

  lemma ReadOne(x: string, d: nat, rest: string, value: nat)
    requires x != "" && x[0] != '_' && DecimalDigit(x[0]) == Ok(d) && x[1..] == rest
    requires forall c :: c in x ==> c == '_' || DecimalDigit(c).Ok?
    ensures var next := value * 10 + d;
            ReadExponent(FLOAT, x, 0, value) ==
            if next >= 128 then ExponentRead(next, rest) else ReadExponent(FLOAT, rest, 0, next)
  {
  }

  lemma CutShortValue()
    ensures Value(10, "1490") == Ok(1490)
  {
    ValueEmpty();
    assert DecimalDigit('1') == Ok(1) && DecimalDigit('4') == Ok(4) && DecimalDigit('9') == Ok(9) &&
           DecimalDigit('0') == Ok(0);
    hide Value, DecimalDigit;
    ValueNext("", '1');
    ValueNext("1", '4');
    ValueNext("14", '9');
    ValueNext("149", '0');
    assert "" + ['1'] == "1" && "1" + ['4'] == "14" && "14" + ['9'] == "149" && "149" + ['0'] == "1490";
  }

  /** Without a sign the dot's part is left out of the test: after "p128" the loop stops, and a number far
      beyond the largest is read as 2^124. */
  lemma UnsignedCutShort()
    ensures var s := "0x0.1p1280";
            HexShape(s) && ParsedExponent(FLOAT, s) == 128 && FullExponent(s) == 1280 && !WholeExponentRead(FLOAT, s) &&
            !HexMisrounds(FLOAT, s) && !RightAsWritten(FLOAT, s)
  {
    hide HexShape, Mantissa, Tail, ScanOf, ReadExponent, Value, IsMantissaChar, BitLength;
    SixteenthScan();
    OneBit();
    UnsignedRead();
    UnsignedValue();
    var s, tail := "0x0.1p1280", "p1280";
    assert s == "0x" + "0.1" + tail && "" + s == s;
    assert ExponentDigits(tail) == "1280";
    SplitHex(false, "0.1", tail);
    assert '0' in "0";
  }

  /** Only the overflow error is right for what was written, and never for what was read. */
  lemma UnsignedShows(r: Result<nat>)
    ensures CorrectlyRounded(FLOAT, false, DigitsValue("0.1"), UnitExponent(FLOAT, "0.1", 1280), r) <==> r == Error
    ensures CorrectlyRounded(FLOAT, false, DigitsValue("0.1"), UnitExponent(FLOAT, "0.1", 128), r) ==> r.Ok?
  {
    hide CorrectlyRounded, TrueMag, ScanOf, BitLength, DigitsValue, UnitExponent;
    SixteenthScan();
    OneBit();
    OverflowsIs(FLOAT, 1, 1276, false);
    OverflowsIs(FLOAT, 1, 124, false);
    ReadMagRight(FLOAT, false, 1, 124, false);
    RoundedIsCorrect(FLOAT, "0.1", 1280, false, r);
    RoundedIsCorrect(FLOAT, "0.1", 128, false, r);
  }

  lemma SixteenthScan()
    ensures ScanOf(FLOAT, "0.1") == Scan(1, -4, true, false)
    ensures forall c :: c in "0.1" ==> IsMantissaChar(c)
  {
    EmptyScan();
    hide ScanOf;
    assert ParseHexdigit('0') == Ok(0) && ParseHexdigit('1') == Ok(1);
    ScanAccept("", '0', 0, 0, 0, false, "0");
    ScanMore(FLOAT, "0", '.');
    assert "0" + ['.'] == "0.";
    ScanAccept("0.", '1', 1, 0, 0, true, "0.1");
  }

  lemma UnsignedRead()
    ensures ReadExponent(FLOAT, "1280", 0, 0) == ExponentRead(128, "0")
  {
    hide ReadExponent;
    ReadOne("1280", 1, "280", 0);
    ReadOne("280", 2, "80", 1);
    ReadOne("80", 8, "0", 12);
  }

  lemma UnsignedValue()
    ensures Value(10, "1280") == Ok(1280)
  {
    ValueEmpty();
    assert DecimalDigit('1') == Ok(1) && DecimalDigit('2') == Ok(2) && DecimalDigit('8') == Ok(8) &&
           DecimalDigit('0') == Ok(0);
    hide Value, DecimalDigit;
    ValueNext("", '1');
    ValueNext("1", '2');
    ValueNext("12", '8');
    ValueNext("128", '0');
    assert "" + ['1'] == "1" && "1" + ['2'] == "12" && "12" + ['8'] == "128" && "128" + ['0'] == "1280";
  }
}
