/** FloatWriter::WriteHex, src/literal.cc: a float's bits as text. */
module FloatWriter {
  import opened Arith
  import opened Common
  import opened IntLiteral
  import opened FloatFormat
  import opened FloatRounding
  import opened HexRounding
  import Uint128

  // ---------------------------------------------------------------- the text

  function HexChar(d: nat): (c: char)
    requires d < 16
    ensures ParseHexdigit(c) == Ok(d) && ('0' <= c <= '9' || 'a' <= c <= 'f')
  {
    "0123456789abcdef"[d]
  }

  lemma TopDigitFits(m: nat, w: nat)
    requires w > 0 && m < Pow2(4 * w)
    ensures Shr(m, 4 * (w - 1)) < 16
  {
    hide Pow2, Shr;
    ShrBound(m, 4 * (w - 1), 4 * w);
    Pow2Four();
  }

  /** The w hexadecimal digits of m. */
  function TopDigits(m: nat, w: nat): (s: string)
    requires m < Pow2(4 * w)
    ensures |s| == w
  {
    if w == 0 then ""
    else
      TopDigitFits(m, w);
      [HexChar(Shr(m, 4 * (w - 1)))] + TopDigits(Low(m, 4 * (w - 1)), w - 1)
  }

  /** The same without trailing zeros. */
  function FractionText(m: nat, w: nat): (s: string)
    requires m < Pow2(4 * w)
    ensures |s| <= w && (m == 0 <==> s == "")
  {
    if m == 0 then ""
    else
      if w == 0 then (Pow2Four(); "") else
      TopDigitFits(m, w);
      [HexChar(Shr(m, 4 * (w - 1)))] + FractionText(Low(m, 4 * (w - 1)), w - 1)
  }

  /** How many hexadecimal digits a positive number has. */
  function HexLength(m: nat): (w: nat) {
    if m < 16 then 1 else 1 + HexLength(m / 16)
  }

  lemma {:induction false} HexLengthBounds(m: nat)
    ensures HexLength(m) > 0 && m < Pow2(4 * HexLength(m)) && (m > 0 ==> Pow2(4 * (HexLength(m) - 1)) <= m)
    decreases m
  {
    Pow2Four();
    if m >= 16 {
      HexLengthBounds(m / 16);
      Pow2Add(4, 4 * HexLength(m / 16));
      Pow2Add(4, 4 * (HexLength(m / 16) - 1));
    }
  }

  /** Digits needed for a fraction, and the zeros below its last bit. */
  function FractionWidth(t: Format): (w: nat) {
    if t.bits == 32 then 6 else 13
  }

  function FractionPad(t: Format): (p: nat) {
    4 * FractionWidth(t) - t.sigBits
  }

  function LeadingZeroes(t: Format, sig: nat): (n: int) {
    t.sigBits - BitLength(sig)
  }

  /** The bits after the leading one, aligned to whole digits; a subnormal's leading one is its own. */
  function FractionBits(t: Format, mag: nat): (m: nat)
    requires mag / SigOne(t) == 0 ==> LeadingZeroes(t, mag % SigOne(t)) >= -1
  {
    var n, sig := mag / SigOne(t), mag % SigOne(t);
    (if n == 0 then Low(sig * Pow2(LeadingZeroes(t, sig) + 1), t.sigBits) else sig) * Pow2(FractionPad(t))
  }

  lemma LeadingZeroesBounds(t: Format, sig: nat)
    requires sig < SigOne(t)
    ensures LeadingZeroes(t, sig) >= 0
    ensures sig > 0 ==> LeadingZeroes(t, sig) < t.sigBits
    ensures sig > 0 ==> SigOne(t) <= sig * Pow2(LeadingZeroes(t, sig) + 1) < 2 * SigOne(t)
  {
    hide Pow2;
    SigOneIsPow2(t);
    if sig > 0 {
      BitLengthBounds(sig);
      var b := BitLength(sig);
      if b > t.sigBits { Pow2Mono(t.sigBits, b - 1); }
      var c := t.sigBits + 1 - b;
      Pow2Add(b, c);
      Pow2Add(b - 1, c);
      MulLeRight(Pow2(b - 1), sig, Pow2(c));
      MulLeRight(sig + 1, Pow2(b), Pow2(c));
      MulSucc(Pow2(c), sig);
    }
  }

  lemma FractionBitsFit(t: Format, mag: nat)
    ensures mag / SigOne(t) == 0 ==> LeadingZeroes(t, mag % SigOne(t)) >= -1
    ensures FractionBits(t, mag) < Pow2(4 * FractionWidth(t))
  {
    hide Pow2, BitLength, Low;
    var n, sig := mag / SigOne(t), mag % SigOne(t);
    LeadingZeroesBounds(t, sig);
    SigOneIsPow2(t);
    Pow2Add(t.sigBits, FractionPad(t));
    var f := if n == 0 then Low(sig * Pow2(LeadingZeroes(t, sig) + 1), t.sigBits) else sig;
    MulLeRight(f + 1, Pow2(t.sigBits), Pow2(FractionPad(t)));
    MulSucc(Pow2(FractionPad(t)), f);
  }

  function ExponentText(e: int): (s: string) {
    (if e < 0 then "-" else "+") + Uint128.ToDecimal(if e < 0 then -e else e)
  }

  /** The unbiased exponent of the leading one. */
  function LeadingExponent(t: Format, mag: nat): (e: int) {
    var n, sig := mag / SigOne(t), mag % SigOne(t);
    if n == 0 then MinExp(t) - LeadingZeroes(t, sig) else n + MinExp(t)
  }

  function MantissaText(t: Format, mag: nat): (s: string) {
    FractionBitsFit(t, mag);
    "1" + if mag % SigOne(t) == 0 then "" else "." + FractionText(FractionBits(t, mag), FractionWidth(t))
  }

  function TagText(t: Format, sig: nat): (s: string) {
    HexLengthBounds(sig);
    if sig == QuietNanTag(t) then "" else ":0x" + TopDigits(sig, HexLength(sig))
  }

  /** The text without a sign. */
  function MagText(t: Format, mag: nat): (s: string) {
    if mag > InfMag(t) then "nan" + TagText(t, mag - InfMag(t))
    else if mag == InfMag(t) then "inf"
    else if mag == 0 then "0x0p+0"
    else "0x" + MantissaText(t, mag) + "p" + ExponentText(LeadingExponent(t, mag))
  }

  function HexText(t: Format, bits: nat): (s: string) {
    if bits >= SignOne(t) then "-" + MagText(t, bits - SignOne(t)) else MagText(t, bits)
  }

  // ---------------------------------------------------------------- the writer

  /** The size of the local buffer, kMaxHexBufferSize. */
  function MaxHexBufferSize(t: Format): (n: nat) {
    if t.bits == 32 then 20 else 40
  }

  /** Store text at p and advance past it: `strcpy(p, text); p += n` and `*p++ = c`. What stands before p
      is given in two parts, the second of which grows. */
  method Put(buffer: array<char>, p: nat, text: string, ghost start: string, ghost done: string) returns (p': nat)
    requires p + |text| <= buffer.Length && buffer[..p] == start + done
    modifies buffer
    ensures p' == p + |text| && buffer[..p'] == start + (done + text)
  {
    forall i | 0 <= i < |text| {
      buffer[p + i] := text[i];
    }
    p' := p + |text|;
    assert buffer[..p'] == (start + done) + text;
    assert (start + done) + text == start + (done + text);
  }

  /** The top digit of a word holding w digits at its top, and the word without it. */
  lemma TopNybble(t: Format, m: nat, w: nat, x: nat)
    requires 0 < w && 4 * w <= t.bits && m < Pow2(4 * w) && x == m * Pow2(t.bits - 4 * w)
    ensures Shr(x, t.bits - 4) == Shr(m, 4 * (w - 1)) < 16
    ensures Low(16 * x, t.bits) == Low(m, 4 * (w - 1)) * Pow2(t.bits - 4 * (w - 1))
  {
    hide Pow2, Shr, Low;
    var j := t.bits - 4 * w;
    TopDigitFits(m, w);
    ShlShr(m, j);
    ShrShr(x, j, 4 * (w - 1));
    Pow2Four();
    Pow2Add(4, j);
    Shifted16(m, Pow2(j), x, Pow2(j + 4));
    ShlShr(m, j + 4);
    ShrShr(16 * x, j + 4, 4 * (w - 1));
    MulCommutes(Pow2(j + 4), Low(m, 4 * (w - 1)));
  }

  lemma Shifted16(m: nat, w: nat, x: nat, w': nat)
    requires x == m * w && w' == 16 * w
    ensures 16 * x == m * w'
  {
  }

  lemma WordIsZero(m: nat, w: nat, x: nat)
    requires w > 0 && x == m * w
    ensures x == 0 <==> m == 0
  {
    if m > 0 { MulLeRight(1, m, w); }
  }

  /** The word x has the w digits of m still to be written at its top. */
  ghost predicate Aligned(t: Format, m: nat, w: nat, x: nat) {
    w <= FractionWidth(t) && m < Pow2(4 * w) && x == m * Pow2(t.bits - 4 * w)
  }

  lemma AlignedZero(t: Format, m: nat, w: nat, x: nat)
    requires Aligned(t, m, w, x)
    ensures (x == 0 <==> m == 0) && m < Pow2(4 * w) && (m > 0 ==> w > 0)
  {
    PowZero();
    hide Pow2;
    WordIsZero(m, Pow2(t.bits - 4 * w), x);
  }

  lemma AlignedNext(t: Format, m: nat, w: nat, x: nat)
    requires Aligned(t, m, w, x) && w > 0
    ensures Shr(x, t.bits - 4) == Shr(m, 4 * (w - 1)) < 16 && Low(m, 4 * (w - 1)) < Pow2(4 * (w - 1))
    ensures Aligned(t, Low(m, 4 * (w - 1)), w - 1, Low(16 * x, t.bits))
  {
    hide Pow2, Shr, Low;
    TopNybble(t, m, w, x);
  }

  /** `while (sig)`: the digits from the top until nothing is left. */
  method WriteFraction(t: Format, buffer: array<char>, p: nat, sig: nat, ghost m: nat) returns (p': nat)
    requires m < Pow2(4 * FractionWidth(t)) && Aligned(t, m, FractionWidth(t), sig)
    requires p + FractionWidth(t) <= buffer.Length
    modifies buffer
    ensures p' == p + |FractionText(m, FractionWidth(t))|
    ensures buffer[..p'] == old(buffer[..p]) + FractionText(m, FractionWidth(t))
  {
    hide Pow2, Shr, Low, FractionText, Aligned, HexChar;
    p' := p;
    var x := sig;
    ghost var left, w, goal := m, FractionWidth(t), buffer[..p] + FractionText(m, FractionWidth(t));
    while x != 0
      invariant 0 <= w <= FractionWidth(t) && 0 <= left < Pow2(4 * w) && Aligned(t, left, w, x)
      invariant p' + w <= buffer.Length && buffer[..p'] + FractionText(left, w) == goal
      decreases w
    {
      AlignedZero(t, left, w, x);
      AlignedNext(t, left, w, x);
      p' := WriteNybble(t, buffer, p', Shr(x, t.bits - 4), left, w);
      x := Low(16 * x, t.bits);
      left, w := Low(left, 4 * (w - 1)), w - 1;
    }
    AlignedZero(t, left, w, x);
    FractionStep(left, w);
  }

  method WriteNybble(t: Format, buffer: array<char>, p: nat, nybble: nat, ghost left: nat, ghost w: nat)
      returns (p': nat)
    requires 0 < left < Pow2(4 * w) && 0 < w && nybble == Shr(left, 4 * (w - 1)) < 16 && p < buffer.Length
    modifies buffer
    ensures p' == p + 1
    ensures buffer[..p'] + FractionText(Low(left, 4 * (w - 1)), w - 1) == old(buffer[..p]) + FractionText(left, w)
  {
    hide Pow2, Shr, Low, FractionText, HexChar;
    FractionStep(left, w);
    buffer[p] := HexChar(nybble);
    p' := p + 1;
    assert buffer[..p'] == old(buffer[..p]) + [HexChar(nybble)];
  }

  lemma FractionStep(m: nat, w: nat)
    requires m < Pow2(4 * w)
    ensures m == 0 ==> FractionText(m, w) == ""
    ensures m != 0 ==> w > 0 && Shr(m, 4 * (w - 1)) < 16 &&
                       FractionText(m, w) == [HexChar(Shr(m, 4 * (w - 1)))] + FractionText(Low(m, 4 * (w - 1)), w - 1)
  {
    if m != 0 {
      Pow2Four();
      TopDigitFits(m, w);
    }
  }

  lemma SkipZeroNybble(t: Format, m: nat, w: nat, x: nat)
    requires 0 < w && 4 * w <= t.bits && m < Pow2(4 * w) && x == m * Pow2(t.bits - 4 * w)
    ensures m > 0 && Shr(x, t.bits - 4) == 0 ==> w > 1 && m < Pow2(4 * (w - 1))
    ensures Shr(x, t.bits - 4) == 0 ==> Low(16 * x, t.bits) == m * Pow2(t.bits - 4 * (w - 1))
    ensures Shr(x, t.bits - 4) != 0 ==> HexLength(m) == w
  {
    hide Pow2, Shr, Low;
    TopNybble(t, m, w, x);
    ShrBound(m, 4 * (w - 1), 4 * (w - 1));
    Pow2Four();
    if Shr(x, t.bits - 4) == 0 {
      LowSmall(m, 4 * (w - 1));
    } else {
      HexLengthIs(m, w);
    }
  }

  lemma HexLengthIs(m: nat, w: nat)
    requires w > 0 && Pow2(4 * (w - 1)) <= m < Pow2(4 * w)
    ensures HexLength(m) == w
  {
    hide Pow2;
    HexLengthBounds(m);
    var h := HexLength(m);
    if h < w {
      Pow2Mono(4 * h, 4 * (w - 1));
    } else if w < h {
      Pow2Mono(4 * w, 4 * (h - 1));
    }
  }

  /** The payload of a NaN: leading zeroes are skipped, the rest written out. */
  method WriteTag(t: Format, buffer: array<char>, p: nat, tag: nat) returns (p': nat)
    requires 0 < tag < SigOne(t) && p + FractionWidth(t) <= buffer.Length
    modifies buffer
    ensures tag < Pow2(4 * HexLength(tag)) && p' == p + HexLength(tag) <= buffer.Length
    ensures buffer[..p'] == old(buffer[..p]) + TopDigits(tag, HexLength(tag))
  {
    hide Pow2, Shr, Low, HexLength, TopDigits;
    var sig := tag;
    var numNybbles: nat := t.bits / 4;
    TagWord(t, tag);
    while Shr(sig, t.bits - 4) == 0
      invariant 0 < numNybbles && 4 * numNybbles <= t.bits
      invariant tag < Pow2(4 * numNybbles) && sig == tag * Pow2(t.bits - 4 * numNybbles)
      modifies {}
      decreases numNybbles
    {
      SkipZeroNybble(t, tag, numNybbles, sig);
      sig := Low(16 * sig, t.bits);
      numNybbles := numNybbles - 1;
    }
    SkipZeroNybble(t, tag, numNybbles, sig);
    TagLength(t, tag);
    p' := WriteNybbles(t, buffer, p, sig, tag, numNybbles);
  }

  method WriteNybbles(t: Format, buffer: array<char>, p: nat, sig0: nat, ghost m: nat, numNybbles0: nat)
      returns (p': nat)
    requires 4 * numNybbles0 <= t.bits && m < Pow2(4 * numNybbles0) && sig0 == m * Pow2(t.bits - 4 * numNybbles0)
    requires p + numNybbles0 <= buffer.Length
    modifies buffer
    ensures p' == p + numNybbles0 && buffer[..p'] == old(buffer[..p]) + TopDigits(m, numNybbles0)
  {
    hide Pow2, Shr, Low, TopDigits;
    p' := p;
    var sig, numNybbles := sig0, numNybbles0;
    ghost var left, start, done := m, buffer[..p], "";
    while numNybbles != 0
      invariant 0 <= numNybbles && 4 * numNybbles <= t.bits && 0 <= left < Pow2(4 * numNybbles)
      invariant sig == left * Pow2(t.bits - 4 * numNybbles)
      invariant p' == p + |done| && |done| + numNybbles == numNybbles0
      invariant buffer[..p'] == start + done
      invariant done + TopDigits(left, numNybbles) == TopDigits(m, numNybbles0)
      decreases numNybbles
    {
      TopDigitsStep(left, numNybbles);
      TopNybble(t, left, numNybbles, sig);
      var nybble := Low(Shr(sig, t.bits - 4), 4);
      NybbleMask(Shr(sig, t.bits - 4));
      p' := Put(buffer, p', [HexChar(nybble)], start, done);
      sig := Low(16 * sig, t.bits);
      done, left := done + [HexChar(nybble)], Low(left, 4 * (numNybbles - 1));
      numNybbles := numNybbles - 1;
    }
    TopDigitsNone(left);
  }

  lemma NybbleMask(x: nat)
    requires x < 16
    ensures Low(x, 4) == x
  {
    Pow2Four();
    LowSmall(x, 4);
  }

  lemma TagWord(t: Format, tag: nat)
    requires tag < SigOne(t)
    ensures t.bits == 4 * (t.bits / 4) && tag < Pow2(t.bits) && tag == tag * Pow2(0)
  {
    hide Pow2;
    SigOneIsPow2(t);
    Pow2Mono(t.sigBits, t.bits);
    Pow2Four();
  }

  lemma TagLength(t: Format, tag: nat)
    requires 0 < tag < SigOne(t)
    ensures HexLength(tag) <= FractionWidth(t) && tag < Pow2(4 * HexLength(tag))
  {
    hide Pow2;
    HexLengthBounds(tag);
    SigOneIsPow2(t);
    if HexLength(tag) > FractionWidth(t) {
      Pow2Mono(t.sigBits, 4 * (HexLength(tag) - 1));
    }
  }

  lemma TopDigitsStep(m: nat, w: nat)
    requires w > 0 && m < Pow2(4 * w)
    ensures Shr(m, 4 * (w - 1)) < 16
    ensures TopDigits(m, w) == [HexChar(Shr(m, 4 * (w - 1)))] + TopDigits(Low(m, 4 * (w - 1)), w - 1)
  {
    TopDigitFits(m, w);
  }

  lemma TopDigitsNone(m: nat)
    requires m < Pow2(0)
    ensures TopDigits(m, 0) == ""
  {
  }

  /** The exponent, at most four digits of it. */
  method WriteExponent(buffer: array<char>, p: nat, exp0: int) returns (p': nat)
    requires -2000 < exp0 < 2000 && p + 5 <= buffer.Length
    modifies buffer
    ensures p' == p + |ExponentText(exp0)| && p' <= p + 5 && buffer[..p'] == old(buffer[..p]) + ExponentText(exp0)
  {
    hide Uint128.ToDecimal;
    var exp := exp0;
    ghost var start := buffer[..p];
    if exp < 0 {
      p' := Put(buffer, p, "-", start, "");
      start := start + "-";
      exp := -exp;
    } else {
      p' := Put(buffer, p, "+", start, "");
      start := start + "+";
    }
    p' := WriteFourDigits(buffer, p', exp, start);
  }

  method WriteFourDigits(buffer: array<char>, p: nat, exp: nat, ghost start: string) returns (p': nat)
    requires exp < 2000 && p + 4 <= buffer.Length && buffer[..p] == start
    modifies buffer
    ensures p' == p + |Uint128.ToDecimal(exp)| <= p + 4 && buffer[..p'] == start + Uint128.ToDecimal(exp)
  {
    hide Uint128.ToDecimal;
    FourDigits(exp);
    p' := p;
    ghost var done := "";
    if exp >= 1000 {
      p' := Put(buffer, p', "1", start, done);
      done := done + "1";
    }
    if exp >= 100 {
      p' := Put(buffer, p', [Uint128.DigitChar(exp / 100 % 10)], start, done);
      done := done + [Uint128.DigitChar(exp / 100 % 10)];
    }
    if exp >= 10 {
      p' := Put(buffer, p', [Uint128.DigitChar(exp / 10 % 10)], start, done);
      done := done + [Uint128.DigitChar(exp / 10 % 10)];
    }
    p' := Put(buffer, p', [Uint128.DigitChar(exp % 10)], start, done);
  }

  lemma FourDigits(v: nat)
    requires v < 2000
    ensures Uint128.ToDecimal(v) ==
            (if v >= 1000 then "1" else "") + (if v >= 100 then [Uint128.DigitChar(v / 100 % 10)] else "") +
            (if v >= 10 then [Uint128.DigitChar(v / 10 % 10)] else "") + [Uint128.DigitChar(v % 10)]
  {
    hide Uint128.ToDecimal, Uint128.DigitChar;
    TwoDigits(v, v / 10);
    TwoDigits(v / 10, v / 100);
    TwoDigits(v / 100, v / 1000);
    TwoDigits(v / 1000, 0);
    assert Uint128.DigitChar(1) == '1' by { OneDigit(); }
  }

  lemma OneDigit()
    ensures Uint128.DigitChar(1) == '1'
  {
  }

  lemma TwoDigits(v: nat, q: nat)
    requires 10 * q <= v < 10 * q + 10
    ensures Uint128.ToDecimal(v) == (if v < 10 then "" else Uint128.ToDecimal(q)) + [Uint128.DigitChar(v % 10)]
  {
    assert q == v / 10;
  }

  /** The magnitude of a bit pattern. */
  function Mag(t: Format, bits: nat): (m: nat)
    ensures bits < 2 * SignOne(t) ==> m < SignOne(t) && Signed(t, bits >= SignOne(t), m) == bits
  {
    if bits >= SignOne(t) then bits - SignOne(t) else bits
  }

  /** The three fields as the source extracts them. */
  lemma Fields(t: Format, bits: nat)
    requires bits < 2 * SignOne(t)
    ensures Shr(bits, t.bits - 1) != 0 <==> bits >= SignOne(t)
    ensures Low(Shr(bits, t.sigBits), t.bits - t.sigBits - 1) == Mag(t, bits) / SigOne(t)
    ensures Low(bits, t.sigBits) == Mag(t, bits) % SigOne(t)
  {
    hide Pow2;
    TraitsAsShifts(t);
    Pow2Values();
    assert Pow2(t.bits - t.sigBits - 1) == 2 * MaxExp(t) by { HalfPow(t.bits - t.sigBits - 1); }
    if t.bits == 32 {
    } else {
    }
  }

  /** Where infinity, the NaNs and zero stand. */
  lemma Kinds(t: Format, mag: nat)
    requires mag < SignOne(t)
    ensures var n, sig := mag / SigOne(t), mag % SigOne(t);
            (n - ExpBias(t) == MaxExp(t) <==> mag >= InfMag(t)) && n <= 2 * MaxExp(t) - 1 &&
            (mag >= InfMag(t) ==> sig == mag - InfMag(t)) &&
            (n == 0 && sig == 0 <==> mag == 0)
  {
    if t.bits == 32 {
    } else {
    }
  }

  lemma BitLengthShifted(x: nat, k: nat)
    requires x > 0
    ensures x * Pow2(k) > 0 && BitLength(x * Pow2(k)) == BitLength(x) + k
    decreases k
  {
    if k == 0 {
      Pow2Four();
    } else {
      BitLengthShifted(x, k - 1);
      assert x * Pow2(k) == 2 * (x * Pow2(k - 1)) by { ShiftedTwice(x, Pow2(k - 1), Pow2(k)); }
    }
  }

  lemma ShiftedTwice(x: nat, w: nat, w': nat)
    requires w' == 2 * w
    ensures x * w' == 2 * (x * w)
  {
  }

  /** `sig <<= kBits - kSigBits` leaves the significand at the top of the word. */
  lemma AlignedWord(t: Format, sig: nat)
    requires sig < SigOne(t)
    ensures sig * Pow2(t.bits - t.sigBits) >= 0
    ensures Low(sig * Pow2(t.bits - t.sigBits), t.bits) == sig * Pow2(t.bits - t.sigBits)
  {
    hide Pow2, Low;
    SigOneIsPow2(t);
    Pow2Add(t.sigBits, t.bits - t.sigBits);
    LessRight(sig, SigOne(t), Pow2(t.bits - t.sigBits));
    LowSmall(sig * Pow2(t.bits - t.sigBits), t.bits);
  }

  /** The fraction's word, for a normal number. */
  lemma NormalWord(t: Format, mag: nat, x: nat)
    requires mag / SigOne(t) > 0 && x == mag % SigOne(t) * Pow2(t.bits - t.sigBits)
    ensures x == FractionBits(t, mag) * Pow2(t.bits - 4 * FractionWidth(t))
  {
    hide Pow2, BitLength, Low;
    Pow2Add(FractionPad(t), t.bits - 4 * FractionWidth(t));
    MulAssoc(mag % SigOne(t), Pow2(FractionPad(t)), Pow2(t.bits - 4 * FractionWidth(t)));
  }

  /** The fraction's word, for a subnormal one: shifted past its own leading one. */
  lemma SubnormalWord(t: Format, mag: nat, x: nat, lz: int, y: nat)
    requires mag / SigOne(t) == 0 && mag > 0 && x == mag * Pow2(t.bits - t.sigBits)
    requires lz == t.bits - BitLength(x) && lz + 1 >= 0 && y == Low(x * Pow2(lz + 1), t.bits)
    ensures mag % SigOne(t) == mag && lz == LeadingZeroes(t, mag) && 0 <= lz < t.bits - 1
    ensures y == FractionBits(t, mag) * Pow2(t.bits - 4 * FractionWidth(t))
  {
    hide Pow2, BitLength, Low, Shr;
    SmallMag(t, mag);
    LeadingZeroesBounds(t, mag);
    BitLengthShifted(mag, t.bits - t.sigBits);
    var j, k := t.bits - t.sigBits, Pow2(lz + 1);
    SwapFactors(mag, Pow2(j), k);
    ShlShr(mag * k, j);
    ShrShr(mag * k * Pow2(j), j, t.sigBits);
    var f := Low(mag * k, t.sigBits);
    Pow2Add(FractionPad(t), t.bits - 4 * FractionWidth(t));
    MulAssoc(f, Pow2(FractionPad(t)), Pow2(t.bits - 4 * FractionWidth(t)));
    MulCommutes(f, Pow2(j));
  }

  lemma SmallMag(t: Format, mag: nat)
    requires mag / SigOne(t) == 0
    ensures mag < SigOne(t) && mag % SigOne(t) == mag
  {
    if t.bits == 32 {
    } else {
    }
  }

  lemma ExponentRange(t: Format, mag: nat)
    requires mag < InfMag(t)
    ensures -2000 < LeadingExponent(t, mag) < 2000
  {
    hide BitLength;
    LeadingZeroesBounds(t, mag % SigOne(t));
    LeadingZeroesLow(t, mag % SigOne(t));
    Kinds(t, mag);
  }

  lemma LeadingZeroesLow(t: Format, sig: nat)
    ensures LeadingZeroes(t, sig) <= t.sigBits
  {
  }

  /** The digits after the leading one, and the exponent that goes with it. */
  method WriteSignificand(t: Format, buffer: array<char>, p: nat, mag: nat, exp0: int) returns (p': nat, exp: int)
    requires 0 < mag < InfMag(t) && mag % SigOne(t) != 0 && exp0 == mag / SigOne(t) - ExpBias(t)
    requires p + FractionWidth(t) + 1 <= buffer.Length
    modifies buffer
    ensures exp == LeadingExponent(t, mag)
    ensures FractionBits.requires(t, mag) && FractionBits(t, mag) < Pow2(4 * FractionWidth(t))
    ensures var text := "." + FractionText(FractionBits(t, mag), FractionWidth(t));
            p' == p + |text| && buffer[..p'] == old(buffer[..p]) + text
  {
    hide Pow2, Low, BitLength, FractionBits, FractionText, LeadingExponent;
    Kinds(t, mag);
    FractionBitsFit(t, mag);
    AlignedWord(t, mag % SigOne(t));
    var sig := Low(mag % SigOne(t) * Pow2(t.bits - t.sigBits), t.bits);
    LeadingExponentIs(t, mag);
    exp := exp0;
    if exp == MinExp(t) {
      SmallMag(t, mag);
      BitLengthShifted(mag, t.bits - t.sigBits);
      LeadingZeroesBounds(t, mag);
      var leadingZeroes := t.bits - BitLength(sig);
      SubnormalWord(t, mag, sig, leadingZeroes, Low(sig * Pow2(leadingZeroes + 1), t.bits));
      if leadingZeroes < t.bits - 1 {
        sig := Low(sig * Pow2(leadingZeroes + 1), t.bits);
      } else {
        sig := 0;
      }
      exp := exp - leadingZeroes;
    } else {
      NormalWord(t, mag, sig);
    }
    ghost var start := buffer[..p];
    p' := Put(buffer, p, ".", start, "");
    p' := WriteFraction(t, buffer, p', sig, FractionBits(t, mag));
  }

  /** The branch for finite numbers. */
  method WriteNumber(t: Format, buffer: array<char>, p: nat, mag: nat) returns (p': nat)
    requires mag < InfMag(t) && p + FractionWidth(t) + 10 <= buffer.Length
    modifies buffer
    ensures p' == p + |MagText(t, mag)| <= p + FractionWidth(t) + 10
    ensures buffer[..p'] == old(buffer[..p]) + MagText(t, mag)
  {
    hide Pow2, Low, BitLength, FractionBits, FractionText, ExponentText, LeadingExponent;
    Kinds(t, mag);
    var exp, sig := mag / SigOne(t) - ExpBias(t), mag % SigOne(t);
    var isZero := sig == 0 && exp == MinExp(t);
    ghost var start, done := buffer[..p], "0x" + if isZero then "0" else "1";
    p' := Put(buffer, p, "0x", start, "");
    p' := Put(buffer, p', if isZero then "0" else "1", start, "0x");
    if sig != 0 {
      p', exp := WriteSignificand(t, buffer, p', mag, exp);
      ghost var fraction := "." + FractionText(FractionBits(t, mag), FractionWidth(t));
      Concat(start, done, fraction);
      done := done + fraction;
    } else {
      LeadingExponentIs(t, mag);
    }
    p' := Put(buffer, p', "p", start, done);
    done := done + "p";
    if isZero {
      p' := Put(buffer, p', "+0", start, done);
    } else {
      ExponentRange(t, mag);
      p' := WriteExponent(buffer, p', exp);
      Concat(start, done, ExponentText(exp));
      FractionBitsFit(t, mag);
      NumberText(t, mag, done);
    }
  }

  lemma Concat(a: string, b: string, c: string)
    ensures (a + b) + c == a + (b + c)
  {
  }

  lemma NumberText(t: Format, mag: nat, done: string)
    requires 0 < mag < InfMag(t)
    requires FractionBits.requires(t, mag) && FractionBits(t, mag) < Pow2(4 * FractionWidth(t))
    requires var body := "0x" + "1";
             done == (if mag % SigOne(t) == 0 then body
                      else body + ("." + FractionText(FractionBits(t, mag), FractionWidth(t)))) + "p"
    ensures done + ExponentText(LeadingExponent(t, mag)) == MagText(t, mag)
  {
    hide Pow2, FractionBits, FractionText, ExponentText, LeadingExponent;
  }

  lemma LeadingExponentIs(t: Format, mag: nat)
    ensures LeadingExponent(t, mag) == mag / SigOne(t) - ExpBias(t) -
            if mag / SigOne(t) == 0 then LeadingZeroes(t, mag % SigOne(t)) else 0
  {
  }

  /** The branch for infinities and NaNs. */
  method WriteSpecial(t: Format, buffer: array<char>, p: nat, mag: nat) returns (p': nat)
    requires InfMag(t) <= mag < SignOne(t) && p + FractionWidth(t) + 10 <= buffer.Length
    modifies buffer
    ensures p' == p + |MagText(t, mag)| <= p + FractionWidth(t) + 10
    ensures buffer[..p'] == old(buffer[..p]) + MagText(t, mag)
  {
    hide Pow2, TopDigits, HexLength;
    Kinds(t, mag);
    var sig := mag % SigOne(t);
    ghost var start := buffer[..p];
    if sig == 0 {
      p' := Put(buffer, p, "inf", start, "");
    } else {
      p' := Put(buffer, p, "nan", start, "");
      if sig != QuietNanTag(t) {
        TagLength(t, sig);
        p' := Put(buffer, p', ":0x", start, "nan");
        p' := WriteTag(t, buffer, p', sig);
        Concat(start, "nan" + ":0x", TopDigits(sig, HexLength(sig)));
        Concat("nan", ":0x", TopDigits(sig, HexLength(sig)));
      }
    }
  }

  /** The part of WriteHex that fills the local buffer, which holds the text of every bit pattern. */
  method FormatHex(t: Format, bits: nat) returns (buffer: array<char>, p: nat)
    requires bits < 2 * SignOne(t)
    ensures fresh(buffer) && p == |HexText(t, bits)| < MaxHexBufferSize(t) == buffer.Length
    ensures buffer[..p] == HexText(t, bits)
  {
    hide MagText, Low, Shr, Pow2;
    buffer := new char[MaxHexBufferSize(t)](_ => ' ');
    p := 0;
    Fields(t, bits);
    Kinds(t, Mag(t, bits));
    var isNeg := Shr(bits, t.bits - 1) != 0;
    var exp := Low(Shr(bits, t.sigBits), t.bits - t.sigBits - 1) - ExpBias(t);
    if isNeg {
      p := Put(buffer, p, "-", "", "");
    }
    if exp == MaxExp(t) {
      p := WriteSpecial(t, buffer, p, Mag(t, bits));
    } else {
      p := WriteNumber(t, buffer, p, Mag(t, bits));
    }
  }

  /** WriteHex: the text, cut off where the destination ends, and a terminator. */
  method WriteHex(t: Format, out: array<char>, size: nat, bits: nat)
    requires bits < 2 * SignOne(t) && 0 < size <= out.Length
    modifies out
    ensures var text := HexText(t, bits);
            var len := if |text| < size then |text| else size - 1;
            out[..len] == text[..len] && out[len] == '\0' && out[len + 1..] == old(out[len + 1..])
  {
    hide HexText;
    var buffer, len := FormatHex(t, bits);
    if len >= size {
      len := size - 1;
    }
    CopyOut(buffer, out, len);
    assert buffer[..len] == HexText(t, bits)[..len];
  }

  method CopyOut(buffer: array<char>, out: array<char>, len: nat)
    requires buffer != out && len <= buffer.Length && len < out.Length
    modifies out
    ensures out[..len] == buffer[..len] && out[len] == '\0' && out[len + 1..] == old(out[len + 1..])
  {
    forall i | 0 <= i < len {
      out[i] := buffer[i];
    }
    out[len] := '\0';
  }
}
