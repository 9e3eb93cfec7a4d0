/** The binary floating-point formats of src/literal.cc, and what it means for one of their numbers to be
    the nearest to an exact value (round half to even, section 4.3.1 of IEEE 754-2019). */
module FloatFormat {
  import opened Arith

  datatype Traits = Traits(bits: nat, sigBits: nat)

  /** FloatTraits<float> and FloatTraits<double>. */
  type Format = t: Traits | t == Traits(32, 23) || t == Traits(64, 52) witness Traits(32, 23)

  const FLOAT: Format := Traits(32, 23)

  // The constants of FloatTraits, as numbers; TraitsAsShifts gives the source's shift expressions.

  /** 1 << kSigBits: the weight of the implicit leading one. */
  function SigOne(t: Format): (r: nat) {
    if t.bits == 32 then 0x80_0000 else 0x10_0000_0000_0000
  }

  function MaxExp(t: Format): (r: int) {
    if t.bits == 32 then 128 else 1024
  }

  function MinExp(t: Format): (r: int) {
    1 - MaxExp(t)
  }

  function ExpBias(t: Format): (r: int) {
    -MinExp(t)
  }

  function QuietNanTag(t: Format): (r: nat) {
    SigOne(t) / 2
  }

  /** 1 << kSignShift: the weight of the sign bit. */
  function SignOne(t: Format): (r: nat) {
    if t.bits == 32 then 0x8000_0000 else 0x8000_0000_0000_0000
  }

  /** The bits of infinity without a sign: larger ones are NaNs, smaller ones finite. */
  function InfMag(t: Format): (r: nat) {
    SignOne(t) - SigOne(t)
  }

  lemma TraitsAsShifts(t: Format)
    ensures SigOne(t) == Pow2(t.sigBits) && SignOne(t) == Pow2(t.bits - 1)
    ensures MaxExp(t) == Pow2(t.bits - t.sigBits - 2) && QuietNanTag(t) == Pow2(t.sigBits - 1)
    ensures InfMag(t) == (MaxExp(t) + ExpBias(t)) * SigOne(t)
    ensures SignOne(t) == 2 * MaxExp(t) * SigOne(t)
  {
    Pow2Values();
    Pow2Add(16, 7);
    Pow2Add(16, 6);
    Pow2Add(32, 20);
    Pow2Add(32, 19);
    Pow2Add(16, 4);
    Pow2Add(16, 3);
    assert Pow2(32) == 2 * Pow2(31) && Pow2(64) == 2 * Pow2(63);
    assert Pow2(10) == 4 * Pow2(8);
  }

  /** Make: the fields side by side, the asserts of the source as its precondition. */
  function Make(t: Format, sign: bool, exp: int, sig: nat): (r: nat)
    requires MinExp(t) <= exp <= MaxExp(t) && sig < SigOne(t)
  {
    (if sign then SignOne(t) else 0) + (exp + ExpBias(t)) * SigOne(t) + sig
  }

  /** A sign, and the bits below it. */
  function Signed(t: Format, sign: bool, mag: nat): (r: nat) {
    (if sign then SignOne(t) else 0) + mag
  }

  lemma MakeIsSigned(t: Format, sign: bool, exp: int, sig: nat)
    requires MinExp(t) <= exp <= MaxExp(t) && sig < SigOne(t)
    ensures (exp - MinExp(t)) * SigOne(t) >= 0
    ensures Make(t, sign, exp, sig) == Signed(t, sign, (exp - MinExp(t)) * SigOne(t) + sig)
    ensures (exp - MinExp(t)) * SigOne(t) + sig < SignOne(t)
  {
    if t.bits == 32 {
    } else {
    }
  }

  /** The source ors the shifted fields together. */
  lemma MakeIsOr(t: Format, sign: bool, exp: int, sig: nat)
    requires MinExp(t) <= exp <= MaxExp(t) && sig < SigOne(t)
    ensures (exp + ExpBias(t)) * Pow2(t.sigBits) >= 0
    ensures Make(t, sign, exp, sig) ==
            Or(Or((if sign then 1 else 0) * Pow2(t.bits - 1), (exp + ExpBias(t)) * Pow2(t.sigBits)), sig)
  {
    hide Pow2, Or, Low;
    var s, e := if sign then 1 else 0, exp + ExpBias(t);
    TraitsAsShifts(t);
    MakeIsSigned(t, sign, exp, sig);
    MulLe(SigOne(t), 0, e);
    ShlShr(s, t.bits - 1);
    OrDisjoint(s * Pow2(t.bits - 1), e * Pow2(t.sigBits), t.bits - 1);
    SignAndExponent(t, s, e);
    OrDisjoint(s * Pow2(t.bits - 1) + e * Pow2(t.sigBits), sig, t.sigBits);
  }

  lemma SignAndExponent(t: Format, s: nat, e: nat)
    ensures s * Pow2(t.bits - 1) + e * Pow2(t.sigBits) >= 0
    ensures Low(s * Pow2(t.bits - 1) + e * Pow2(t.sigBits), t.sigBits) == 0
  {
    hide Pow2, Low;
    var top, w := t.bits - 1 - t.sigBits, Pow2(t.sigBits);
    Pow2Add(top, t.sigBits);
    MulAssoc(s, Pow2(top), w);
    MulLe(Pow2(top), 0, s);
    ShlShr(s * Pow2(top) + e, t.sigBits);
    TwoTerms(s * Pow2(top), e, w);
  }

  lemma TwoTerms(a: int, b: int, w: int)
    ensures (a + b) * w == a * w + b * w
  {
  }

  // ---------------------------------------------------------------- values

  /** A finite number's value (and infinity's, were the format unbounded) as a multiple of the smallest
      subnormal, 2^(kMinExp + 1 - kSigBits). */
  function Units(t: Format, mag: nat): (u: nat) {
    var n, sig := mag / SigOne(t), mag % SigOne(t);
    if n == 0 then sig else (SigOne(t) + sig) * Pow2(n - 1)
  }

  lemma UnitsOfFields(t: Format, n: nat, sig: nat)
    requires sig < SigOne(t)
    ensures n * SigOne(t) >= 0
    ensures Units(t, n * SigOne(t) + sig) == if n == 0 then sig else (SigOne(t) + sig) * Pow2(n - 1)
  {
    MulLe(SigOne(t), 0, n);
    DivMod(n * SigOne(t) + sig, SigOne(t), n, sig);
  }

  lemma UnitsNormal(t: Format, e: nat, M: nat)
    requires SigOne(t) <= M < 2 * SigOne(t)
    ensures e * SigOne(t) >= 0
    ensures Units(t, e * SigOne(t) + M) == M * Pow2(e)
  {
    hide Pow2, Units;
    var s := SigOne(t);
    StepForm(s, e + 1, M - s);
    UnitsOfFields(t, e + 1, M - s);
  }

  lemma UnitsCarry(t: Format, e: nat)
    ensures e * SigOne(t) >= 0
    ensures Units(t, e * SigOne(t) + 2 * SigOne(t)) == 2 * SigOne(t) * Pow2(e)
  {
    hide Units;
    var s := SigOne(t);
    StepForm(s, e + 1, s);
    StepForm(s, e + 2, 0);
    UnitsOfFields(t, e + 2, 0);
    Regroup(2, s, Pow2(e));
  }

  lemma Regroup(a: int, b: int, c: int)
    ensures (a * b) * c == b * (a * c)
  {
  }

  lemma StepForm(s: nat, n: nat, sig: nat)
    ensures n * s + sig == s * n + sig == (n - 1) * s + (s + sig)
    ensures n > 0 ==> (n - 1) * s >= 0
  {
    if n > 0 { MulLe(s, 0, n - 1); }
  }

  /** A significand M at exponent step e: both neighbours of a binade boundary have this form. */
  lemma UnitsOf(t: Format, e: nat, M: nat)
    requires M <= 2 * SigOne(t) && (e == 0 || SigOne(t) <= M)
    ensures e * SigOne(t) >= 0
    ensures Units(t, e * SigOne(t) + M) == M * Pow2(e)
  {
    hide Units;
    if M == 2 * SigOne(t) {
      UnitsCarry(t, e);
    } else if M >= SigOne(t) {
      UnitsNormal(t, e, M);
    } else {
      UnitsOfFields(t, 0, M);
    }
  }

  lemma UnitsStep(t: Format, mag: nat)
    ensures Units(t, mag) < Units(t, mag + 1)
  {
    var s := SigOne(t);
    if mag < s {
      UnitsOf(t, 0, mag);
      UnitsOf(t, 0, mag + 1);
      assert Pow2(0) == 1;
    } else {
      var e, M := SplitMagnitude(s, mag);
      UnitsOf(t, e, M);
      UnitsOf(t, e, M + 1);
      MulStep(M, Pow2(e));
    }
  }

  lemma MulStep(M: nat, w: nat)
    requires w > 0
    ensures M * w < (M + 1) * w
  {
  }

  lemma SplitMagnitude(s: nat, mag: nat) returns (e: nat, M: nat)
    requires mag >= s > 0
    ensures s <= M < 2 * s && mag == e * s + M
  {
    var n, sig := mag / s, mag % s;
    if n == 0 { assert false; }
    StepForm(s, n, sig);
    e, M := n - 1, s + sig;
  }

  lemma {:induction false} UnitsMono(t: Format, a: nat, b: nat)
    requires a < b
    ensures Units(t, a) < Units(t, b)
    decreases b
  {
    UnitsStep(t, b - 1);
    if a < b - 1 {
      UnitsMono(t, a, b - 1);
    }
  }

  // ---------------------------------------------------------------- nearest

  ghost function Dist(t: Format, num: nat, den: nat, mag: nat): nat {
    var d := Units(t, mag) * den - num;
    if d < 0 then -d else d
  }

  /** Among zero, the finite numbers and infinity's place one step above them, mag is the closest to
      num / den smallest subnormals; of two equally close it is the even one. */
  ghost predicate Nearest(t: Format, num: nat, den: nat, mag: nat) {
    mag <= InfMag(t) &&
    forall m: nat :: m <= InfMag(t) && m != mag ==>
      Dist(t, num, den, mag) < Dist(t, num, den, m) || (Dist(t, num, den, mag) == Dist(t, num, den, m) && mag % 2 == 0)
  }

  lemma DistBelow(t: Format, num: nat, den: nat, m: nat, q: nat)
    requires den > 0 && m < q && Units(t, q) * den <= num
    ensures Dist(t, num, den, m) > Dist(t, num, den, q) == num - Units(t, q) * den
  {
    UnitsMono(t, m, q);
    MulLt(den, Units(t, m), Units(t, q));
    assert den * Units(t, m) == Units(t, m) * den && den * Units(t, q) == Units(t, q) * den;
  }

  lemma DistAbove(t: Format, num: nat, den: nat, m: nat, q: nat)
    requires den > 0 && m > q && Units(t, q) * den >= num
    ensures Dist(t, num, den, m) > Dist(t, num, den, q) == Units(t, q) * den - num
  {
    UnitsMono(t, q, m);
    MulLt(den, Units(t, q), Units(t, m));
    assert den * Units(t, m) == Units(t, m) * den && den * Units(t, q) == Units(t, q) * den;
  }

  /** Two neighbours around the value: the choice between them is the nearest of all. */
  lemma NearestBetween(t: Format, num: nat, den: nat, q: nat, m: nat)
    requires den > 0 && q < InfMag(t) && Units(t, q) * den <= num <= Units(t, q + 1) * den
    ensures var lo, hi := num - Units(t, q) * den, Units(t, q + 1) * den - num;
            Nearest(t, num, den, m) <==> m == if lo < hi || (lo == hi && q % 2 == 0) then q else q + 1
  {
    hide Pow2, Units, InfMag;
    var lo, hi := num - Units(t, q) * den, Units(t, q + 1) * den - num;
    var c := if lo < hi || (lo == hi && q % 2 == 0) then q else q + 1;
    assert Dist(t, num, den, q) == lo && Dist(t, num, den, q + 1) == hi;
    forall i: nat | i <= InfMag(t) && i != q && i != q + 1
      ensures Dist(t, num, den, i) > Dist(t, num, den, c)
    {
      OutsideIsFarther(t, num, den, q, i);
    }
    NearestIs(t, num, den, c, m);
  }

  lemma OutsideIsFarther(t: Format, num: nat, den: nat, q: nat, i: nat)
    requires den > 0 && i != q && i != q + 1 && Units(t, q) * den <= num <= Units(t, q + 1) * den
    ensures Dist(t, num, den, i) > Dist(t, num, den, q) || Dist(t, num, den, i) > Dist(t, num, den, q + 1)
    ensures i < q ==> Dist(t, num, den, i) > Dist(t, num, den, q)
    ensures i > q ==> Dist(t, num, den, i) > Dist(t, num, den, q + 1)
  {
    if i < q { DistBelow(t, num, den, i, q); } else { DistAbove(t, num, den, i, q + 1); }
  }

  /** A candidate no worse than any other, winning its ties by being even, is the only nearest number. */
  lemma NearestIs(t: Format, num: nat, den: nat, c: nat, m: nat)
    requires c <= InfMag(t)
    requires forall i: nat :: i <= InfMag(t) && i != c ==>
               Dist(t, num, den, c) < Dist(t, num, den, i) ||
               (Dist(t, num, den, c) == Dist(t, num, den, i) && c % 2 == 0 && i % 2 == 1)
    ensures Nearest(t, num, den, m) <==> m == c
  {
    assert m <= InfMag(t) && m != c && Nearest(t, num, den, m) ==> Dist(t, num, den, m) <= Dist(t, num, den, c);
  }

  /** A value that the format can express is its own nearest number. */
  lemma NearestExact(t: Format, num: nat, den: nat, q: nat, m: nat)
    requires den > 0 && q <= InfMag(t) && Units(t, q) * den == num
    ensures Nearest(t, num, den, m) <==> m == q
  {
    assert Dist(t, num, den, q) == 0;
    forall i: nat | i <= InfMag(t) && i != q
      ensures Dist(t, num, den, i) > 0
    {
      if i < q { DistBelow(t, num, den, i, q); } else { DistAbove(t, num, den, i, q); }
    }
    assert m != q && Nearest(t, num, den, m) ==> Dist(t, num, den, m) <= Dist(t, num, den, q);
  }

  /** From infinity's place on, everything overflows. */
  lemma NearestOverflow(t: Format, num: nat, den: nat, m: nat)
    requires den > 0 && Units(t, InfMag(t)) * den <= num
    ensures Nearest(t, num, den, m) <==> m == InfMag(t)
  {
    forall i: nat | i < InfMag(t)
      ensures Dist(t, num, den, i) > Dist(t, num, den, InfMag(t))
    {
      DistBelow(t, num, den, i, InfMag(t));
    }
    assert m != InfMag(t) && Nearest(t, num, den, m) ==> Dist(t, num, den, m) <= Dist(t, num, den, InfMag(t));
  }

  /** No value has two nearest numbers. */
  lemma NearestUnique(t: Format, num: nat, den: nat, a: nat, b: nat)
    requires den > 0 && Nearest(t, num, den, a) && Nearest(t, num, den, b)
    ensures a == b
  {
    if a < b {
      NearestNotTwo(t, num, den, a, b);
    } else if b < a {
      NearestNotTwo(t, num, den, b, a);
    }
  }

  lemma NearestNotTwo(t: Format, num: nat, den: nat, a: nat, b: nat)
    requires den > 0 && a < b && Nearest(t, num, den, a)
    ensures !Nearest(t, num, den, b)
  {
    if Units(t, a) * den >= num {
      DistAbove(t, num, den, b, a);
    } else if Units(t, b) * den <= num {
      DistBelow(t, num, den, a, b);
    } else if b > a + 1 {
      UnitsMono(t, a, a + 1);
      UnitsMono(t, a + 1, b);
      CloserBetween(num, den, Units(t, a), Units(t, a + 1), Units(t, b));
      assert Dist(t, num, den, a) > Dist(t, num, den, a + 1) || Dist(t, num, den, b) > Dist(t, num, den, a + 1);
    } else {
      assert Nearest(t, num, den, b) ==> Dist(t, num, den, b) == Dist(t, num, den, a);
    }
  }

  /** Of three increasing points, the middle one is closer than one of the outer two that enclose num. */
  lemma CloserBetween(num: nat, den: nat, x: nat, y: nat, z: nat)
    requires den > 0 && x < y < z && x * den < num < z * den
    ensures num - x * den > (if y * den < num then num - y * den else y * den - num) ||
            z * den - num > (if y * den < num then num - y * den else y * den - num)
  {
    MulLt(den, x, y);
    MulLt(den, y, z);
  }

  lemma ScaledDist(u: nat, num: nat, den: nat, c: nat)
    ensures u * (den * c) - num * c == c * (u * den - num)
  {
  }

  lemma DistScale(t: Format, num: nat, den: nat, c: nat, num': nat, den': nat, m: nat)
    requires c > 0 && num' == num * c && den' == den * c
    ensures Dist(t, num', den', m) == c * Dist(t, num, den, m)
  {
    var d := Units(t, m) * den - num;
    ScaledDist(Units(t, m), num, den, c);
    if d < 0 { MulLe(c, d, -1); assert c * (-d) == -(c * d); } else { MulLe(c, 0, d); }
  }

  lemma ScaleOrder(c: nat, x: nat, y: nat)
    requires c > 0
    ensures c * x < c * y <==> x < y
    ensures c * x == c * y <==> x == y
  {
    if x < y { MulLt(c, x, y); } else if y < x { MulLt(c, y, x); }
  }

  /** The fraction's representation does not matter. */
  lemma NearestScale(t: Format, num: nat, den: nat, c: nat, num': nat, den': nat, mag: nat)
    requires c > 0 && num' == num * c && den' == den * c
    ensures Nearest(t, num', den', mag) <==> Nearest(t, num, den, mag)
  {
    forall m: nat
      ensures Dist(t, num', den', mag) < Dist(t, num', den', m) <==> Dist(t, num, den, mag) < Dist(t, num, den, m)
      ensures Dist(t, num', den', mag) == Dist(t, num', den', m) <==> Dist(t, num, den, mag) == Dist(t, num, den, m)
    {
      DistScale(t, num, den, c, num', den', mag);
      DistScale(t, num, den, c, num', den', m);
      ScaleOrder(c, Dist(t, num, den, mag), Dist(t, num, den, m));
    }
  }

  /** 2^x for a positive exponent, one otherwise. */
  function Up(x: int): (r: nat)
    ensures r > 0
  {
    if x > 0 then Pow2(x) else 1
  }

  lemma UpTimes(x: int, a: nat)
    requires x >= 0
    ensures Pow2(x + a) == Up(x) * Pow2(a) && Up(-x) == 1
  {
    Pow2Add(x, a);
  }

  function Scaled(N: nat, w: nat): (r: nat) {
    N * w
  }

  lemma ScaledTimes(N: nat, w: nat, c: nat, z: nat)
    requires z == w * c
    ensures Scaled(N, z) == Scaled(N, w) * c
    ensures Scaled(N, 1) == N
  {
    assert N * (w * c) == N * w * c;
  }

  /** mag is nearest to N * 2^X smallest subnormals. */
  ghost predicate NearestTo(t: Format, N: nat, X: int, mag: nat) {
    Nearest(t, Scaled(N, Up(X)), Up(-X), mag)
  }

  lemma NearestToRatio(t: Format, N: nat, a: nat, b: nat, mag: nat)
    ensures NearestTo(t, N, a - b, mag) <==> Nearest(t, Scaled(N, Pow2(a)), Pow2(b), mag)
  {
    hide Pow2, Nearest, Scaled, Up;
    if a >= b {
      UpTimes(a - b, b);
      NearestRescaled(t, N, Up(a - b), 1, Pow2(b), Pow2(a), Pow2(b), mag);
    } else {
      UpTimes(b - a, a);
      NearestRescaled(t, N, 1, Up(b - a), Pow2(a), Pow2(a), Pow2(b), mag);
    }
  }

  lemma NearestRescaled(t: Format, N: nat, x: nat, y: nat, c: nat, x': nat, y': nat, mag: nat)
    requires c > 0 && x' == x * c && y' == y * c
    ensures Nearest(t, Scaled(N, x'), y', mag) <==> Nearest(t, Scaled(N, x), y, mag)
  {
    hide Nearest, Scaled;
    ScaledTimes(N, x, c, x');
    NearestScale(t, Scaled(N, x), y, c, Scaled(N, x'), y', mag);
  }

  lemma NearestToScaled(t: Format, N: nat, c: nat, N': nat, X: int, mag: nat)
    requires N' == Scaled(N, Pow2(c))
    ensures NearestTo(t, N', X - c, mag) <==> NearestTo(t, N, X, mag)
  {
    hide Pow2, Nearest, NearestTo;
    var a, b := if X >= c then X - c else 0, if X >= c then 0 else c - X;
    NearestToRatio(t, N', a, b, mag);
    NearestToRatio(t, N, a + c, b, mag);
    Pow2Add(c, a);
    ScaledTimes(N, Pow2(c), Pow2(a), Pow2(a + c));
  }
}
