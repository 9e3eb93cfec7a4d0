/** Powers of two and the few division facts the fixed-width models rest on. */
module Arith {

  function Pow2(n: nat): (p: nat)
    ensures p > 0
  {
    if n == 0 then 1 else 2 * Pow2(n - 1)
  }

  lemma {:induction false} Pow2Add(a: nat, b: nat)
    ensures Pow2(a + b) == Pow2(a) * Pow2(b)
  {
    if a != 0 {
      Pow2Add(a - 1, b);
      MulAssoc(2, Pow2(a - 1), Pow2(b));
    }
  }

  lemma {:induction false} Pow2Mono(a: nat, b: nat)
    requires a <= b
    ensures Pow2(a) <= Pow2(b)
    decreases b
  {
    if a < b {
      Pow2Mono(a, b - 1);
    }
  }

  lemma Pow2Four()
    ensures Pow2(4) == 16 && Pow2(0) == 1
  {
  }

  lemma Pow2Values()
    ensures Pow2(7) == 0x80 && Pow2(8) == 0x100 && Pow2(16) == 0x1_0000
    ensures Pow2(32) == 0x1_0000_0000 && Pow2(64) == 0x1_0000_0000_0000_0000
  {
    assert Pow2(7) == 0x80;
    Pow2Add(8, 8);
    Pow2Add(16, 16);
    Pow2Add(32, 32);
  }

  /** The quotient and remainder are determined by the division equation. */
  lemma DivMod(a: int, d: int, q: int, r: int)
    requires 0 <= r < d && a == d * q + r
    ensures a / d == q && a % d == r
  {
    var q', r' := a / d, a % d;
    assert a == d * q' + r';
    assert d * (q - q') == r' - r;
    if q - q' >= 1 {
      MulLe(d, 1, q - q');
      assert false;
    } else if q - q' <= -1 {
      MulLe(d, q - q', -1);
      assert false;
    }
  }

  lemma DivDef(a: int, d: int)
    requires d > 0
    ensures a == d * (a / d) + a % d && 0 <= a % d < d
    ensures a >= 0 ==> a / d >= 0
  {
  }

  lemma ModSmall(a: int, d: int)
    requires 0 <= a < d
    ensures a % d == a && a / d == 0
  {
    DivMod(a, d, 0, a);
  }

  lemma MulLe(d: int, a: int, b: int)
    requires d >= 0 && a <= b
    ensures d * a <= d * b
  {
  }

  lemma MulLt(d: int, a: int, b: int)
    requires d > 0 && a < b
    ensures d * a < d * b
  {
  }

  lemma LessRight(a: int, b: int, d: int)
    requires d > 0 && a < b
    ensures a * d < b * d
    ensures a >= 0 ==> a * d >= 0
  {
  }

  lemma MulCommutes(a: int, b: int)
    ensures a * b == b * a
  {
  }

  lemma MulAssoc(a: int, b: int, c: int)
    ensures a * (b * c) == (a * b) * c
  {
  }

  /** Dividing twice is dividing by the product. */
  lemma DivDiv(a: int, c: int, d: int)
    requires c > 0 && d > 0
    ensures c * d > 0
    ensures a / c / d == a / (c * d)
    ensures a % (c * d) == c * (a / c % d) + a % c
  {
    var q, r := a / c, a % c;
    var q2, r2 := q / d, q % d;
    MulLt(c, 0, d);
    MulLe(c, r2, d - 1);
    MulLe(c, 0, r2);
    assert a == c * (d * q2 + r2) + r == (c * d) * q2 + (c * r2 + r);
    DivMod(a, c * d, q2, c * r2 + r);
  }

  /** A digit below `room` at weight w stays below w * room, together with anything below w. */
  lemma DigitFits(w: nat, b: int, room: int, low: int)
    requires w > 0 && b < room && low < w
    ensures w * b + low < w * room
    ensures b >= 0 && low >= 0 ==> 0 <= w * b && w * b + low >= 0
    ensures b >= 0 && low >= 0 ==> (w * b) % (w * room) == w * b
  {
    MulLe(w, b + 1, room);
    assert w * (b + 1) == w * b + w;
    if b >= 0 && low >= 0 {
      MulLe(w, 0, b);
      ModSmall(w * b, w * room);
    }
  }

  /** a >> k */
  function Shr(a: nat, k: nat): (r: nat) {
    DivDef(a, Pow2(k));
    a / Pow2(k)
  }

  /** a & ((1 << k) - 1) */
  function Low(a: nat, k: nat): (r: nat)
    ensures r < Pow2(k)
  {
    DivDef(a, Pow2(k));
    a % Pow2(k)
  }

  lemma ShrLow(a: nat, k: nat)
    ensures a == Pow2(k) * Shr(a, k) + Low(a, k)
  {
    hide Pow2;
    DivDef(a, Pow2(k));
  }

  /** a << k loses nothing and puts zeros below. */
  lemma ShlShr(a: nat, k: nat)
    ensures a * Pow2(k) >= 0
    ensures Shr(a * Pow2(k), k) == a && Low(a * Pow2(k), k) == 0
  {
    hide Pow2;
    MulLe(Pow2(k), 0, a);
    DivMod(a * Pow2(k), Pow2(k), a, 0);
  }

  lemma LowSmall(a: nat, k: nat)
    requires a < Pow2(k)
    ensures Low(a, k) == a && Shr(a, k) == 0
  {
    hide Pow2;
    ModSmall(a, Pow2(k));
  }

  /** Shifting twice is shifting by the sum, and the dropped bits come in two parts. */
  lemma ShrShr(a: nat, j: nat, k: nat)
    ensures Shr(Shr(a, j), k) == Shr(a, j + k)
    ensures Low(a, j + k) == Pow2(j) * Low(Shr(a, j), k) + Low(a, j)
  {
    hide Pow2;
    Pow2Add(j, k);
    DivDiv(a, Pow2(j), Pow2(k));
  }

  lemma ShrBound(a: nat, k: nat, n: nat)
    requires k <= n
    ensures a < Pow2(n) <==> Shr(a, k) < Pow2(n - k)
  {
    hide Pow2, Shr, Low;
    Pow2Add(k, n - k);
    ShrLow(a, k);
    var q, w := Shr(a, k), Pow2(k);
    if q < Pow2(n - k) {
      MulLe(w, q + 1, Pow2(n - k));
      MulSucc(w, q);
    } else {
      MulLe(w, Pow2(n - k), q);
    }
  }

  lemma MulSucc(w: int, q: int)
    ensures w * (q + 1) == w * q + w
  {
  }

  /** a | b */
  function Or(a: nat, b: nat): (r: nat)
    decreases a + b
  {
    if a == 0 then b else if b == 0 then a
    else 2 * Or(a / 2, b / 2) + if a % 2 == 1 || b % 2 == 1 then 1 else 0
  }

  /** Where no bit is set in both, or is addition. */
  lemma {:induction false} OrDisjoint(a: nat, b: nat, k: nat)
    requires Low(a, k) == 0 && b < Pow2(k)
    ensures Or(a, b) == a + b
    decreases k
  {
    if k > 0 && a > 0 && b > 0 {
      HalfLow(a, k);
      OrDisjoint(a / 2, b / 2, k - 1);
    }
  }

  lemma HalfLow(a: nat, k: nat)
    requires k > 0 && Low(a, k) == 0
    ensures a % 2 == 0 && Low(a / 2, k - 1) == 0
  {
    hide Pow2, Shr, Low;
    ShrLow(a, k);
    var q, w := Shr(a, k), Pow2(k - 1);
    HalfPow(k);
    MulAssoc(2, w, q);
    MulLe(w, 0, q);
    ShlShr(q, k - 1);
    MulCommutes(q, w);
  }

  lemma HalfPow(k: nat)
    requires k > 0
    ensures Pow2(k) == 2 * Pow2(k - 1)
  {
  }
}
