/** 128-bit decimals on four 32-bit limbs, src/literal.cc. */
module Uint128 {
  import opened Arith
  import opened Common
  import opened IntLiteral

  type u32 = v: int | 0 <= v < 0x1_0000_0000

  const B := 0x1_0000_0000
  const TWO128 := 0x1_0000_0000_0000_0000_0000_0000_0000_0000

  function Limbs(x0: int, x1: int, x2: int, x3: int): (v: int) {
    x0 + B * (x1 + B * (x2 + B * x3))
  }

  /** The value of a v128, limb 0 least significant. */
  function Val(s: seq<u32>): (v: int)
    requires |s| == 4
    ensures 0 <= v < TWO128
  {
    Limbs(s[0], s[1], s[2], s[3])
  }

  // ---------------------------------------------------------------- arithmetic

  method AddWithCarry(x: u32, y: u32, carry: nat) returns (sum: u32, carry': nat)
    ensures carry' == carry + (if x + y >= B then 1 else 0)
    ensures sum + B * (carry' - carry) == x + y
  {
    carry' := carry;
    if 0xFFFF_FFFF - x < y {
      carry' := carry' + 1;
    }
    sum := (x + y) % B;
  }

  /** One limb of x * 10 as (x << 3) + (x << 1): what stays and what is carried out. */
  method Mul10Limb(x: u32) returns (low: u32, carry: nat)
    ensures low + B * carry == 10 * x && carry <= 9
  {
    TenTimes(x);
    carry := x / 0x2000_0000 + x / 0x8000_0000;
    low, carry := AddWithCarry(x * 8 % B, x * 2 % B, carry);
  }

  lemma TenTimes(x: u32)
    ensures x * 8 == x * 8 % B + B * (x / 0x2000_0000) && x * 2 == x * 2 % B + B * (x / 0x8000_0000)
  {
    var q, r := x / 0x2000_0000, x % 0x2000_0000;
    DivMod(x * 8, B, q, 8 * r);
    var q', r' := x / 0x8000_0000, x % 0x8000_0000;
    DivMod(x * 2, B, q', 2 * r');
  }

  method Mul10(v: array<u32>)
    requires v.Length == 4
    modifies v
    ensures Val(v[..]) == 10 * old(Val(v[..])) % TWO128
  {
    ghost var x := v[..];
    var low, carryIntoV1, carryIntoV2, carryIntoV3;
    low, carryIntoV1 := Mul10Limb(v[0]);
    v[0] := low;
    low, carryIntoV2 := Mul10Limb(v[1]);
    low, carryIntoV2 := AddWithCarry(low, carryIntoV1, carryIntoV2);
    v[1] := low;
    low, carryIntoV3 := Mul10Limb(v[2]);
    low, carryIntoV3 := AddWithCarry(low, carryIntoV2, carryIntoV3);
    v[2] := low;
    v[3] := (v[3] * 10 + carryIntoV3) % B;
    Mul10Sum(x[0], x[1], x[2], x[3], v[0], v[1], v[2], v[3], carryIntoV1, carryIntoV2, carryIntoV3);
  }

  lemma Mul10Sum(x0: int, x1: int, x2: int, x3: int, r0: int, r1: int, r2: int, r3: int, c1: int, c2: int, c3: int)
    requires 0 <= r0 < B && 0 <= r1 < B && 0 <= r2 < B
    requires r0 + B * c1 == 10 * x0 && r1 + B * c2 == 10 * x1 + c1 && r2 + B * c3 == 10 * x2 + c2
    requires r3 == (10 * x3 + c3) % B
    ensures Limbs(r0, r1, r2, r3) == 10 * Limbs(x0, x1, x2, x3) % TWO128
  {
    DivMod(10 * Limbs(x0, x1, x2, x3), TWO128, (10 * x3 + c3) / B, Limbs(r0, r1, r2, r3));
  }

  // ---------------------------------------------------------------- the reader

  /** The value of a non-empty string of decimal digits. */
  function Decimal(s: string): (r: Result<nat>) {
    if s == "" then Ok(0)
    else
      var front, digit := Decimal(s[..|s| - 1]), DecimalDigit(s[|s| - 1]);
      if front.Error? || digit.Error? then Error else Ok(10 * front.value + digit.value)
  }

  /** The same with the multiplication wrapping at 2^128 and only the addition checked. */
  function Wrapping(s: string): (r: Result<nat>)
    ensures r.Ok? ==> r.value < TWO128
  {
    if s == "" then Ok(0)
    else
      var front, digit := Wrapping(s[..|s| - 1]), DecimalDigit(s[|s| - 1]);
      if front.Error? || digit.Error? || 10 * front.value % TWO128 + digit.value >= TWO128 then Error
      else Ok(10 * front.value % TWO128 + digit.value)
  }

  method AddDigit(out: array<u32>, digit: nat) returns (overflow: nat)
    requires out.Length == 4 && digit < 10
    modifies out
    ensures Val(out[..]) + TWO128 * overflow == old(Val(out[..])) + digit
  {
    ghost var x := out[..];
    var sum, carryIntoV1, carryIntoV2, carryIntoV3;
    sum, carryIntoV1 := AddWithCarry(out[0], digit, 0);
    out[0] := sum;
    sum, carryIntoV2 := AddWithCarry(out[1], carryIntoV1, 0);
    out[1] := sum;
    sum, carryIntoV3 := AddWithCarry(out[2], carryIntoV2, 0);
    out[2] := sum;
    sum, overflow := AddWithCarry(out[3], carryIntoV3, 0);
    out[3] := sum;
    CarryChain(x[0], x[1], x[2], x[3], digit, carryIntoV1, carryIntoV2, carryIntoV3, overflow);
  }

  lemma CarryChain(x0: int, x1: int, x2: int, x3: int, d: int, c1: int, c2: int, c3: int, c4: int)
    ensures Limbs(x0 + d - B * c1, x1 + c1 - B * c2, x2 + c2 - B * c3, x3 + c3 - B * c4) + TWO128 * c4 ==
            Limbs(x0, x1, x2, x3) + d
  {
  }

  method ParseUint128(s: string, out: array<u32>) returns (ok: bool)
    requires out.Length == 4
    modifies out
    ensures ok <==> s != "" && Wrapping(s).Ok?
    ensures ok ==> Val(out[..]) == Wrapping(s).value
  {
    if s == "" {
      return false;
    }
    out[0], out[1], out[2], out[3] := 0, 0, 0, 0;
    var i := 0;
    while true
      invariant 0 <= i < |s|
      invariant Wrapping(s[..i]).Ok? && Val(out[..]) == 10 * Wrapping(s[..i]).value % TWO128
      decreases |s| - i
    {
      assert s[..i + 1][..i] == s[..i];
      var digit := DecimalDigit(s[i]);
      if digit.Error? {
        WrappingPrefix(s, i + 1);
        return false;
      }
      var overflow := AddDigit(out, digit.value);
      if overflow != 0 {
        WrappingPrefix(s, i + 1);
        return false;
      }
      i := i + 1;
      if i == |s| {
        assert s[..i] == s;
        break;
      }
      Mul10(out);
    }
    ok := true;
  }

  /** An error in a prefix stays an error. */
  lemma {:induction false} WrappingPrefix(s: string, i: nat)
    requires i <= |s| && Wrapping(s[..i]).Error?
    ensures Wrapping(s).Error?
    decreases |s|
  {
    if i == |s| {
      assert s[..i] == s;
    } else {
      assert s[..|s| - 1][..i] == s[..i];
      WrappingPrefix(s[..|s| - 1], i);
    }
  }

  /** What it accepts is right modulo 2^128, and what it rejects is no decimal below 2^128. */
  lemma {:induction false} WrappingIsDecimal(s: string)
    ensures Wrapping(s).Ok? ==> Decimal(s).Ok? && Wrapping(s).value == Decimal(s).value % TWO128
    ensures Wrapping(s).Error? ==> Decimal(s).Error? || Decimal(s).value >= TWO128
  {
    if s != "" {
      var front, digit := Decimal(s[..|s| - 1]), DecimalDigit(s[|s| - 1]);
      WrappingIsDecimal(s[..|s| - 1]);
      if front.Ok? && digit.Ok? {
        WrapStep(front.value, digit.value);
      }
    }
  }

  lemma WrapStep(v: nat, d: nat)
    requires d < 10
    ensures var w := 10 * (v % TWO128) % TWO128 + d;
            if w < TWO128 then w == (10 * v + d) % TWO128 else 10 * v + d >= TWO128
  {
    var q, m := v / TWO128, v % TWO128;
    var q', m' := 10 * m / TWO128, 10 * m % TWO128;
    assert 10 * v + d == TWO128 * (10 * q + q') + (m' + d);
    if m' + d < TWO128 {
      DivMod(10 * v + d, TWO128, 10 * q + q', m' + d);
    }
  }

  /** After the first i digits, ten times what they are worth loses what is above 2^128, and the next digit
      carries out of what is left. */
  predicate CarriesOut(s: string, i: nat) {
    i < |s| && Decimal(s[..i]).Ok? && DecimalDigit(s[i]).Ok? &&
    10 * Decimal(s[..i]).value % TWO128 + DecimalDigit(s[i]).value >= TWO128
  }

  lemma TenTimesModulo(v: nat)
    ensures 10 * (v % TWO128) % TWO128 == 10 * v % TWO128
  {
    var q, m := v / TWO128, v % TWO128;
    DivMod(10 * v, TWO128, 10 * q + 10 * m / TWO128, 10 * m % TWO128);
  }

  /** A decimal is rejected exactly when some digit carries out. */
  lemma {:induction false} RejectedExactly(s: string)
    ensures Wrapping(s).Error? <==> Decimal(s).Error? || exists i :: CarriesOut(s, i)
  {
    hide CarriesOut;
    if s == "" {
      NothingCarries(s);
    } else {
      var n := |s| - 1;
      RejectedExactly(s[..n]);
      WrappingIsDecimal(s[..n]);
      LastCarries(s);
      forall i | i != n ensures CarriesOut(s, i) <==> CarriesOut(s[..n], i) {
        EarlierCarries(s, i);
      }
      if Decimal(s[..n]).Ok? {
        TenTimesModulo(Decimal(s[..n]).value);
      }
    }
  }

  lemma NothingCarries(s: string)
    ensures s == "" ==> forall i :: !CarriesOut(s, i)
  {
  }

  lemma LastCarries(s: string)
    requires s != ""
    ensures var n, front, d := |s| - 1, Decimal(s[..|s| - 1]), DecimalDigit(s[|s| - 1]);
            (CarriesOut(s, n) <==> front.Ok? && d.Ok? && 10 * front.value % TWO128 + d.value >= TWO128) &&
            !CarriesOut(s[..n], n)
  {
  }

  lemma EarlierCarries(s: string, i: nat)
    requires s != "" && i != |s| - 1
    ensures CarriesOut(s, i) <==> CarriesOut(s[..|s| - 1], i)
  {
    if i < |s| - 1 {
      assert s[..|s| - 1][..i] == s[..i];
    }
  }

  /** ParseUint128 reports the exact value exactly for the decimals below 2^128. */
  lemma ExactBelowTwo128(s: string, v: nat)
    requires Decimal(s) == Ok(v)
    ensures Wrapping(s) == Ok(v) <==> v < TWO128
  {
    WrappingIsDecimal(s);
  }

  /** Above that the wrapped multiplication can go unnoticed: ten times 2^127 reads as zero. */
  lemma OverflowUnnoticed()
    ensures var s := ToDecimal(0x8000_0000_0000_0000_0000_0000_0000_0000) + "0";
            Wrapping(s) == Ok(0) && Decimal(s) == Ok(5 * TWO128)
  {
    hide Decimal, Wrapping, ToDecimal;
    var v := 0x8000_0000_0000_0000_0000_0000_0000_0000;
    DecimalOfToDecimal(v);
    ExactBelowTwo128(ToDecimal(v), v);
    AppendZero(ToDecimal(v), v);
    assert 10 * v == 5 * TWO128;
  }

  lemma AppendZero(s: string, v: nat)
    requires Wrapping(s) == Ok(v) && Decimal(s) == Ok(v)
    ensures Wrapping(s + "0") == Ok(10 * v % TWO128) && Decimal(s + "0") == Ok(10 * v)
  {
    var z := s + "0";
    assert z[..|z| - 1] == s && z[|z| - 1] == '0';
  }

  // ---------------------------------------------------------------- the writer

  function DigitChar(d: nat): (c: char)
    requires d < 10
    ensures DecimalDigit(c) == Ok(d)
  {
    '0' + d as char
  }

  /** The decimal text of v, without leading zeros. */
  function ToDecimal(v: nat): (s: string)
    ensures s != ""
  {
    if v < 10 then [DigitChar(v)] else ToDecimal(v / 10) + [DigitChar(v % 10)]
  }

  lemma {:induction false} DecimalOfToDecimal(v: nat)
    ensures Decimal(ToDecimal(v)) == Ok(v)
  {
    var s := ToDecimal(v);
    if v < 10 {
      assert s[..|s| - 1] == "";
    } else {
      DecimalOfToDecimal(v / 10);
      assert s[..|s| - 1] == ToDecimal(v / 10);
    }
  }

  /** ParseUint128 undoes WriteUint128 on all 2^128 values. */
  lemma RoundTrip(v: nat)
    requires v < TWO128
    ensures ToDecimal(v) != "" && Wrapping(ToDecimal(v)) == Ok(v)
  {
    DecimalOfToDecimal(v);
    ExactBelowTwo128(ToDecimal(v), v);
  }

  function Pow10(n: nat): (p: nat)
    ensures p > 0
  {
    if n == 0 then 1 else 10 * Pow10(n - 1)
  }

  lemma {:induction false} ToDecimalLength(v: nat, n: nat)
    requires n > 0 && v < Pow10(n)
    ensures |ToDecimal(v)| <= n
    decreases n
  {
    if v >= 10 {
      if n == 1 {
        assert false;
      }
      ToDecimalLength(v / 10, n - 1);
    }
  }

  lemma {:induction false} Pow10Add(a: nat, b: nat)
    ensures Pow10(a + b) == Pow10(a) * Pow10(b)
  {
    if a > 0 {
      Pow10Add(a - 1, b);
      MulAssoc(10, Pow10(a - 1), Pow10(b));
    }
  }

  lemma Pow10Product(a: nat, b: nat, x: nat, y: nat)
    requires Pow10(a) == x && Pow10(b) == y
    ensures Pow10(a + b) == x * y
  {
    Pow10Add(a, b);
  }

  lemma ThirtyNineDigits()
    ensures Pow10(39) > TWO128
  {
    assert Pow10(3) == 1000;
    hide Pow10;
    Pow10Product(3, 3, 1000, 1000);
    Pow10Product(6, 6, 1000_000, 1000_000);
    Pow10Product(12, 12, 1000_000_000_000, 1000_000_000_000);
    Pow10Product(24, 12, 1000_000_000_000_000_000_000_000, 1000_000_000_000);
    Pow10Product(36, 3, 1000_000_000_000_000_000_000_000_000_000_000_000, 1000);
  }

  /** Divide the limbs by ten in place; the remainder is the next digit. */
  method DivideByTen(bits: array<u32>) returns (remainder: nat)
    requires bits.Length == 4
    modifies bits
    ensures Val(bits[..]) == old(Val(bits[..])) / 10 && remainder == old(Val(bits[..])) % 10
  {
    ghost var s := bits[..];
    remainder := bits[3];
    var digits;
    var i := 3;
    while i != 0
      invariant 0 <= i <= 3
      invariant bits[..i + 1] == s[..i + 1]
      invariant i == 3 ==> remainder == s[3]
      invariant i == 2 ==> remainder + B * (10 * bits[3] as int) == s[2] + B * s[3] as int
      invariant i == 1 ==> Limbs(remainder, 10 * bits[2] as int, 10 * bits[3] as int, 0) == Limbs(s[1], s[2], s[3], 0)
      invariant i == 0 ==> Limbs(remainder, 10 * bits[1] as int, 10 * bits[2] as int, 10 * bits[3] as int) == Val(s)
      invariant remainder < 10 * B
    {
      digits := remainder / 10;
      remainder := (remainder - digits * 10) * B + bits[i - 1];
      bits[i] := digits;
      i := i - 1;
    }
    digits := remainder / 10;
    remainder := remainder - digits * 10;
    bits[0] := digits;
  }

  lemma ToDecimalStep(v: nat)
    ensures var s := ToDecimal(v);
            s[|s| - 1] == DigitChar(v % 10) && s[..|s| - 1] == if v < 10 then "" else ToDecimal(v / 10)
  {
  }

  lemma ZeroLimbs(s: seq<u32>)
    requires |s| == 4
    ensures Val(s) == 0 <==> s[0] == 0 && s[1] == 0 && s[2] == 0 && s[3] == 0
  {
  }

  /** The do-while loop of WriteUint128: the digits, least significant first, in a 40-byte buffer whose
      bound the source asserts. */
  method ReversedDigits(limbs: seq<u32>) returns (reversed: array<char>, len: nat)
    requires |limbs| == 4
    ensures fresh(reversed) && reversed.Length == 40 && len < 40 && len == |ToDecimal(Val(limbs))|
    ensures forall j :: 0 <= j < len ==> reversed[j] == ToDecimal(Val(limbs))[len - 1 - j]
  {
    hide ToDecimal, Limbs, Pow10;
    ghost var text := ToDecimal(Val(limbs));
    ThirtyNineDigits();
    ToDecimalLength(Val(limbs), 39);
    var bits := new u32[4](i requires 0 <= i < 4 => limbs[i]);
    assert bits[..] == limbs;
    reversed := new char[40](_ => ' ');
    len := 0;
    while true
      invariant len < |text|
      invariant Val(bits[..]) >= 0 && text[..|text| - len] == ToDecimal(Val(bits[..]))
      invariant forall j :: 0 <= j < len ==> reversed[j] == text[|text| - 1 - j]
      decreases Val(bits[..])
    {
      ToDecimalStep(Val(bits[..]));
      assert text[..|text| - len][..|text| - len - 1] == text[..|text| - len - 1];
      var remainder := DivideByTen(bits);
      reversed[len] := DigitChar(remainder);
      len := len + 1;
      ZeroLimbs(bits[..]);
      if bits[0] == 0 && bits[1] == 0 && bits[2] == 0 && bits[3] == 0 {
        break;
      }
    }
  }

  /** WriteUint128: the digits are copied out backwards; a short destination keeps the leading ones. */
  method WriteUint128(buffer: array<char>, size: nat, limbs: seq<u32>)
    requires |limbs| == 4 && 0 < size <= buffer.Length
    modifies buffer
    ensures var text := ToDecimal(Val(limbs));
            var len := if |text| < size then |text| else size - 1;
            buffer[..len] == text[..len] && buffer[len] == '\0' && buffer[len + 1..] == old(buffer[len + 1..])
  {
    ghost var text := ToDecimal(Val(limbs));
    var reversed, len := ReversedDigits(limbs);
    var tail := 0;
    if len >= size {
      tail := len - size + 1;
      len := size - 1;
    }
    assert len + tail == |text|;
    forall k | 0 <= k < len {
      buffer[k] := reversed[len + tail - 1 - k];
    }
    buffer[len] := '\0';
    assert buffer[..len] == text[..len];
  }
}
