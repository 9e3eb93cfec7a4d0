/** Integer literals, src/literal.cc: the overflow-checked parsers accept exactly the literals in range. */
module IntLiteral {
  import opened Arith
  import opened Common

  const UINT64_MAX := 0xFFFF_FFFF_FFFF_FFFF
  const INT64_MAX := 0x7FFF_FFFF_FFFF_FFFF

  datatype ParseIntType = UnsignedOnly | SignedAndUnsigned

  function ParseHexdigit(c: char): (r: Result<nat>)
    ensures r.Ok? ==> r.value < 16
  {
    if '0' <= c <= '9' then Ok((c - '0') as nat)
    else if 'a' <= c <= 'f' then Ok(10 + (c - 'a') as nat)
    else if 'A' <= c <= 'F' then Ok(10 + (c - 'A') as nat)
    else Error
  }

  /** `uint32_t digit = *s - '0'` with the test `digit > 9`. */
  function DecimalDigit(c: char): (r: Result<nat>)
    ensures r.Ok? ==> r.value < 10
  {
    if '0' <= c <= '9' then Ok((c - '0') as nat) else Error
  }

  function Digit(base: nat, c: char): (r: Result<nat>)
    requires base == 10 || base == 16
    ensures r.Ok? ==> r.value < base
  {
    if base == 16 then ParseHexdigit(c) else DecimalDigit(c)
  }

  // ---------------------------------------------------------------- the mathematical value

  /** The value of a digit string with underscores; Error when some other character occurs. */
  function Value(base: nat, s: string): (r: Result<nat>)
    requires base == 10 || base == 16
  {
    if s == "" then Ok(0)
    else
      var front, c := Value(base, s[..|s| - 1]), s[|s| - 1];
      if front.Error? || c == '_' then front
      else if Digit(base, c).Error? then Error
      else Ok(front.value * base + Digit(base, c).value)
  }

  predicate IsHexLiteral(s: string) {
    |s| >= 2 && s[0] == '0' && s[1] == 'x'
  }

  /** The value of an unsigned literal; Error when it has no digit part or an invalid character. */
  function UnsignedValue(s: string): (r: Result<nat>) {
    if s == "" || s == "0x" then Error
    else if IsHexLiteral(s) then Value(16, s[2..])
    else Value(10, s)
  }

  predicate HasSign(s: string) {
    s != "" && (s[0] == '-' || s[0] == '+')
  }

  /** The value of a literal with an optional sign. */
  function SignedValue(s: string): (r: Result<int>) {
    if !HasSign(s) then UnsignedValue(s)
    else if UnsignedValue(s[1..]).Error? then Error
    else
      var v: int := UnsignedValue(s[1..]).value;
      Ok(if s[0] == '-' then -v else v)
  }

  /** Reading on never lowers the value, and never recovers from an invalid character. */
  lemma {:induction false} ValueGrows(base: nat, s: string, i: nat)
    requires (base == 10 || base == 16) && i <= |s| && Value(base, s).Ok?
    ensures Value(base, s[..i]).Ok? && Value(base, s[..i]).value <= Value(base, s).value
    decreases |s|
  {
    if i == |s| {
      assert s[..i] == s;
    } else {
      var front := s[..|s| - 1];
      ValueGrows(base, front, i);
      assert front[..i] == s[..i];
    }
  }

  lemma ValueStep(base: nat, s: string, i: nat)
    requires (base == 10 || base == 16) && i < |s|
    ensures Value(base, s[..i + 1]) ==
            (var front := Value(base, s[..i]);
             if front.Error? || s[i] == '_' then front
             else if Digit(base, s[i]).Error? then Error
             else Ok(front.value * base + Digit(base, s[i]).value))
  {
    assert s[..i + 1][..i] == s[..i];
  }

  lemma ValueOfNothing(base: nat, s: string)
    requires base == 10 || base == 16
    ensures Value(base, s[..0]) == Ok(0)
  {
  }

  /** -v in two's complement, as the parsers compute it. */
  lemma NegativePattern(N: int, v: int)
    requires 0 <= v < N
    ensures (N - v) % N == -v % N
  {
    if v > 0 {
      ModSmall(N - v, N);
      DivMod(-v, N, -1, N - v);
    } else {
      DivMod(N, N, 1, 0);
    }
  }

  // ---------------------------------------------------------------- the parsers

  /** The shared loop of ParseUint64, whose two copies differ in the base. */
  method ParseDigits(base: nat, s: string) returns (r: Result<nat>)
    requires base == 10 || base == 16
    ensures r == if Value(base, s).Ok? && Value(base, s).value <= UINT64_MAX then Value(base, s) else Error
  {
    ValueOfNothing(base, s);
    hide Value;
    var maxDiv, maxMod := UINT64_MAX / base, UINT64_MAX % base;
    var value := 0;
    for i := 0 to |s|
      invariant Value(base, s[..i]) == Ok(value) && value <= UINT64_MAX
    {
      ValueStep(base, s, i);
      if Value(base, s).Ok? {
        ValueGrows(base, s, i + 1);
      }
      if s[i] != '_' {
        var digit := Digit(base, s[i]);
        if digit.Error? {
          return Error;
        }
        if value > maxDiv || (value == maxDiv && digit.value > maxMod) {
          return Error;
        }
        value := value * base + digit.value;
      }
    }
    assert s[..|s|] == s;
    r := Ok(value);
  }

  /** ParseUint64 succeeds exactly on the literals whose value is at most 2^64 - 1, and returns it. */
  method ParseUint64(s: string) returns (r: Result<nat>)
    ensures r == if UnsignedValue(s).Ok? && UnsignedValue(s).value < 0x1_0000_0000_0000_0000
                 then UnsignedValue(s) else Error
  {
    if s == "" {
      return Error;
    }
    if s[0] == '0' && 1 < |s| && s[1] == 'x' {
      if |s| == 2 {
        return Error;
      }
      r := ParseDigits(16, s[2..]);
    } else {
      r := ParseDigits(10, s);
    }
  }

  /** ParseInt at width n, where half = 2^(n - 1): Ok exactly in range, with the value modulo 2^n. */
  method ParseInt(half: int, s: string, parseType: ParseIntType) returns (r: Result<nat>)
    requires half == 0x80 || half == 0x8000 || half == 0x8000_0000
    requires s != ""
    ensures r == if SignedValue(s).Ok? && -half <= SignedValue(s).value < 2 * half &&
                    (parseType == UnsignedOnly ==> !HasSign(s))
                 then Ok(SignedValue(s).value % (2 * half)) else Error
  {
    hide UnsignedValue;
    var signedMax, unsignedMax := half - 1, 2 * half - 1;
    var hasSign, digits := false, s;
    if s[0] == '-' || s[0] == '+' {
      if parseType == UnsignedOnly {
        return Error;
      }
      if s[0] == '-' {
        hasSign := true;
      }
      digits := s[1..];
    }
    var parsed := ParseUint64(digits);
    if parsed.Error? {
      return Error;
    }
    var value := parsed.value;
    if hasSign {
      if value > signedMax + 1 {
        return Error;
      }
      NegativePattern(2 * half, value);
      value := unsignedMax - value + 1;
    } else {
      if value > unsignedMax {
        return Error;
      }
    }
    r := Ok(value % (2 * half));
  }

  /** ParseInt64: as ParseInt at width 64, though it looks at the digits' outcome last. */
  method ParseInt64(s: string, parseType: ParseIntType) returns (r: Result<nat>)
    requires s != ""
    ensures r == if SignedValue(s).Ok? && -0x8000_0000_0000_0000 <= SignedValue(s).value < 0x1_0000_0000_0000_0000 &&
                    (parseType == UnsignedOnly ==> !HasSign(s))
                 then Ok(SignedValue(s).value % 0x1_0000_0000_0000_0000) else Error
  {
    var hasSign, digits := false, s;
    if s[0] == '-' || s[0] == '+' {
      if parseType == UnsignedOnly {
        return Error;
      }
      if s[0] == '-' {
        hasSign := true;
      }
      digits := s[1..];
    }
    var value := 0;
    var result := ParseUint64(digits);
    if result.Ok? {
      value := result.value;
    }
    if hasSign {
      if value > INT64_MAX + 1 {
        return Error;
      }
      value := (UINT64_MAX - value + 1) % (UINT64_MAX + 1);
    }
    r := if result.Ok? then Ok(value) else Error;
  }
}
