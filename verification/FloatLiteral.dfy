/** The remaining forms of FloatParser, src/literal.cc: NaNs with a payload, infinities, and the dispatch. */
module FloatLiteral {
  import opened Common
  import opened IntLiteral
  import opened FloatFormat
  import opened HexScan
  import opened HexExponent
  import opened FloatParser

  /** The literal types other than decimal ones, which go to the C library. */
  datatype LiteralType = Hexfloat | Infinity | Nan

  predicate NanShape(s: string) {
    var i := SignLength(s);
    StartsWith(s[i..], "nan") && (s[i + 3..] == "" || StartsWith(s[i + 3..], ":0x"))
  }

  predicate InfinityShape(s: string) {
    StartsWith(s[SignLength(s)..], "inf")
  }

  /** The payload a NaN literal asks for: the quiet tag when it names none. */
  function NanTag(t: Format, s: string): (r: Result<nat>)
    requires NanShape(s)
  {
    var i := SignLength(s);
    if s[i + 3..] == "" then Ok(QuietNanTag(t)) else Value(16, s[i + 6..])
  }

  /** ParseNan accepts exactly the payloads between 1 and the significand mask. */
  method ParseNan(t: Format, s: string) returns (r: Result<nat>)
    requires NanShape(s)
    ensures var tag := NanTag(t, s);
            r == if tag.Ok? && 0 < tag.value < SigOne(t)
                 then Ok(Signed(t, IsNegative(s), InfMag(t) + tag.value)) else Error
  {
    hide Value;
    var isNeg, i := false, 0;
    if s[0] == '-' {
      isNeg := true;
      i := 1;
    } else if s[0] == '+' {
      i := 1;
    }
    i := i + 3;
    var tag;
    if s[i..] != "" {
      var parsed := ParseTag(t, s[i..][3..]);
      assert s[i..][3..] == s[i + 3..];
      if parsed.Error? {
        return Error;
      }
      tag := parsed.value;
      if tag == 0 {
        return Error;
      }
    } else {
      tag := QuietNanTag(t);
    }
    MakeIsSigned(t, isNeg, MaxExp(t), tag);
    InfinityField(t);
    r := Ok(Make(t, isNeg, MaxExp(t), tag));
  }

  lemma InfinityField(t: Format)
    ensures (MaxExp(t) - MinExp(t)) * SigOne(t) == InfMag(t) && 0 < QuietNanTag(t) < SigOne(t)
  {
    if t.bits == 32 {
    } else {
    }
  }

  /** The payload loop: hexadecimal digits with underscores, checked against the mask after each. */
  method ParseTag(t: Format, digits: string) returns (r: Result<nat>)
    ensures r == if Value(16, digits).Ok? && Value(16, digits).value < SigOne(t) then Value(16, digits) else Error
  {
    var tag := 0;
    for i := 0 to |digits|
      invariant Value(16, digits[..i]) == Ok(tag) && tag < SigOne(t)
    {
      ValueStep(16, digits, i);
      if Value(16, digits).Ok? {
        ValueGrows(16, digits, i + 1);
      }
      if digits[i] == '_' {
        continue;
      }
      var digit := ParseHexdigit(digits[i]);
      if digit.Error? {
        return Error;
      }
      tag := tag * 16 + digit.value;
      if tag > SigOne(t) - 1 {
        return Error;
      }
    }
    assert digits[..|digits|] == digits;
    r := Ok(tag);
  }

  method ParseInfinity(t: Format, s: string) returns (bits: nat)
    requires InfinityShape(s)
    ensures bits == Signed(t, IsNegative(s), InfMag(t))
  {
    var isNeg := false;
    if s[0] == '-' {
      isNeg := true;
    }
    MakeIsSigned(t, isNeg, MaxExp(t), 0);
    InfinityField(t);
    bits := Make(t, isNeg, MaxExp(t), 0);
  }

  predicate Shape(literalType: LiteralType, s: string) {
    match literalType
    case Hexfloat => HexShape(s)
    case Infinity => InfinityShape(s)
    case Nan => NanShape(s)
  }

  /** What each form of literal is read as. */
  ghost predicate ReadsAs(t: Format, literalType: LiteralType, s: string, r: Result<nat>)
    requires Shape(literalType, s)
  {
    match literalType
    case Hexfloat => ReadsHex(t, s, r)
    case Infinity => r == Ok(Signed(t, IsNegative(s), InfMag(t)))
    case Nan =>
      r == if NanTag(t, s).Ok? && 0 < NanTag(t, s).value < SigOne(t)
           then Ok(Signed(t, IsNegative(s), InfMag(t) + NanTag(t, s).value)) else Error
  }

  method Parse(t: Format, literalType: LiteralType, s: string) returns (r: Result<nat>)
    requires Shape(literalType, s)
    ensures ReadsAs(t, literalType, s, r)
  {
    match literalType {
      case Hexfloat =>
        r := ParseHex(t, s);
      case Infinity =>
        var bits := ParseInfinity(t, s);
        r := Ok(bits);
      case Nan =>
        r := ParseNan(t, s);
    }
  }
}
