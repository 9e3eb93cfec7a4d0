/** UTF-8 validation, src/utf8.cc, against sections 3 and 4 of RFC 3629. */
module Utf8 {

  type byte = b: int | 0 <= b < 256

  // ---------------------------------------------------------------- the standard

  /** A Unicode scalar value: a code point that is not a surrogate. */
  predicate IsScalar(c: int) {
    0 <= c <= 0x10FFFF && !(0xD800 <= c <= 0xDFFF)
  }

  /** The octets of one scalar value, from the table in section 3. */
  function Octets(c: nat): (s: seq<byte>)
    requires IsScalar(c)
    ensures 1 <= |s| <= 4
  {
    if c < 0x80 then [c]
    else if c < 0x800 then [0xC0 + c / 64, 0x80 + c % 64]
    else if c < 0x1_0000 then [0xE0 + c / 4096, 0x80 + c / 64 % 64, 0x80 + c % 64]
    else [0xF0 + c / 262144, 0x80 + c / 4096 % 64, 0x80 + c / 64 % 64, 0x80 + c % 64]
  }

  type Text = cs: seq<int> | forall c :: c in cs ==> IsScalar(c)

  function Encode(cs: Text): (s: seq<byte>)
    ensures cs != [] ==> s != []
  {
    if cs == [] then [] else Octets(cs[0]) + Encode(cs[1..])
  }

  // ---------------------------------------------------------------- the validator

  /** The table s_utf8_length. */
  function Utf8Length(cu0: byte): (n: nat)
    ensures n <= 4
  {
    if cu0 < 0x80 then 1
    else if cu0 < 0xC2 then 0
    else if cu0 < 0xE0 then 2
    else if cu0 < 0xF0 then 3
    else if cu0 < 0xF5 then 4
    else 0
  }

  predicate IsCont(c: byte) {
    c / 64 * 64 == 0x80
  }

  /** One iteration's verdict on the sequence at the head of a non-empty s: its length if it passes. */
  function Step(s: seq<byte>): (n: nat)
    requires s != []
    ensures n <= |s|
  {
    var length := Utf8Length(s[0]);
    if length > |s| || length == 0 then 0
    else if length == 1 then 1
    else if length == 2 then (if IsCont(s[1]) then 2 else 0)
    else if length == 3 then
      if !(IsCont(s[1]) && IsCont(s[2])) || (s[0] == 0xE0 && s[1] < 0xA0) || (s[0] == 0xED && s[1] >= 0xA0)
      then 0 else 3
    else
      if !(IsCont(s[1]) && IsCont(s[2]) && IsCont(s[3])) || (s[0] == 0xF0 && s[1] < 0x90) ||
         (s[0] == 0xF4 && s[1] >= 0x90)
      then 0 else 4
  }

  function Valid(s: seq<byte>): (ok: bool) {
    if s == [] then true else
      var n := Step(s);
      n > 0 && Valid(s[n..])
  }

  method IsValidUtf8(s: seq<byte>) returns (ok: bool)
    ensures ok <==> exists cs: Text :: Encode(cs) == s
  {
    ValidMatchesStandard(s);
    var p := 0;
    while p < |s|
      invariant 0 <= p <= |s| && (Valid(s) <==> Valid(s[p..]))
    {
      ghost var rest := s[p..];
      var cu0 := s[p];
      var length := Utf8Length(cu0);
      if p + length > |s| {
        return false;
      }
      match length {
        case 0 =>
          return false;
        case 1 =>
          p := p + 1;
        case 2 =>
          p := p + 1;
          if !IsCont(s[p]) {
            return false;
          }
          p := p + 1;
        case 3 =>
          var cu1, cu2 := s[p + 1], s[p + 2];
          p := p + 3;
          if !(IsCont(cu1) && IsCont(cu2)) || (cu0 == 0xE0 && cu1 < 0xA0) || (cu0 == 0xED && cu1 >= 0xA0) {
            return false;
          }
        case _ =>
          var cu1, cu2, cu3 := s[p + 1], s[p + 2], s[p + 3];
          p := p + 4;
          if !(IsCont(cu1) && IsCont(cu2) && IsCont(cu3)) || (cu0 == 0xF0 && cu1 < 0x90) ||
             (cu0 == 0xF4 && cu1 >= 0x90) {
            return false;
          }
      }
      assert s[p..] == rest[length..];
    }
    return true;
  }

  // ---------------------------------------------------------------- what it accepts

  lemma Continuation(x: nat)
    requires x < 64
    ensures IsCont(0x80 + x)
  {
  }

  /** A step accepts the octets of any scalar value, at exactly their length. */
  lemma StepAcceptsOctets(c: nat, rest: seq<byte>)
    requires IsScalar(c)
    ensures Step(Octets(c) + rest) == |Octets(c)|
  {
    hide IsCont;
    var s := Octets(c) + rest;
    assert forall i :: 0 <= i < |Octets(c)| ==> s[i] == Octets(c)[i];
    Continuation(c % 64);
    Continuation(c / 64 % 64);
    Continuation(c / 4096 % 64);
    if 0x800 <= c < 0x1_0000 {
      assert c / 4096 == 0 ==> c / 64 % 64 >= 0x20;
      assert c / 4096 == 0xD ==> c / 64 % 64 < 0x20;
    } else if 0x1_0000 <= c {
      assert c / 262144 == 0 ==> c / 4096 % 64 >= 0x10;
      assert c / 262144 == 4 ==> c / 4096 % 64 < 0x10;
    }
  }

  /** The scalar value an accepted sequence stands for. */
  function Decode(s: seq<byte>): (c: int)
    requires s != [] && Step(s) > 0
  {
    match Step(s)
    case 1 => s[0]
    case 2 => (s[0] - 0xC0) as int * 64 + (s[1] - 0x80)
    case 3 => (s[0] - 0xE0) as int * 4096 + (s[1] - 0x80) as int * 64 + (s[2] - 0x80)
    case _ => (s[0] - 0xF0) as int * 262144 + (s[1] - 0x80) as int * 4096 + (s[2] - 0x80) as int * 64 + (s[3] - 0x80)
  }

  /** Base-64 digits are recovered by division. */
  lemma Base64(a: nat, b: nat, c: nat, d: nat)
    requires b < 64 && c < 64 && d < 64
    ensures var x := a * 262144 + b * 4096 + c * 64 + d;
            x / 262144 == a && x / 4096 == a * 64 + b && x / 4096 % 64 == b && x / 64 % 64 == c && x % 64 == d
  {
    var x := a * 262144 + b * 4096 + c * 64 + d;
    Digit64(a * 4096 + b * 64 + c, d, x);
    Digit64(a * 64 + b, c, a * 4096 + b * 64 + c);
    Digit64(a, b, a * 64 + b);
    assert x / 64 / 64 == x / 4096;
    assert x / 4096 / 64 == x / 262144;
  }

  lemma Digit64(q: nat, r: nat, x: nat)
    requires r < 64 && x == 64 * q + r
    ensures x / 64 == q && x % 64 == r
  {
  }

  lemma Base64Sum(x: nat)
    ensures x == x / 262144 * 262144 + x / 4096 % 64 * 4096 + x / 64 % 64 * 64 + x % 64
    ensures x == x / 4096 * 4096 + x / 64 % 64 * 64 + x % 64
  {
    assert x / 64 / 64 == x / 4096;
    assert x / 4096 / 64 == x / 262144;
  }

  lemma ThreeOctets(s: seq<byte>)
    requires s != [] && Step(s) == 3
    ensures IsScalar(Decode(s)) && Octets(Decode(s)) == s[..3]
  {
    Base64(0, s[0] - 0xE0, s[1] - 0x80, s[2] - 0x80);
  }

  lemma FourOctets(s: seq<byte>)
    requires s != [] && Step(s) == 4
    ensures IsScalar(Decode(s)) && Octets(Decode(s)) == s[..4]
  {
    Base64(s[0] - 0xF0, s[1] - 0x80, s[2] - 0x80, s[3] - 0x80);
  }

  /** A step accepts nothing else. */
  lemma StepAcceptsOnlyOctets(s: seq<byte>)
    requires s != [] && Step(s) > 0
    ensures IsScalar(Decode(s)) && Octets(Decode(s)) == s[..Step(s)]
  {
    if Step(s) == 3 {
      ThreeOctets(s);
    } else if Step(s) == 4 {
      FourOctets(s);
    }
  }

  lemma {:induction false} EncodingsAreValid(cs: Text)
    ensures Valid(Encode(cs))
  {
    if cs != [] {
      StepAcceptsOctets(cs[0], Encode(cs[1..]));
      assert Encode(cs)[|Octets(cs[0])|..] == Encode(cs[1..]);
      EncodingsAreValid(cs[1..]);
    }
  }

  lemma {:induction false} ValidIsEncoding(s: seq<byte>) returns (cs: Text)
    requires Valid(s)
    ensures Encode(cs) == s
  {
    cs := [];
    if s != [] {
      StepAcceptsOnlyOctets(s);
      var tail := ValidIsEncoding(s[Step(s)..]);
      cs := [Decode(s)] + tail;
      assert cs[1..] == tail;
    }
  }

  /** The validator accepts exactly the concatenations of encodings of scalar values. */
  lemma ValidMatchesStandard(s: seq<byte>)
    ensures Valid(s) <==> exists cs: Text :: Encode(cs) == s
  {
    if Valid(s) {
      var cs := ValidIsEncoding(s);
    }
    if cs: Text :| Encode(cs) == s {
      EncodingsAreValid(cs);
    }
  }

  /** The decomposition is unique: no two texts share their octets. */
  lemma {:induction false} EncodeInjective(cs: Text, ds: Text)
    requires Encode(cs) == Encode(ds)
    ensures cs == ds
  {
    if cs != [] && ds != [] {
      var s := Encode(cs);
      StepAcceptsOctets(cs[0], Encode(cs[1..]));
      StepAcceptsOctets(ds[0], Encode(ds[1..]));
      assert Octets(cs[0]) == s[..Step(s)] == Octets(ds[0]);
      OctetsInjective(cs[0], ds[0]);
      assert Encode(cs[1..]) == s[Step(s)..] == Encode(ds[1..]);
      EncodeInjective(cs[1..], ds[1..]);
      assert cs == [cs[0]] + cs[1..] && ds == [ds[0]] + ds[1..];
    }
  }

  lemma OctetsInjective(c: nat, d: nat)
    requires IsScalar(c) && IsScalar(d) && Octets(c) == Octets(d)
    ensures c == d
  {
    Base64Sum(c);
    Base64Sum(d);
  }
}
