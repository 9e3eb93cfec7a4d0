/** The converter's own LEB128 reader, reader.cpp, and when it agrees with wabt's. */
module Reader {
  import opened Arith
  import opened Leb128

  /** How many bytes the operand at p occupies: up to the first without the continuation bit. */
  function OperandLength(p: seq<byte>): (n: nat)
    ensures n <= |p|
  {
    if p == [] then 0 else if p[0] < 128 then 1 else 1 + OperandLength(p[1..])
  }

  lemma {:induction false} OperandLengthIs(p: seq<byte>, k: nat)
    requires Terminates(p, k)
    ensures OperandLength(p) == k
    decreases k
  {
    if p[0] >= 128 {
      TerminatesTail(p, k);
      OperandLengthIs(p[1..], k - 1);
    }
  }

  /** The bytes at pc end in an operand of at most five bytes: reading on would leave the buffer, and a
      sixth byte would shift a 32-bit value by more than 31. */
  predicate Readable(p: seq<byte>) {
    1 <= OperandLength(p) <= 5 && Terminates(p, OperandLength(p))
  }

  /** Read_leb128: the pieces are shifted as 32-bit values and summed in 64 bits. */
  function Leb128Value(p: seq<byte>): (v: nat) {
    LebBits(32, p, OperandLength(p))
  }

  method ReadLeb128(p: seq<byte>) returns (result: u64)
    requires Readable(p)
    ensures result == Leb128Value(p)
  {
    ghost var n := OperandLength(p);
    var sum, offset, pc := 0, 0, 0;
    var current: byte := p[0];
    while current / 128 != 0
      invariant 0 <= pc < n && current == p[pc] && offset == 7 * pc
      invariant sum == LebBits(32, p, pc)
      decreases n - pc
    {
      sum := sum + Pow2(offset) * (current % 128) % Pow2(32);
      offset := offset + 7;
      pc := pc + 1;
      current := p[pc];
    }
    assert Terminates(p, pc + 1);
    OperandLengthIs(p, pc + 1);
    sum := sum + Pow2(offset) * (current % 128) % Pow2(32);
    LebBitsBound(p, n);
    result := sum;
  }

  lemma {:induction false} LebBitsBound(p: seq<byte>, k: nat)
    requires k <= |p|
    ensures LebBits(32, p, k) <= k * 0x1_0000_0000
    decreases k
  {
    Pow2Values();
    if k > 0 {
      LebBitsBound(p, k - 1);
    }
  }

  /** Read_opr_size counts in an 8-bit variable. */
  method ReadOprSize(p: seq<byte>) returns (result: byte)
    requires Terminates(p, OperandLength(p))
    ensures result == OperandLength(p) % 256
  {
    ghost var n := OperandLength(p);
    var pc := 0;
    var current: byte := p[0];
    result := 1;
    while current / 128 % 2 != 0
      invariant 0 <= pc < n && current == p[pc] && result as int == (pc + 1) % 256
      decreases n - pc
    {
      result := (result + 1) % 256;
      pc := pc + 1;
      current := p[pc];
    }
    assert Terminates(p, pc + 1);
    OperandLengthIs(p, pc + 1);
  }

  /** Whatever ReadU32Leb128 accepts, the converter reads with the same length and value. */
  lemma AgreesWithReadU32(p: seq<byte>, n: nat, v: nat)
    requires ReadU32Leb128(p) == Leb(n, v)
    ensures Readable(p) && OperandLength(p) == n && Leb128Value(p) == v
  {
    ReadU32MatchesGrammar(p, n, v);
    UnsignedClosedForm(32, p, n, v);
    OperandLengthIs(p, n);
  }

  /** A written operand is readable and as long as written, whatever follows. */
  lemma ReadsUnsigned(v: u32, rest: seq<byte>)
    ensures Readable(EncodeU(v) + rest) && OperandLength(EncodeU(v) + rest) == |EncodeU(v)|
    ensures Leb128Value(EncodeU(v) + rest) == v
  {
    RoundTripU32(v, rest);
    AgreesWithReadU32(EncodeU(v) + rest, |EncodeU(v)|, v);
  }

  lemma SignedOperand(v: s32, rest: seq<byte>)
    ensures var p, n := EncodeS(v) + rest, |EncodeS(v)|;
            Readable(p) && OperandLength(p) == n && SignedGroups(p, n) == v &&
            FinalByteFits(32 - 7 * (n - 1), p[n - 1])
  {
    hide Pow2, IsSigned, SignedGroups, FinalByteFits, EncodeS;
    var p, n := EncodeS(v) + rest, |EncodeS(v)|;
    Pow2Small();
    EncodeSIsSigned(32, v, rest);
    SignedClosedForm(32, p, n, v);
    OperandLengthIs(p, n);
  }

  /** The converter does not sign-extend: it recovers an i32.const's pattern exactly when the constant is
      non-negative, or so negative that its encoding fills all five bytes. */
  lemma ReadsConstant(v: s32, rest: seq<byte>)
    ensures Leb128Value(EncodeS(v) + rest) == v % 0x1_0000_0000 <==> v >= 0 || v < -0x800_0000
  {
    hide Pow2, LebBits, SignedGroups, FinalByteFits;
    var p, n := EncodeS(v) + rest, |EncodeS(v)|;
    SignedOperand(v, rest);
    hide EncodeS;
    Pow2Small();
    if n == 5 {
      SignedFifth(p);
      if -0x800_0000 <= v < 0 {
        FourBytes(v);
        assert false;
      }
    } else {
      ShortConstant(p, n);
      SmallPattern(v);
    }
  }

  /** Up to four bytes, a negative value comes back short of 2^32 by more than its size allows. */
  lemma ShortConstant(p: seq<byte>, n: nat)
    requires 1 <= n <= 4 && n <= |p|
    ensures SignedGroups(p, n) >= 0 ==> LebBits(32, p, n) == SignedGroups(p, n) < 0x1000_0000
    ensures SignedGroups(p, n) < 0 ==> -0x800_0000 <= SignedGroups(p, n) && LebBits(32, p, n) < 0x1000_0000
  {
    hide Pow2;
    Pow2Small();
    GroupsSign(p, n);
    ShortGroupFits(32, p, n);
    LebBitsValue(32, p, n);
    Pow2Add(7 * n - 1, 1);
    Pow2Mono(7 * n - 1, 27);
    Pow2Add(27, 1);
  }

  /** Fewer than five bytes never come near 2^32. */
  lemma ShortOperand(p: seq<byte>)
    requires Readable(p) && OperandLength(p) < 5
    ensures Leb128Value(p) < 0x1000_0000
  {
    hide Pow2, LebBits, SignedGroups;
    ShortConstant(p, OperandLength(p));
  }

  lemma FourBytes(v: s32)
    requires -0x800_0000 <= v < 0x800_0000
    ensures |EncodeS(v)| <= 4
  {
    Pow2Small();
    assert Pow2(27) == 0x800_0000 by { Pow2Add(27, 1); }
    EncodeSLength(v, 4);
  }

  /** Of every constant wabt accepts, the converter recovers exactly those that are non-negative or fill five bytes. */
  lemma AgreesWithReadS32(p: seq<byte>, n: nat, w: nat)
    requires ReadS32Leb128(p) == Leb(n, w)
    ensures Readable(p) && OperandLength(p) == n
    ensures Leb128Value(p) == w <==> w < 0x8000_0000 || n == 5
  {
    hide Pow2, ReadS32Leb128, Leb128.SignedGroups, LebBits, FinalByteFits;
    Pow2Small();
    AcceptedEnds(p);
    var k := TerminatesExists(p, n - 1);
    ReadS32Value(p, k);
    OperandLengthIs(p, k);
    if n == 5 {
      SignedFifth(p);
    } else {
      ShortConstant(p, n);
      SmallPattern(SignedGroups(p, n));
    }
  }

  lemma SmallPattern(g: int)
    requires -0x800_0000 <= g < 0x1000_0000
    ensures g % 0x1_0000_0000 == if g >= 0 then g else g + 0x1_0000_0000
  {
  }
}
