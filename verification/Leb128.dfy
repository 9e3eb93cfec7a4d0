/** The variable-length integers of src/leb128.cc: loop writers, unrolled readers,
    and the integer grammar of the WebAssembly Core Specification 1.0, section 5.2.2. */
module Leb128 {
  import opened Arith

  type byte = b: int | 0 <= b < 256
  type u32 = v: int | 0 <= v < 0x1_0000_0000
  type s32 = v: int | -0x8000_0000 <= v < 0x8000_0000
  type u64 = v: int | 0 <= v < 0x1_0000_0000_0000_0000
  type s64 = v: int | -0x8000_0000_0000_0000 <= v < 0x8000_0000_0000_0000

  const MAX_U32_LEB128_BYTES := 5
  const MAX_U64_LEB128_BYTES := 10

  /** A reader's outcome: the length and the unsigned bit pattern stored through the
      out pointer, or length 0. */
  datatype Leb = Leb(len: nat, value: nat) | Rejected

  // ---------------------------------------------------------------- the grammar

  /** The first n bytes of p are an encoding of v in the grammar of uN. */
  ghost predicate IsUnsigned(N: nat, p: seq<byte>, n: nat, v: int)
    decreases n
  {
    1 <= n <= |p| &&
    if p[0] < 128 then n == 1 && p[0] < Pow2(N) && v == p[0]
    else N > 7 && v % 128 == p[0] - 128 && IsUnsigned(N - 7, p[1..], n - 1, v / 128)
  }

  /** The first n bytes of p are an encoding of v in the grammar of sN. */
  ghost predicate IsSigned(N: nat, p: seq<byte>, n: nat, v: int)
    requires N > 0
    decreases n
  {
    1 <= n <= |p| &&
    if p[0] < 64 then n == 1 && p[0] < Pow2(N - 1) && v == p[0]
    else if p[0] < 128 then n == 1 && p[0] >= 128 - Pow2(N - 1) && v + 128 == p[0]
    else N > 7 && v % 128 == p[0] - 128 && IsSigned(N - 7, p[1..], n - 1, v / 128)
  }

  // ---------------------------------------------------------------- writers

  /** What the unsigned writer loop emits. */
  function EncodeU(v: nat): (bs: seq<byte>)
    ensures |bs| > 0
  {
    if v < 128 then [v] else [v % 128 + 128] + EncodeU(v / 128)
  }

  /** What the signed writer loop emits. */
  function EncodeS(v: int): (bs: seq<byte>)
    ensures |bs| > 0
    decreases if v < 0 then -v else v
  {
    var b := v % 128;
    if (v / 128 == 0 && b < 64) || (v / 128 == -1 && b >= 64) then [b] else [b + 128] + EncodeS(v / 128)
  }

  /** k bytes hold a value exactly when it has at most 7 * k bits. */
  lemma {:induction false} EncodeULength(v: nat, k: nat)
    requires k > 0
    ensures |EncodeU(v)| <= k <==> v < Pow2(7 * k)
    decreases k
  {
    Pow2Add(7, 7 * (k - 1));
    SevenBits();
    hide Pow2;
    if v < 128 {
      Pow2Mono(0, 7 * (k - 1));
      MulLe(128, 1, Pow2(7 * (k - 1)));
    } else if k > 1 {
      EncodeULength(v / 128, k - 1);
    }
  }

  lemma SevenBits()
    ensures Pow2(7) == 128 && Pow2(6) == 64 && Pow2(0) == 1
  {
  }

  /** The same with a sign bit. */
  lemma {:induction false} EncodeSLength(v: int, k: nat)
    requires k > 0
    ensures |EncodeS(v)| <= k <==> 0 <= v + Pow2(7 * k - 1) < 2 * Pow2(7 * k - 1)
    decreases k
  {
    SevenBits();
    hide Pow2;
    if k > 1 {
      Pow2Add(7, 7 * (k - 1) - 1);
      Pow2Mono(6, 7 * (k - 1) - 1);
      EncodeSLength(v / 128, k - 1);
    }
  }

  method U32Leb128Length(value: u32) returns (size: nat)
    ensures size == |EncodeU(value)|
  {
    var v := value;
    v := v / 128;
    size := 1;
    while v != 0
      invariant v >= 0
      invariant size + (if v == 0 then 0 else |EncodeU(v)|) == |EncodeU(value)|
    {
      v := v / 128;
      size := size + 1;
    }
  }

  lemma EncodeUStep(v: nat)
    ensures v / 128 == 0 ==> EncodeU(v) == [v % 128]
    ensures v / 128 != 0 ==> EncodeU(v) == [v % 128 + 128] + EncodeU(v / 128)
    ensures |EncodeU(v)| > 0
  {
  }

  /** Storing one more byte after the first `length`. */
  lemma StoredNext(data: seq<byte>, data': seq<byte>, length: nat, b: byte, rest: seq<byte>, whole: seq<byte>)
    requires length < |data| && data' == data[length := b] && data[..length] + ([b] + rest) == whole
    ensures data'[..length + 1] + rest == whole
  {
    assert data'[..length + 1] == data[..length] + [b];
    assert (data[..length] + [b]) + rest == data[..length] + ([b] + rest);
  }

  /** The loop of LEB128_LOOP_UNTIL(value == 0) filling a five-byte buffer. */
  method WriteU32Leb128(value: u32) returns (written: seq<byte>)
    ensures written == EncodeU(value) && |written| <= MAX_U32_LEB128_BYTES
  {
    hide EncodeU, Pow2;
    assert |EncodeU(value)| <= 5 by {
      Pow2Values();
      Pow2Mono(32, 35);
      EncodeULength(value, 5);
    }
    var data := new byte[MAX_U32_LEB128_BYTES](_ => 0);
    var length, v := 0, value;
    while true
      invariant 0 <= length && v >= 0 && length + |EncodeU(v)| <= data.Length
      invariant data[..length] + EncodeU(v) == EncodeU(value)
      decreases v
    {
      EncodeUStep(v);
      var b := v % 128;
      ghost var before := data[..];
      v := v / 128;
      if v == 0 {
        data[length] := b;
        length := length + 1;
        StoredNext(before, data[..], length - 1, b, [], EncodeU(value));
        break;
      } else {
        data[length] := b + 128;
        length := length + 1;
        StoredNext(before, data[..], length - 1, b + 128, EncodeU(v), EncodeU(value));
      }
    }
    written := data[..length];
  }

  method WriteU32Leb128Raw(dest: array<byte>, value: u32) returns (length: nat)
    modifies dest
    ensures length == if dest.Length < |EncodeU(value)| then 0 else |EncodeU(value)|
    ensures length <= dest.Length && dest[length..] == old(dest[length..])
    ensures length > 0 ==> dest[..length] == EncodeU(value)
  {
    var data := WriteU32Leb128(value);
    if dest.Length < |data| {
      return 0;
    }
    forall i | 0 <= i < |data| {
      dest[i] := data[i];
    }
    length := |data|;
  }

  /** The padded five-byte form. */
  function EncodeFixed(v: u32): (bs: seq<byte>)
  {
    [v % 128 + 128, v / 0x80 % 128 + 128, v / 0x4000 % 128 + 128, v / 0x20_0000 % 128 + 128,
     v / 0x1000_0000 % 16]
  }

  method WriteFixedU32Leb128Raw(data: array<byte>, value: u32) returns (length: nat)
    modifies data
    ensures length == if data.Length < MAX_U32_LEB128_BYTES then 0 else MAX_U32_LEB128_BYTES
    ensures length <= data.Length && data[length..] == old(data[length..])
    ensures length > 0 ==> data[..length] == EncodeFixed(value)
  {
    if data.Length < MAX_U32_LEB128_BYTES {
      return 0;
    }
    data[0] := value % 128 + 128;
    data[1] := value / 0x80 % 128 + 128;
    data[2] := value / 0x4000 % 128 + 128;
    data[3] := value / 0x20_0000 % 128 + 128;
    data[4] := value / 0x1000_0000 % 16;
    length := MAX_U32_LEB128_BYTES;
  }

  lemma EncodeSStep(v: int)
    ensures var last := if v < 0 then v / 128 == -1 && v % 128 >= 64 else v / 128 == 0 && v % 128 < 64;
            EncodeS(v) == if last then [v % 128] else [v % 128 + 128] + EncodeS(v / 128)
    ensures |EncodeS(v)| > 0
  {
  }

  /** The signed loop, with one end condition for negative values and one for the others. */
  method WriteSigned(value: int, size: nat) returns (written: seq<byte>)
    requires |EncodeS(value)| <= size
    ensures written == EncodeS(value)
  {
    hide EncodeS;
    var data := new byte[size](_ => 0);
    var length, v := 0, value;
    while true
      invariant 0 <= length && length + |EncodeS(v)| <= data.Length
      invariant v < 0 <==> value < 0
      invariant data[..length] + EncodeS(v) == EncodeS(value)
      decreases if v < 0 then -v else v
    {
      EncodeSStep(v);
      var b := v % 128;
      ghost var before := data[..];
      v := v / 128;
      if if value < 0 then v == -1 && b >= 64 else v == 0 && b < 64 {
        data[length] := b;
        length := length + 1;
        StoredNext(before, data[..], length - 1, b, [], EncodeS(value));
        break;
      } else {
        data[length] := b + 128;
        length := length + 1;
        StoredNext(before, data[..], length - 1, b + 128, EncodeS(v), EncodeS(value));
      }
    }
    written := data[..length];
  }

  method WriteS32Leb128(value: s32) returns (written: seq<byte>)
    ensures written == EncodeS(value) && |written| <= MAX_U32_LEB128_BYTES
  {
    Pow2Values();
    Pow2Mono(32, 34);
    EncodeSLength(value, 5);
    written := WriteSigned(value, MAX_U32_LEB128_BYTES);
  }

  method WriteS64Leb128(value: s64) returns (written: seq<byte>)
    ensures written == EncodeS(value) && |written| <= MAX_U64_LEB128_BYTES
  {
    Pow2Values();
    Pow2Mono(64, 69);
    EncodeSLength(value, 10);
    written := WriteSigned(value, MAX_U64_LEB128_BYTES);
  }

  // ---------------------------------------------------------------- readers

  /** BYTE_AT(type, i, 7 * i) for a type of `width` bits: the shift drops what leaves the type. */
  function ByteAt(width: nat, p: seq<byte>, i: nat): (r: nat)
    requires i < |p|
  {
    Pow2(7 * i) * (p[i] % 128) % Pow2(width)
  }

  /** LEB128_k(type), with the pieces added up; LebBitsIsOr says that or-ing them is the same. */
  function LebBits(width: nat, p: seq<byte>, k: nat): (r: nat)
    requires k <= |p|
  {
    if k == 0 then 0 else ByteAt(width, p, k - 1) + LebBits(width, p, k - 1)
  }

  /** LEB128_k(type) as the source has it. */
  function LebOr(width: nat, p: seq<byte>, k: nat): (r: nat)
    requires k <= |p|
  {
    if k == 0 then 0 else Or(ByteAt(width, p, k - 1), LebOr(width, p, k - 1))
  }

  /** A piece has no bit below its shift, and ends seven bits higher. */
  lemma PieceBits(width: nat, p: seq<byte>, i: nat)
    requires i < |p| && 7 * i <= width
    ensures Low(ByteAt(width, p, i), 7 * i) == 0 && ByteAt(width, p, i) + Pow2(7 * i) <= Pow2(7 * (i + 1))
  {
    var w, room, b := Pow2(7 * i), Pow2(width - 7 * i), p[i] % 128;
    Pow2Add(7 * i, width - 7 * i);
    Pow2Add(7 * i, 7);
    SevenBits();
    hide Pow2, Low;
    MulLe(w, 0, b);
    CutPiece(w, b, room);
    MulCommutes(w, b % room);
    ShlShr(b % room, 7 * i);
  }

  lemma CutPiece(w: nat, b: nat, room: nat)
    requires w > 0 && room > 0 && b < 128
    ensures w * b >= 0 && w * room > 0 && (w * b) % (w * room) == w * (b % room) && 0 <= w * (b % room) &&
            w * (b % room) + w <= w * 128
  {
    MulLe(w, 0, b);
    MulLt(w, 0, room);
    var q, r := b / room, b % room;
    DivDef(b, room);
    MulAssoc(w, room, q);
    MulLe(w, r + 1, room);
    MulLe(w, 0, r);
    assert w * b == (w * room) * q + w * r;
    assert w * (r + 1) == w * r + w;
    DivMod(w * b, w * room, q, w * r);
    ModAtMost(b, room);
    MulLe(w, r + 1, 128);
  }

  lemma ModAtMost(b: nat, room: nat)
    requires room > 0
    ensures 0 <= b % room <= b
  {
    DivDef(b, room);
    MulLe(room, 0, b / room);
  }

  /** The pieces occupy different bits: or is addition, as far as the shifts stay within the type. */
  lemma {:induction false} LebBitsIsOr(width: nat, p: seq<byte>, k: nat)
    requires k <= |p| && 7 * k <= width + 7
    ensures LebOr(width, p, k) == LebBits(width, p, k) < Pow2(7 * k)
    decreases k
  {
    hide Low, Or, ByteAt, Pow2;
    if k == 0 {
      SevenBits();
    } else {
      LebBitsIsOr(width, p, k - 1);
      PieceBits(width, p, k - 1);
      OrDisjoint(ByteAt(width, p, k - 1), LebBits(width, p, k - 1), 7 * (k - 1));
    }
  }

  function AsSigned(width: nat, v: int): (r: int)
    requires width > 0
  {
    if v % Pow2(width) < Pow2(width - 1) then v % Pow2(width) else v % Pow2(width) - Pow2(width)
  }

  /** SIGN_EXTEND: shift the sign bit to the top, reinterpret as signed, shift back
      arithmetically, store as unsigned. */
  function SignExtend(width: nat, value: nat, signBit: nat): (r: nat)
    requires signBit < width
  {
    var shift := width - 1 - signBit;
    AsSigned(width, Pow2(shift) * value) / Pow2(shift) % Pow2(width)
  }

  /** `p + i < end && (p[i] & 0x80) == 0` */
  predicate EndsAt(p: seq<byte>, i: nat) {
    i < |p| && p[i] < 128
  }

  function ReadU32Leb128(p: seq<byte>): (r: Leb) {
    if EndsAt(p, 0) then Leb(1, LebBits(32, p, 1))
    else if EndsAt(p, 1) then Leb(2, LebBits(32, p, 2))
    else if EndsAt(p, 2) then Leb(3, LebBits(32, p, 3))
    else if EndsAt(p, 3) then Leb(4, LebBits(32, p, 4))
    else if EndsAt(p, 4) then
      if p[4] / 16 != 0 then Rejected else Leb(5, LebBits(32, p, 5))
    else Rejected
  }

  function ReadS32Leb128(p: seq<byte>): (r: Leb) {
    if EndsAt(p, 0) then Leb(1, SignExtend(32, LebBits(32, p, 1), 6))
    else if EndsAt(p, 1) then Leb(2, SignExtend(32, LebBits(32, p, 2), 13))
    else if EndsAt(p, 2) then Leb(3, SignExtend(32, LebBits(32, p, 3), 20))
    else if EndsAt(p, 3) then Leb(4, SignExtend(32, LebBits(32, p, 4), 27))
    else if EndsAt(p, 4) then
      var signBitSet := p[4] / 8 % 2 == 1;
      var topBits := p[4] / 16 * 16;
      if (signBitSet && topBits != 0x70) || (!signBitSet && topBits != 0) then Rejected
      else Leb(5, LebBits(32, p, 5))
    else Rejected
  }

  function ReadS64Leb128(p: seq<byte>): (r: Leb) {
    if EndsAt(p, 0) then Leb(1, SignExtend(64, LebBits(64, p, 1), 6))
    else if EndsAt(p, 1) then Leb(2, SignExtend(64, LebBits(64, p, 2), 13))
    else if EndsAt(p, 2) then Leb(3, SignExtend(64, LebBits(64, p, 3), 20))
    else if EndsAt(p, 3) then Leb(4, SignExtend(64, LebBits(64, p, 4), 27))
    else if EndsAt(p, 4) then Leb(5, SignExtend(64, LebBits(64, p, 5), 34))
    else if EndsAt(p, 5) then Leb(6, SignExtend(64, LebBits(64, p, 6), 41))
    else if EndsAt(p, 6) then Leb(7, SignExtend(64, LebBits(64, p, 7), 48))
    else if EndsAt(p, 7) then Leb(8, SignExtend(64, LebBits(64, p, 8), 55))
    else if EndsAt(p, 8) then Leb(9, SignExtend(64, LebBits(64, p, 9), 62))
    else if EndsAt(p, 9) then
      var signBitSet := p[9] % 2 == 1;
      var topBits := p[9] / 2 * 2;
      if (signBitSet && topBits != 0x7e) || (!signBitSet && topBits != 0) then Rejected
      else Leb(10, LebBits(64, p, 10))
    else Rejected
  }

  // ---------------------------------------------------------------- readers refine the grammar

  /** The value of the first k seven-bit groups, least significant first. */
  function Groups(p: seq<byte>, k: nat): (v: nat)
    requires k <= |p|
  {
    if k == 0 then 0 else p[0] % 128 + 128 * Groups(p[1..], k - 1)
  }

  /** Byte n - 1 is the first without the continuation bit. */
  predicate Terminates(p: seq<byte>, n: nat) {
    1 <= n <= |p| && p[n - 1] < 128 && forall i :: 0 <= i < n - 1 ==> p[i] >= 128
  }

  lemma TerminatesTail(p: seq<byte>, n: nat)
    requires |p| > 0 && p[0] >= 128
    ensures Terminates(p, n) <==> n >= 2 && Terminates(p[1..], n - 1)
  {
    if n >= 2 && Terminates(p[1..], n - 1) {
      forall i | 0 <= i < n - 1 ensures p[i] >= 128 {
        if i > 0 { assert p[i] == p[1..][i - 1]; }
      }
    }
  }

  /** The grammar of uN in closed form. */
  lemma {:induction false} UnsignedClosedForm(N: nat, p: seq<byte>, n: nat, v: int)
    ensures IsUnsigned(N, p, n, v) <==>
            Terminates(p, n) && v == Groups(p, n) && (n == 1 || 7 * (n - 1) < N) &&
            p[n - 1] < Pow2(N - 7 * (n - 1))
    decreases n
  {
    if 1 <= n <= |p| && p[0] >= 128 {
      TerminatesTail(p, n);
      if N > 7 && n > 1 {
        UnsignedClosedForm(N - 7, p[1..], n - 1, v / 128);
        assert N - 7 - 7 * (n - 2) == N - 7 * (n - 1);
      }
    } else if 1 <= n <= |p| {
      assert Terminates(p, n) ==> n == 1;
      assert n == 1 ==> Groups(p, 1) == p[0] + 128 * Groups(p[1..], 0);
    }
  }

  /** The value of a signed encoding: the groups, less the weight of a set sign bit. */
  function SignedGroups(p: seq<byte>, n: nat): (v: int)
    requires 1 <= n <= |p|
  {
    Groups(p, n) - (if p[n - 1] % 128 >= 64 then Pow2(7 * n) else 0)
  }

  predicate FinalByteFits(N: nat, b: byte)
    requires N > 0
  {
    if b < 64 then b < Pow2(N - 1) else b >= 128 - Pow2(N - 1)
  }

  /** The grammar of sN in closed form. */
  lemma {:induction false} SignedClosedForm(N: nat, p: seq<byte>, n: nat, v: int)
    requires N > 0
    ensures IsSigned(N, p, n, v) <==>
            Terminates(p, n) && v == SignedGroups(p, n) && 7 * (n - 1) < N &&
            FinalByteFits(N - 7 * (n - 1), p[n - 1])
    decreases n
  {
    if 1 <= n <= |p| && p[0] >= 128 {
      TerminatesTail(p, n);
      if N > 7 && n > 1 {
        SignedClosedForm(N - 7, p[1..], n - 1, v / 128);
        assert N - 7 - 7 * (n - 2) == N - 7 * (n - 1);
        Pow2Add(7, 7 * (n - 1));
        assert Pow2(7 * n) == 128 * Pow2(7 * (n - 1));
        assert SignedGroups(p, n) == p[0] - 128 + 128 * SignedGroups(p[1..], n - 1);
      }
    } else if 1 <= n <= |p| {
      assert Terminates(p, n) ==> n == 1;
      assert n == 1 ==> Groups(p, 1) == p[0] + 128 * Groups(p[1..], 0);
      assert Pow2(7) == 128;
    }
  }

  lemma TerminatesUnique(p: seq<byte>, m: nat, n: nat)
    requires Terminates(p, m) && Terminates(p, n)
    ensures m == n
  {
  }

  lemma {:induction false} GroupsLast(p: seq<byte>, k: nat)
    requires 1 <= k <= |p|
    ensures Groups(p, k) == Groups(p, k - 1) + Pow2(7 * (k - 1)) * (p[k - 1] % 128)
    decreases k
  {
    if k > 1 {
      GroupsLast(p[1..], k - 1);
      GroupWeight(k - 1, p[k - 1] % 128);
    }
  }

  lemma SevenMore(k: nat)
    requires k > 0
    ensures Pow2(7 * k) == 128 * Pow2(7 * (k - 1))
  {
    hide Pow2;
    Pow2Add(7, 7 * (k - 1));
    Pow2Values();
  }

  lemma GroupWeightArith(w: nat, v: nat, b: nat)
    requires v == 128 * w
    ensures 128 * (w * b) == v * b
  {
  }

  lemma GroupWeight(k: nat, b: nat)
    requires k > 0
    ensures 128 * (Pow2(7 * (k - 1)) * b) == Pow2(7 * k) * b
  {
    hide Pow2;
    SevenMore(k);
    GroupWeightArith(Pow2(7 * (k - 1)), Pow2(7 * k), b);
  }

  lemma {:induction false} GroupsBound(p: seq<byte>, k: nat)
    requires k <= |p|
    ensures Groups(p, k) < Pow2(7 * k)
    decreases k
  {
    if k > 0 {
      GroupsBound(p[1..], k - 1);
      Pow2Add(7, 7 * (k - 1));
      Pow2Values();
    }
  }

  /** The k-th group fits what the type has left. */
  ghost predicate GroupFits(width: nat, p: seq<byte>, k: nat)
    requires 1 <= k <= |p|
  {
    7 * (k - 1) <= width && p[k - 1] % 128 < Pow2(width - 7 * (k - 1))
  }

  lemma ShortGroupFits(width: nat, p: seq<byte>, k: nat)
    requires 1 <= k <= |p| && 7 * k <= width
    ensures GroupFits(width, p, k)
  {
    Pow2Values();
    Pow2Mono(7, width - 7 * (k - 1));
  }

  /** While every group fits the type, or-ing the shifted bytes builds the groups' value. */
  lemma {:induction false} LebBitsValue(width: nat, p: seq<byte>, k: nat)
    requires k <= |p| && (k > 0 ==> GroupFits(width, p, k))
    ensures LebBits(width, p, k) == Groups(p, k) < Pow2(width)
    decreases k
  {
    hide Pow2;
    if k > 0 {
      if k > 1 { ShortGroupFits(width, p, k - 1); }
      LebBitsValue(width, p, k - 1);
      GroupsLast(p, k);
      GroupsBound(p, k - 1);
      Pow2Add(7 * (k - 1), width - 7 * (k - 1));
      DigitFits(Pow2(7 * (k - 1)), p[k - 1] % 128, Pow2(width - 7 * (k - 1)), Groups(p, k - 1));
    }
  }

  /** Sign extension in arithmetic: `half` is the sign bit's weight, s the shift's factor. */
  lemma ExtendArith(value: nat, half: nat, s: nat, x: int, W: int, H: int)
    requires half > 0 && s > 0 && value < 2 * half
    requires x == s * value && W == s * (2 * half) && H == s * half
    ensures 0 <= x < W
    ensures value < half ==> x < H && x / s == value
    ensures value >= half ==> x >= H && (x - W) / s == value - 2 * half
  {
    MulLt(s, value, 2 * half);
    MulLe(s, 0, value);
    if value < half {
      MulLt(s, value, half);
      DivMod(x, s, value, 0);
    } else {
      MulLe(s, half, value);
      DivMod(x - W, s, value - 2 * half, 0);
    }
  }

  lemma AsSignedSmall(width: nat, x: nat)
    requires width > 0 && x < Pow2(width)
    ensures AsSigned(width, x) == if x < Pow2(width - 1) then x else x - Pow2(width)
  {
    ModSmall(x, Pow2(width));
  }

  /** Sign extension of a value of signBit + 1 bits keeps its two's-complement value. */
  lemma SignExtendValue(width: nat, value: nat, signBit: nat)
    requires signBit < width && value < 2 * Pow2(signBit)
    ensures SignExtend(width, value, signBit) ==
            (if value < Pow2(signBit) then value else value - 2 * Pow2(signBit)) % Pow2(width)
  {
    hide Pow2, AsSigned, SignExtend;
    var shift := width - 1 - signBit;
    var s, h := Pow2(shift), Pow2(signBit);
    HalfPow(signBit + 1);
    Pow2Add(shift, signBit + 1);
    Pow2Add(shift, signBit);
    ExtendArith(value, h, s, s * value, Pow2(width), Pow2(width - 1));
    AsSignedSmall(width, s * value);
    SignExtendIs(width, value, signBit, if value < h then value else value - 2 * h);
  }

  lemma SignExtendIs(width: nat, value: nat, signBit: nat, v: int)
    requires signBit < width
    requires var s := Pow2(width - 1 - signBit); s * value >= 0 && AsSigned(width, s * value) / s == v
    ensures SignExtend(width, value, signBit) == v % Pow2(width)
  {
    hide Pow2, AsSigned;
  }

  /** The last group decides the sign: below 64 the value is in the lower half. */
  lemma GroupsSign(p: seq<byte>, k: nat)
    requires 1 <= k <= |p|
    ensures Groups(p, k) < 2 * Pow2(7 * k - 1)
    ensures p[k - 1] % 128 < 64 <==> Groups(p, k) < Pow2(7 * k - 1)
  {
    var w, b := Pow2(7 * (k - 1)), p[k - 1] % 128;
    GroupsLast(p, k);
    GroupsBound(p, k - 1);
    Pow2Add(7 * (k - 1), 6);
    assert Pow2(6) == 64;
    DigitFits(w, b, 128, Groups(p, k - 1));
    if b < 64 {
      DigitFits(w, b, 64, Groups(p, k - 1));
    } else {
      MulLe(w, 64, b);
    }
  }

  /** The short cases of the signed readers. */
  lemma SignedShort(width: nat, p: seq<byte>, k: nat)
    requires 1 <= k <= |p| && 7 * k <= width
    ensures SignExtend(width, LebBits(width, p, k), 7 * k - 1) == SignedGroups(p, k) % Pow2(width)
  {
    hide Pow2, LebBits, Groups, SignExtend, GroupFits;
    ShortGroupFits(width, p, k);
    LebBitsValue(width, p, k);
    HalfPow(7 * k);
    GroupsSign(p, k);
    SignExtendValue(width, Groups(p, k), 7 * k - 1);
  }

  lemma SignedRangeArith(w: nat, room: nat, b: byte, low: nat)
    requires low < w && room > 0 && if b < 64 then b < room else 128 - room <= b < 128
    ensures -(w * room) <= low + w * b - (if b >= 64 then w * 128 else 0) < w * room
  {
    if b < 64 {
      DigitFits(w, b, room, low);
    } else {
      MulLe(w, -(room as int), b - 128);
      MulLe(w, b - 128, -1);
      assert w * (b - 128) == w * b - w * 128;
      assert w * (-(room as int)) == -(w * room);
    }
  }

  /** A signed encoding of at most `width` bits is in range, so its bit pattern determines it. */
  lemma SignedRange(width: nat, p: seq<byte>, n: nat)
    requires 1 <= n <= |p| && p[n - 1] < 128
    requires 7 * (n - 1) < width && FinalByteFits(width - 7 * (n - 1), p[n - 1])
    ensures -(Pow2(width - 1) as int) <= SignedGroups(p, n) < Pow2(width - 1)
  {
    hide Pow2;
    GroupsLast(p, n);
    GroupsBound(p, n - 1);
    Pow2Add(7 * (n - 1), width - 7 * (n - 1) - 1);
    Pow2Add(7 * (n - 1), 7);
    Pow2Values();
    SignedRangeArith(Pow2(7 * (n - 1)), Pow2(width - 7 * (n - 1) - 1), p[n - 1], Groups(p, n - 1));
  }

  /** Two values in the signed range with the same pattern are the same. */
  lemma PatternInjective(H: int, u: int, v: int)
    requires H > 0 && -H <= u < H && -H <= v < H && u % (2 * H) == v % (2 * H)
    ensures u == v
  {
    var a, b := u / (2 * H), v / (2 * H);
    assert u - v == (2 * H) * (a - b);
    if a - b >= 1 {
      MulLe(2 * H, 1, a - b);
    } else if a - b <= -1 {
      MulLe(2 * H, a - b, -1);
    }
  }

  /** ReadU32Leb128 accepts n bytes with value v exactly when they are a u32 encoding of v. */
  lemma ReadU32MatchesGrammar(p: seq<byte>, n: nat, v: nat)
    ensures ReadU32Leb128(p) == Leb(n, v) <==> IsUnsigned(32, p, n, v)
  {
    hide Pow2;
    UnsignedClosedForm(32, p, n, v);
    Pow2Small();
    if Terminates(p, n) && 7 * (n - 1) < 32 {
      FirstEnd(p, n);
      if n < 5 {
        ShortGroupFits(32, p, n);
        LebBitsValue(32, p, n);
      } else if p[4] < 16 {
        LebBitsValue(32, p, 5);
      }
    }
  }

  /** At the first terminating byte and nowhere before it, `p + i < end` and the bit is clear. */
  lemma FirstEnd(p: seq<byte>, n: nat)
    requires Terminates(p, n)
    ensures EndsAt(p, n - 1) && forall i :: 0 <= i < n - 1 ==> !EndsAt(p, i)
  {
  }

  lemma Pow2Small()
    ensures Pow2(3) == 8 && Pow2(4) == 16 && Pow2(6) == 64 && Pow2(32) == 0x1_0000_0000 &&
            Pow2(64) == 0x1_0000_0000_0000_0000
    ensures Pow2(7) == 128 && Pow2(1) == 2 && Pow2(0) == 1
    ensures Pow2(28) == 0x1000_0000 && Pow2(35) == 0x8_0000_0000 && Pow2(31) == 0x8000_0000
    ensures Pow2(63) == 0x8000_0000_0000_0000 && Pow2(70) == 0x40_0000_0000_0000_0000
  {
    Pow2Values();
    Pow2Add(16, 12);
    Pow2Add(8, 4);
    Pow2Add(32, 3);
    Pow2Add(64, 6);
  }

  lemma FifthArith(b: byte, low: nat)
    requires (b < 8 || 120 <= b < 128) && low < 0x1000_0000
    ensures low + 0x1000_0000 * b % 0x1_0000_0000 ==
            (low + 0x1000_0000 * b - (if b >= 64 then 0x8_0000_0000 else 0)) % 0x1_0000_0000
  {
    if b >= 64 {
      DivMod(0x1000_0000 * b, 0x1_0000_0000, 7, 0x1000_0000 * (b - 112));
      DivMod(low + 0x1000_0000 * b - 0x8_0000_0000, 0x1_0000_0000, -1, low + 0x1000_0000 * (b - 112));
    }
  }

  /** What the last group adds to the bits or-ed before it. */
  lemma LastGroup(width: nat, p: seq<byte>, k: nat)
    requires 1 <= k <= |p| && 7 * (k - 1) <= width
    ensures LebBits(width, p, k) == Groups(p, k - 1) + Pow2(7 * (k - 1)) * (p[k - 1] % 128) % Pow2(width)
    ensures Groups(p, k) == Groups(p, k - 1) + Pow2(7 * (k - 1)) * (p[k - 1] % 128)
    ensures Groups(p, k - 1) < Pow2(7 * (k - 1))
  {
    hide Pow2;
    GroupsLast(p, k);
    GroupsBound(p, k - 1);
    if k > 1 { ShortGroupFits(width, p, k - 1); }
    LebBitsValue(width, p, k - 1);
  }

  /** The fifth byte of a 32-bit value: seven of its bits, of which four fit. */
  lemma SignedFifth(p: seq<byte>)
    requires |p| >= 5 && p[4] < 128 && FinalByteFits(4, p[4])
    ensures LebBits(32, p, 5) == SignedGroups(p, 5) % Pow2(32)
  {
    hide Pow2, LebBits, Groups;
    Pow2Small();
    LastGroup(32, p, 5);
    FifthArith(p[4], Groups(p, 4));
  }

  lemma TenthArith(b: byte, low: nat)
    requires (b == 0 || b == 127) && low < 0x8000_0000_0000_0000
    ensures low + 0x8000_0000_0000_0000 * b % 0x1_0000_0000_0000_0000 ==
            (low + 0x8000_0000_0000_0000 * b - (if b >= 64 then 0x40_0000_0000_0000_0000 else 0))
              % 0x1_0000_0000_0000_0000
  {
  }

  /** The tenth byte of a 64-bit value: seven of its bits, of which one fits. */
  lemma SignedTenth(p: seq<byte>)
    requires |p| >= 10 && p[9] < 128 && FinalByteFits(1, p[9])
    ensures LebBits(64, p, 10) == SignedGroups(p, 10) % Pow2(64)
  {
    hide Pow2, LebBits, Groups;
    Pow2Small();
    LastGroup(64, p, 10);
    TenthArith(p[9], Groups(p, 9));
  }

  /** What a signed reader of the given width returns, in terms of the encoded value. */
  ghost function SignedResult(width: nat, p: seq<byte>, n: nat): Leb
    requires Terminates(p, n) && width > 0
  {
    if 7 * (n - 1) < width && FinalByteFits(width - 7 * (n - 1), p[n - 1])
    then Leb(n, SignedGroups(p, n) % Pow2(width))
    else Rejected
  }

  lemma ReadS32Value(p: seq<byte>, n: nat)
    requires Terminates(p, n)
    ensures ReadS32Leb128(p) == SignedResult(32, p, n)
  {
    hide Pow2;
    FirstEnd(p, n);
    Pow2Small();
    if n < 5 {
      SignedShort(32, p, n);
      Pow2Mono(6, 32 - 7 * (n - 1) - 1);
    } else if n == 5 && FinalByteFits(4, p[4]) {
      SignedFifth(p);
    }
  }

  lemma ReadS64Value(p: seq<byte>, n: nat)
    requires Terminates(p, n)
    ensures ReadS64Leb128(p) == SignedResult(64, p, n)
  {
    hide Pow2;
    FirstEnd(p, n);
    Pow2Small();
    if n < 10 {
      SignedShort(64, p, n);
      Pow2Mono(6, 64 - 7 * (n - 1) - 1);
    } else if n == 10 && FinalByteFits(1, p[9]) {
      SignedTenth(p);
    }
  }

  /** Some byte without the continuation bit ends the input's first number, if there is one. */
  lemma {:induction false} TerminatesExists(p: seq<byte>, i: nat) returns (n: nat)
    requires EndsAt(p, i)
    ensures 1 <= n <= i + 1 && Terminates(p, n)
  {
    n := 1;
    while !EndsAt(p, n - 1)
      invariant 1 <= n <= i + 1
      invariant forall j :: 0 <= j < n - 1 ==> p[j] >= 128
      decreases i + 1 - n
    {
      n := n + 1;
    }
  }

  lemma AcceptedEnds(p: seq<byte>)
    ensures var r := ReadU32Leb128(p); r.Leb? ==> r.len >= 1 && EndsAt(p, r.len - 1)
    ensures var r := ReadS32Leb128(p); r.Leb? ==> r.len >= 1 && EndsAt(p, r.len - 1)
    ensures var r := ReadS64Leb128(p); r.Leb? ==> r.len >= 1 && EndsAt(p, r.len - 1)
  {
    hide EndsAt, LebBits, SignExtend;
  }

  lemma SignedReaderMatches(width: nat, p: seq<byte>, k: nat, n: nat, v: int)
    requires width > 0 && -(Pow2(width - 1) as int) <= v < Pow2(width - 1)
    requires Terminates(p, k)
    ensures SignedResult(width, p, k) == Leb(n, v % Pow2(width)) <==> IsSigned(width, p, n, v)
  {
    SignedClosedForm(width, p, n, v);
    if Terminates(p, n) {
      TerminatesUnique(p, k, n);
    }
    if SignedResult(width, p, k) == Leb(n, v % Pow2(width)) {
      SignedRange(width, p, k);
      PatternInjective(Pow2(width - 1), SignedGroups(p, n), v);
    }
  }

  /** ReadS32Leb128 accepts n bytes with the pattern of v exactly when they are an s32 encoding of v. */
  lemma ReadS32MatchesGrammar(p: seq<byte>, n: nat, v: s32)
    ensures ReadS32Leb128(p) == Leb(n, v % 0x1_0000_0000) <==> IsSigned(32, p, n, v)
  {
    hide Pow2, IsSigned, ReadS32Leb128, SignedResult, SignedGroups;
    Pow2Small();
    SignedClosedForm(32, p, n, v);
    AcceptedEnds(p);
    var r := ReadS32Leb128(p);
    if Terminates(p, n) || r.Leb? {
      var k := TerminatesExists(p, if r.Leb? then r.len - 1 else n - 1);
      ReadS32Value(p, k);
      SignedReaderMatches(32, p, k, n, v);
    }
  }

  /** ReadS64Leb128 accepts n bytes with the pattern of v exactly when they are an s64 encoding of v. */
  lemma ReadS64MatchesGrammar(p: seq<byte>, n: nat, v: s64)
    ensures ReadS64Leb128(p) == Leb(n, v % 0x1_0000_0000_0000_0000) <==> IsSigned(64, p, n, v)
  {
    hide Pow2, IsSigned, ReadS64Leb128, SignedResult, SignedGroups;
    Pow2Small();
    SignedClosedForm(64, p, n, v);
    AcceptedEnds(p);
    var r := ReadS64Leb128(p);
    if Terminates(p, n) || r.Leb? {
      var k := TerminatesExists(p, if r.Leb? then r.len - 1 else n - 1);
      ReadS64Value(p, k);
      SignedReaderMatches(64, p, k, n, v);
    }
  }

  lemma AcceptsU32(p: seq<byte>)
    ensures ReadU32Leb128(p).Leb? <==> exists n, v :: IsUnsigned(32, p, n, v)
  {
    hide IsUnsigned, ReadU32Leb128;
    var r := ReadU32Leb128(p);
    if r.Leb? {
      ReadU32MatchesGrammar(p, r.len, r.value);
    }
    if n: nat, v: int :| IsUnsigned(32, p, n, v) {
      UnsignedInRange(p, n, v);
      ReadU32MatchesGrammar(p, n, v);
    }
  }

  lemma UnsignedInRange(p: seq<byte>, n: nat, v: int)
    requires IsUnsigned(32, p, n, v)
    ensures v >= 0
  {
    UnsignedClosedForm(32, p, n, v);
  }

  lemma AcceptsS32(p: seq<byte>)
    ensures ReadS32Leb128(p).Leb? <==> exists n, v: s32 :: IsSigned(32, p, n, v)
  {
    hide Pow2, IsSigned, ReadS32Leb128, SignedGroups, FinalByteFits;
    Pow2Small();
    AcceptedEnds(p);
    var r := ReadS32Leb128(p);
    if r.Leb? {
      var k := TerminatesExists(p, r.len - 1);
      ReadS32Value(p, k);
      SignedRange(32, p, k);
      ReadS32MatchesGrammar(p, k, SignedGroups(p, k));
    }
    if n: nat, v: s32 :| IsSigned(32, p, n, v) {
      ReadS32MatchesGrammar(p, n, v);
    }
  }

  lemma AcceptsS64(p: seq<byte>)
    ensures ReadS64Leb128(p).Leb? <==> exists n, v: s64 :: IsSigned(64, p, n, v)
  {
    hide Pow2, IsSigned, ReadS64Leb128, SignedGroups, FinalByteFits;
    Pow2Small();
    AcceptedEnds(p);
    var r := ReadS64Leb128(p);
    if r.Leb? {
      var k := TerminatesExists(p, r.len - 1);
      ReadS64Value(p, k);
      SignedRange(64, p, k);
      ReadS64MatchesGrammar(p, k, SignedGroups(p, k));
    }
    if n: nat, v: s64 :| IsSigned(64, p, n, v) {
      ReadS64MatchesGrammar(p, n, v);
    }
  }

  /** A reader never accepts bytes that encode nothing: what it stores is always the pattern of a
      value those bytes encode, so rejection means no encoding stands at p. */
  lemma ReadersAcceptOnlyEncodings(p: seq<byte>)
    ensures ReadU32Leb128(p).Leb? <==> exists n, v :: IsUnsigned(32, p, n, v)
    ensures ReadS32Leb128(p).Leb? <==> exists n, v: s32 :: IsSigned(32, p, n, v)
    ensures ReadS64Leb128(p).Leb? <==> exists n, v: s64 :: IsSigned(64, p, n, v)
  {
    hide *;
    AcceptsU32(p);
    AcceptsS32(p);
    AcceptsS64(p);
  }

  // ---------------------------------------------------------------- round trips

  /** What the unsigned loop writes is an encoding, whatever follows it. */
  lemma {:induction false} EncodeUIsUnsigned(N: nat, v: nat, rest: seq<byte>)
    requires v < Pow2(N)
    ensures IsUnsigned(N, EncodeU(v) + rest, |EncodeU(v)|, v)
    decreases v
  {
    var p := EncodeU(v) + rest;
    if v >= 128 {
      if N <= 7 {
        Pow2Mono(N, 7);
        Pow2Values();
        assert false;
      }
      Pow2Add(7, N - 7);
      Pow2Values();
      EncodeUIsUnsigned(N - 7, v / 128, rest);
      assert p[1..] == EncodeU(v / 128) + rest;
    }
  }

  lemma {:induction false} EncodeSIsSigned(N: nat, v: int, rest: seq<byte>)
    requires N > 0 && -(Pow2(N - 1) as int) <= v < Pow2(N - 1)
    ensures IsSigned(N, EncodeS(v) + rest, |EncodeS(v)|, v)
    decreases if v < 0 then -v else v
  {
    var p, b := EncodeS(v) + rest, v % 128;
    assert p[0] == EncodeS(v)[0];
    if (v / 128 == 0 && b < 64) || (v / 128 == -1 && b >= 64) {
    } else {
      if N <= 7 {
        Pow2Mono(N - 1, 6);
        Pow2Small();
        assert false;
      }
      DivRange(v, N);
      EncodeSIsSigned(N - 7, v / 128, rest);
      assert p[1..] == EncodeS(v / 128) + rest;
    }
  }

  lemma DivRange(v: int, N: nat)
    requires N > 7 && -(Pow2(N - 1) as int) <= v < Pow2(N - 1)
    ensures -(Pow2(N - 8) as int) <= v / 128 < Pow2(N - 8)
  {
    Pow2Add(7, N - 8);
    assert Pow2(7) == 128;
  }

  lemma RoundTripU32(v: u32, rest: seq<byte>)
    ensures ReadU32Leb128(EncodeU(v) + rest) == Leb(|EncodeU(v)|, v)
  {
    Pow2Values();
    EncodeUIsUnsigned(32, v, rest);
    ReadU32MatchesGrammar(EncodeU(v) + rest, |EncodeU(v)|, v);
  }

  lemma RoundTripS32(v: s32, rest: seq<byte>)
    ensures ReadS32Leb128(EncodeS(v) + rest) == Leb(|EncodeS(v)|, v % 0x1_0000_0000)
  {
    Pow2Small();
    EncodeSIsSigned(32, v, rest);
    ReadS32MatchesGrammar(EncodeS(v) + rest, |EncodeS(v)|, v);
  }

  lemma RoundTripS64(v: s64, rest: seq<byte>)
    ensures ReadS64Leb128(EncodeS(v) + rest) == Leb(|EncodeS(v)|, v % 0x1_0000_0000_0000_0000)
  {
    Pow2Small();
    EncodeSIsSigned(64, v, rest);
    ReadS64MatchesGrammar(EncodeS(v) + rest, |EncodeS(v)|, v);
  }

  lemma FixedDigits(v: u32)
    ensures v == v % 128 + 0x80 * (v / 0x80 % 128) + 0x4000 * (v / 0x4000 % 128) +
                 0x20_0000 * (v / 0x20_0000 % 128) + 0x1000_0000 * (v / 0x1000_0000 % 16)
  {
    DivDiv(v, 0x80, 128);
    DivDiv(v, 0x4000, 128);
    DivDiv(v, 0x20_0000, 128);
  }

  lemma FiveGroups(p: seq<byte>, d0: int, d1: int, d2: int, d3: int, d4: int)
    requires |p| >= 5 && d0 == p[0] % 128 && d1 == p[1] % 128 && d2 == p[2] % 128 && d3 == p[3] % 128 &&
             d4 == p[4] % 128
    ensures Groups(p, 5) == d0 + 0x80 * d1 + 0x4000 * d2 + 0x20_0000 * d3 + 0x1000_0000 * d4
  {
    Pow2Small();
    Pow2Add(7, 7);
    Pow2Add(14, 7);
    GroupsLast(p, 5); GroupsLast(p, 4); GroupsLast(p, 3); GroupsLast(p, 2); GroupsLast(p, 1);
  }

  lemma SevenBitDigit(d: nat)
    requires d < 128
    ensures (d + 128) % 128 == d && d % 128 == d
  {
  }

  lemma FixedBytes(v: u32, rest: seq<byte>, d0: nat, d1: nat, d2: nat, d3: nat, d4: nat)
    requires d0 == v % 128 && d1 == v / 0x80 % 128 && d2 == v / 0x4000 % 128 && d3 == v / 0x20_0000 % 128
    requires d4 == v / 0x1000_0000 % 16
    ensures EncodeFixed(v) + rest == [d0 + 128, d1 + 128, d2 + 128, d3 + 128, d4] + rest
  {
  }

  lemma FixedGroups(v: u32, rest: seq<byte>)
    ensures var p := EncodeFixed(v) + rest;
            Terminates(p, 5) && Groups(p, 5) == v && p[4] < 16
  {
    FixedDigits(v);
    var d0, d1, d2, d3, d4 := v % 128, v / 0x80 % 128, v / 0x4000 % 128, v / 0x20_0000 % 128, v / 0x1000_0000 % 16;
    FixedBytes(v, rest, d0, d1, d2, d3, d4);
    FiveBytes(d0, d1, d2, d3, d4, rest);
  }

  lemma FiveBytes(d0: nat, d1: nat, d2: nat, d3: nat, d4: nat, rest: seq<byte>)
    requires d0 < 128 && d1 < 128 && d2 < 128 && d3 < 128 && d4 < 16
    ensures var p := [d0 + 128, d1 + 128, d2 + 128, d3 + 128, d4] + rest;
            Terminates(p, 5) && Groups(p, 5) == d0 + 0x80 * d1 + 0x4000 * d2 + 0x20_0000 * d3 + 0x1000_0000 * d4 &&
            p[4] < 16
  {
    hide Groups;
    SevenBitDigit(d0);
    SevenBitDigit(d1);
    SevenBitDigit(d2);
    SevenBitDigit(d3);
    SevenBitDigit(d4);
    FiveGroups([d0 + 128, d1 + 128, d2 + 128, d3 + 128, d4] + rest, d0, d1, d2, d3, d4);
  }

  lemma RoundTripFixed(v: u32, rest: seq<byte>)
    ensures ReadU32Leb128(EncodeFixed(v) + rest) == Leb(MAX_U32_LEB128_BYTES, v)
  {
    var p := EncodeFixed(v) + rest;
    FixedGroups(v, rest);
    UnsignedClosedForm(32, p, 5, v);
    Pow2Small();
    ReadU32MatchesGrammar(p, 5, v);
  }
}
