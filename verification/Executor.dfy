/** executor.cxx: the frame's registers and memory, and one step of each instruction it executes. */
module Executor {
  import opened Arith
  import opened Common
  import opened Leb128
  import opened Uwinst

  const FRAME_REGISTERS := 4096
  const MEMORY_SIZE := 0x1_0000
  const REGISTER_RETURN := 2
  const URETURN := 0x0f
  const UI32LOAD := 0x28
  const UI32STORE := 0x36
  const UI32CONST := 0x41
  const UI32ADD := 0x6a
  const UI64ADD := 0x7c

  /** Four bytes as a little-endian word. */
  function Little(b0: int, b1: int, b2: int, b3: int): (v: u32)
    requires 0 <= b0 < 256 && 0 <= b1 < 256 && 0 <= b2 < 256 && 0 <= b3 < 256
  {
    b0 + 0x100 * b1 + 0x1_0000 * b2 + 0x100_0000 * b3
  }

  function Word(mem: seq<byte>, a: nat): (v: u32)
    requires a + 4 <= |mem|
  {
    Little(mem[a], mem[a + 1], mem[a + 2], mem[a + 3])
  }

  /** 32-bit addition. */
  function Sum(a: int, b: int): (v: u32) {
    (a + b) % 0x1_0000_0000
  }

  /** 64-bit addition: registers are read as 32-bit values, whatever their width, and so is their sum. */
  function LongSum(a: u64, b: u64): (v: u64) {
    Sum(a % 0x1_0000_0000, b % 0x1_0000_0000)
  }

  function Bytes(v: u32): (bs: seq<byte>)
    ensures |bs| == 4
  {
    [v % 0x100, v / 0x100 % 0x100, v / 0x1_0000 % 0x100, v / 0x100_0000]
  }

  function Stored(mem: seq<byte>, a: nat, v: u32): (m: seq<byte>)
    requires a + 4 <= |mem|
    ensures |m| == |mem|
  {
    mem[..a] + Bytes(v) + mem[a + 4..]
  }

  /** Byte i of a stored word is its i-th from the low end; every other byte is kept. */
  lemma StoredBytes(mem: seq<byte>, a: nat, v: u32, j: nat)
    requires a + 4 <= |mem| && j < |mem|
    ensures Stored(mem, a, v)[j] == if a <= j < a + 4 then v / Pow2(8 * (j - a)) % 0x100 else mem[j]
  {
    BytePowers();
    hide Pow2;
  }

  /** A loaded word is the sum of its bytes, the first the lowest. */
  lemma WordBytes(mem: seq<byte>, a: nat)
    requires a + 4 <= |mem|
    ensures Word(mem, a) == mem[a] * Pow2(0) + mem[a + 1] * Pow2(8) + mem[a + 2] * Pow2(16) + mem[a + 3] * Pow2(24)
  {
    BytePowers();
    hide Pow2;
  }

  /** An i64.add is 64-bit addition exactly when its sum fits in 32 bits: what reads the registers cuts them off. */
  lemma LongSumIsCut(a: u64, b: u64)
    ensures LongSum(a, b) == (a + b) % 0x1_0000_0000
    ensures LongSum(a, b) == (a + b) % 0x1_0000_0000_0000_0000 <==> (a + b) % 0x1_0000_0000_0000_0000 < 0x1_0000_0000
  {
    CutSum(a, b, 0x1_0000_0000);
    CutTwice(a + b, 0x1_0000_0000);
  }

  lemma CutSum(a: nat, b: nat, m: nat)
    requires m > 0
    ensures (a % m + b % m) % m == (a + b) % m
  {
    var x := a % m + b % m;
    DivDef(a, m);
    DivDef(b, m);
    DivDef(x, m);
    assert a + b == m * (a / m + b / m + x / m) + x % m;
    DivMod(a + b, m, a / m + b / m + x / m, x % m);
  }

  lemma CutTwice(s: nat, m: nat)
    requires m > 0
    ensures m * m > 0 && s % (m * m) % m == s % m && (s % (m * m) < m <==> s % (m * m) == s % m)
  {
    DivDiv(s, m, m);
    var r, q := s % (m * m), s / m % m;
    assert r == m * q + s % m;
    DivMod(r, m, q, s % m);
    DivDef(s, m);
    if r < m {
      ModSmall(r, m);
    }
  }

  lemma BytePowers()
    ensures Pow2(0) == 1 && Pow2(8) == 0x100 && Pow2(16) == 0x1_0000 && Pow2(24) == 0x100_0000 &&
            Pow2(32) == 0x1_0000_0000
  {
    Pow2Values();
    Pow2Add(16, 8);
    Pow2Four();
  }

  /** What was stored is loaded, and nothing else changes. */
  lemma LoadStored(mem: seq<byte>, a: nat, v: u32, b: nat)
    requires a + 4 <= |mem| && b + 4 <= |mem|
    ensures Word(Stored(mem, a, v), a) == v
    ensures b + 4 <= a || a + 4 <= b ==> Word(Stored(mem, a, v), b) == Word(mem, b)
  {
    hide Little, Bytes;
    var m, bs := Stored(mem, a, v), Bytes(v);
    assert m[a] == bs[0] && m[a + 1] == bs[1] && m[a + 2] == bs[2] && m[a + 3] == bs[3];
    LittleOfBytes(v);
    if b + 4 <= a || a + 4 <= b {
      assert m[b] == mem[b] && m[b + 1] == mem[b + 1] && m[b + 2] == mem[b + 2] && m[b + 3] == mem[b + 3];
    }
  }

  lemma LittleOfBytes(v: u32)
    ensures var bs := Bytes(v); Little(bs[0], bs[1], bs[2], bs[3]) == v
  {
    var a := v / 0x100;
    var b := a / 0x100;
    assert v == 0x100 * a + v % 0x100 && a == 0x100 * b + a % 0x100;
    assert b == 0x100 * (b / 0x100) + b % 0x100;
    assert v / 0x1_0000 == b && v / 0x100_0000 == b / 0x100;
  }

  /** The frame: the i32 and i64 registers and the memory. */
  datatype Machine = Machine(regs: seq<u32>, regs64: seq<u64>, mem: seq<byte>) {
    predicate Valid() {
      |regs| == |regs64| == FRAME_REGISTERS && |mem| == MEMORY_SIZE
    }
  }

  /** One instruction; Error for an access outside the memory, for an operand that the address mode does not have,
      and for the opcodes that fail the assertion of the default case. A return only copies its register: execution
      goes on after it. */
  function Executed(m: Machine, i: Inst): (r: Result<Machine>)
    requires m.Valid()
    ensures r.Ok? ==> r.value.Valid()
  {
    var rd := i.Rd();
    if rd >= FRAME_REGISTERS then Error
    else if i.op == UI32ADD then
      if i.Rs() >= FRAME_REGISTERS || i.Rt() >= FRAME_REGISTERS then Error
      else Ok(m.(regs := m.regs[rd := Sum(m.regs[i.Rs()], m.regs[i.Rt()])]))
    else if i.op == UI64ADD then
      if i.Rs() >= FRAME_REGISTERS || i.Rt() >= FRAME_REGISTERS then Error
      else Ok(m.(regs64 := m.regs64[rd := LongSum(m.regs64[i.Rs()], m.regs64[i.Rt()])]))
    else if i.op == URETURN then
      Ok(m.(regs := m.regs[REGISTER_RETURN := m.regs[rd]]))
    else if !i.HasOfs() then Error
    else if i.op == UI32CONST then
      Ok(m.(regs := m.regs[rd := i.Ofs() % 0x1_0000_0000]))
    else if i.op == UI32LOAD || i.op == UI32STORE then
      if i.Rs() >= FRAME_REGISTERS then Error else
      var a := Sum(m.regs[i.Rs()], i.Ofs());
      if a + 4 > |m.mem| then Error
      else if i.op == UI32LOAD then Ok(m.(regs := m.regs[rd := Word(m.mem, a)]))
      else Ok(m.(mem := Stored(m.mem, a, m.regs[rd])))
    else Error
  }

  function ExecutedAll(m: Machine, insts: seq<Inst>): (r: Result<Machine>)
    requires m.Valid()
    ensures r.Ok? ==> r.value.Valid()
    decreases |insts|
  {
    if insts == [] then Ok(m) else
    match ExecutedAll(m, insts[..|insts| - 1])
    case Ok(n) => Executed(n, insts[|insts| - 1])
    case Error => Error
  }

  lemma {:induction false} ExecutedAfter(m: Machine, i: Inst, rest: seq<Inst>)
    requires m.Valid() && Executed(m, i).Ok?
    ensures ExecutedAll(m, [i] + rest) == ExecutedAll(Executed(m, i).value, rest)
    decreases |rest|
  {
    hide Executed;
    var all := [i] + rest;
    if rest == [] {
      assert all[..|all| - 1] == [] && all[|all| - 1] == i;
      assert ExecutedAll(m, []) == Ok(m);
    } else {
      assert all[..|all| - 1] == [i] + rest[..|rest| - 1] && all[|all| - 1] == rest[|rest| - 1];
      ExecutedAfter(m, i, rest[..|rest| - 1]);
    }
  }

  /** A return copies its register to register 2, and the code behind it is executed all the same. */
  lemma ReturnGoesOn(m: Machine, i: Inst, rest: seq<Inst>)
    requires m.Valid() && i.op == 0x0f && i.Rd() < 4096
    ensures ExecutedAll(m, [i] + rest) == ExecutedAll(m.(regs := m.regs[2 := m.regs[i.Rd()]]), rest)
  {
    ExecutedAfter(m, i, rest);
  }

  /** The opcodes executed; each of the others, and an operand its address mode does not have, fails an assertion. */
  lemma OpcodesExecuted(m: Machine, i: Inst)
    requires m.Valid()
    ensures |m.regs| == |m.regs64| == 4096 && |m.mem| == 0x1_0000
    ensures Executed(m, i).Ok? ==> i.op in {0x0f, 0x28, 0x36, 0x41, 0x6a, 0x7c} && i.Rd() < 4096
    ensures Executed(m, i).Ok? && i.op == 0x7c ==>
              i.Rs() < 4096 && i.Rt() < 4096 &&
              Executed(m, i).value == m.(regs64 := m.regs64[i.Rd() := LongSum(m.regs64[i.Rs()], m.regs64[i.Rt()])])
  {
  }

  class UwasmFrame {
    const i32regs: array<u32>
    const i64regs: array<u64>
    const memory: array<byte>

    constructor (registers: array<u32>, registers64: array<u64>, memory: array<byte>)
      requires registers.Length == registers64.Length == FRAME_REGISTERS && memory.Length == MEMORY_SIZE
      ensures i32regs == registers && i64regs == registers64 && this.memory == memory
    {
      i32regs, i64regs, this.memory := registers, registers64, memory;
    }

    predicate Valid() {
      i32regs.Length == i64regs.Length == FRAME_REGISTERS && memory.Length == MEMORY_SIZE
    }

    ghost function State(): (m: Machine)
      requires Valid()
      reads i32regs, i64regs, memory
      ensures m.Valid()
    {
      Machine(i32regs[..], i64regs[..], memory[..])
    }

    method ExecuteAdd(it: Inst)
      requires Valid() && it.op == UI32ADD && Executed(State(), it).Ok?
      modifies i32regs
      ensures Executed(old(State()), it) == Ok(State())
    {
      i32regs[it.Rd()] := Sum(i32regs[it.Rs()], i32regs[it.Rt()]);
    }

    method ExecuteLongAdd(it: Inst)
      requires Valid() && it.op == UI64ADD && Executed(State(), it).Ok?
      modifies i64regs
      ensures Executed(old(State()), it) == Ok(State())
    {
      i64regs[it.Rd()] := LongSum(i64regs[it.Rs()], i64regs[it.Rt()]);
    }

    method ExecuteReturn(it: Inst)
      requires Valid() && it.op == URETURN && Executed(State(), it).Ok?
      modifies i32regs
      ensures Executed(old(State()), it) == Ok(State())
    {
      i32regs[REGISTER_RETURN] := i32regs[it.Rd()];
    }

    method ExecuteConst(it: Inst)
      requires Valid() && it.op == UI32CONST && Executed(State(), it).Ok?
      modifies i32regs
      ensures Executed(old(State()), it) == Ok(State())
    {
      i32regs[it.Rd()] := it.Ofs() % 0x1_0000_0000;
    }

    method ExecuteLoad(it: Inst)
      requires Valid() && it.op == UI32LOAD && Executed(State(), it).Ok?
      modifies i32regs
      ensures Executed(old(State()), it) == Ok(State())
    {
      var a := Sum(i32regs[it.Rs()], it.Ofs());
      i32regs[it.Rd()] := Little(memory[a], memory[a + 1], memory[a + 2], memory[a + 3]);
    }

    method ExecuteStore(it: Inst)
      requires Valid() && it.op == UI32STORE && Executed(State(), it).Ok?
      modifies memory
      ensures Executed(old(State()), it) == Ok(State())
    {
      var a := Sum(i32regs[it.Rs()], it.Ofs());
      var v := i32regs[it.Rd()];
      memory[a], memory[a + 1], memory[a + 2], memory[a + 3] :=
        v % 0x100, v / 0x100 % 0x100, v / 0x1_0000 % 0x100, v / 0x100_0000;
      assert memory[..] == Stored(old(memory[..]), a, v);
    }

    /** Runs the instructions in order; false where the source would leave the memory or fail an assertion. */
    method ExecuteFunctionBody(vec: seq<Inst>) returns (ok: bool)
      requires Valid()
      modifies i32regs, i64regs, memory
      ensures match ExecutedAll(old(State()), vec)
              case Ok(m) => ok && State() == m
              case Error => !ok
    {
      hide Executed;
      for k := 0 to |vec|
        invariant ExecutedAll(old(State()), vec[..k]) == Ok(State())
      {
        assert vec[..k + 1][..k] == vec[..k];
        var it := vec[k];
        ok := Executable(it);
        if !ok {
          StaysFailed(old(State()), vec, k + 1);
          return;
        }
        Runnable(it);
        if it.op == UI32ADD {
          ExecuteAdd(it);
        } else if it.op == UI64ADD {
          ExecuteLongAdd(it);
        } else if it.op == URETURN {
          ExecuteReturn(it);
        } else if it.op == UI32LOAD {
          ExecuteLoad(it);
        } else if it.op == UI32STORE {
          ExecuteStore(it);
        } else {
          ExecuteConst(it);
        }
      }
      assert vec[..|vec|] == vec;
      ok := true;
    }

    /** Whether the source can run the instruction here: its opcode is handled and its address lies in the memory. */
    method Executable(it: Inst) returns (ok: bool)
      requires Valid()
      ensures ok <==> Executed(State(), it).Ok?
    {
      if it.Rd() >= FRAME_REGISTERS {
        return false;
      }
      if it.op == URETURN {
        return true;
      }
      if it.op == UI32CONST {
        return it.HasOfs();
      }
      if it.Rs() >= FRAME_REGISTERS {
        return false;
      }
      if it.op == UI32ADD || it.op == UI64ADD {
        return it.Rt() < FRAME_REGISTERS;
      }
      ok := it.HasOfs() && (it.op == UI32LOAD || it.op == UI32STORE) &&
            Sum(i32regs[it.Rs()], it.Ofs()) + 4 <= MEMORY_SIZE;
    }

    lemma Runnable(it: Inst)
      requires Valid() && Executed(State(), it).Ok?
      ensures it.op in {UI32ADD, UI64ADD, URETURN, UI32LOAD, UI32STORE, UI32CONST}
    {
    }
  }

  lemma {:induction false} StaysFailed(m: Machine, insts: seq<Inst>, k: nat)
    requires m.Valid() && k <= |insts| && ExecutedAll(m, insts[..k]).Error?
    ensures ExecutedAll(m, insts).Error?
    decreases |insts| - k
  {
    if k == |insts| {
      assert insts[..k] == insts;
    } else {
      assert insts[..k + 1][..k] == insts[..k];
      StaysFailed(m, insts, k + 1);
    }
  }
}
