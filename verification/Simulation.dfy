/** Executing the translation of a straight-line i32 body does what WebAssembly says the body does. */
module Simulation {
  import opened Arith
  import opened Common
  import opened Leb128
  import opened Reader
  import opened Uwinst
  import opened Executor
  import opened Converter
  import BlockTree
  import Branches

  /** WebAssembly's instructions, with the operands wabt's readers decode. */
  datatype Instr = LocalGet(idx: nat) | I32Const(v: u32) | I32Add | I32Load(offset: nat) | I32Store(offset: nat) | Drop

  /** The instruction at an opcode, where wabt reads one of these; the opcodes are those of section 5.4 of the
      WebAssembly Core Specification 1.0. */
  function Decode(w: Winst): Result<Instr> {
    var p := w.operands;
    if w.opcode == 0x1a then Ok(Drop)
    else if w.opcode == 0x6a then Ok(I32Add)
    else if w.opcode == 0x20 then
      match ReadU32Leb128(p)
      case Leb(_, v) => Ok(LocalGet(v))
      case Rejected => Error
    else if w.opcode == 0x41 then
      match ReadS32Leb128(p)
      case Leb(_, v) => if v < 0x1_0000_0000 then Ok(I32Const(v)) else Error
      case Rejected => Error
    else if w.opcode == 0x28 || w.opcode == 0x36 then
      match ReadU32Leb128(p)
      case Rejected => Error
      case Leb(n, _) =>
        if n > |p| then Error else
        match ReadU32Leb128(p[n..])
        case Rejected => Error
        case Leb(_, offset) => Ok(if w.opcode == 0x28 then I32Load(offset) else I32Store(offset))
    else Error
  }

  /** A WebAssembly configuration: the operand stack, top last, the locals and the memory. */
  datatype Config = Config(stack: seq<u32>, locals: seq<u32>, mem: seq<byte>)

  /** The value of bytes in little-endian order (section 4.3 of the WebAssembly Core Specification 1.0). */
  function LittleEndian(bs: seq<byte>): (v: nat) {
    if bs == [] then 0 else bs[0] + Pow2(8) * LittleEndian(bs[1..])
  }

  /** The n bytes of v in that order. */
  function BytesOf(v: nat, n: nat): (bs: seq<byte>)
    ensures |bs| == n
    decreases n
  {
    if n == 0 then [] else
    DivDef(v, Pow2(8));
    BytePowers();
    [v % Pow2(8)] + BytesOf(v / Pow2(8), n - 1)
  }

  /** WebAssembly's 32-bit addition, load and store. */
  function WasmSum(a: u32, b: u32): (v: u32) {
    BytePowers();
    DivDef(a + b, Pow2(32));
    (a + b) % Pow2(32)
  }

  function WasmWord(mem: seq<byte>, a: nat): (v: u32)
    requires a + 4 <= |mem|
  {
    WordInRange(mem, a);
    LittleEndian(mem[a..a + 4])
  }

  function WasmStored(mem: seq<byte>, a: nat, v: u32): (m: seq<byte>)
    requires a + 4 <= |mem|
    ensures |m| == |mem|
  {
    mem[..a] + BytesOf(v, 4) + mem[a + 4..]
  }

  lemma SumIsModulo(a: u32, b: u32)
    ensures WasmSum(a, b) == Sum(a, b)
  {
    BytePowers();
    hide Pow2;
  }

  /** The executor's load and store are WebAssembly's. */
  lemma WordInRange(mem: seq<byte>, a: nat)
    requires a + 4 <= |mem|
    ensures LittleEndian(mem[a..a + 4]) == Word(mem, a)
  {
    var bs := mem[a..a + 4];
    assert bs[1..][1..] == bs[2..] && bs[2..][1..] == bs[3..] && bs[3..][1..] == [];
    BytePowers();
    hide Pow2;
    assert LittleEndian(bs[3..]) == bs[3];
    assert LittleEndian(bs[2..]) == bs[2] + Pow2(8) * LittleEndian(bs[3..]);
    assert LittleEndian(bs[1..]) == bs[1] + Pow2(8) * LittleEndian(bs[2..]);
  }

  lemma LoadIsWord(mem: seq<byte>, a: nat)
    requires a + 4 <= |mem|
    ensures WasmWord(mem, a) == Word(mem, a)
  {
    WordInRange(mem, a);
    hide Word, LittleEndian;
  }

  lemma StoreIsStored(mem: seq<byte>, a: nat, v: u32)
    requires a + 4 <= |mem|
    ensures WasmStored(mem, a, v) == Stored(mem, a, v)
  {
    BytePowers();
    hide Pow2;
    var v1 := v / 0x100;
    var v2 := v1 / 0x100;
    assert v1 / 0x100 == v / 0x1_0000 && v2 / 0x100 == v / 0x100_0000;
    assert BytesOf(v2 / 0x100, 1) == [v / 0x100_0000] + BytesOf(v2 / 0x100 / 0x100, 0);
    assert BytesOf(v2, 2) == [v2 % 0x100] + BytesOf(v2 / 0x100, 1);
    assert BytesOf(v1, 3) == [v1 % 0x100] + BytesOf(v2, 2);
    assert BytesOf(v, 4) == Bytes(v);
  }

  /** WebAssembly's step; Error where the stack is too short, a local is missing or the memory access traps. */
  function Stepped(c: Config, i: Instr): Result<Config> {
    var n := |c.stack|;
    match i
    case Drop => if n < 1 then Error else Ok(c.(stack := c.stack[..n - 1]))
    case LocalGet(k) => if k >= |c.locals| then Error else Ok(c.(stack := c.stack + [c.locals[k]]))
    case I32Const(v) => Ok(c.(stack := c.stack + [v]))
    case I32Add =>
      if n < 2 then Error else Ok(c.(stack := c.stack[..n - 2] + [WasmSum(c.stack[n - 2], c.stack[n - 1])]))
    case I32Load(offset) =>
      if n < 1 || c.stack[n - 1] + offset + 4 > |c.mem| then Error
      else Ok(c.(stack := c.stack[..n - 1] + [WasmWord(c.mem, c.stack[n - 1] + offset)]))
    case I32Store(offset) =>
      if n < 2 || c.stack[n - 2] + offset + 4 > |c.mem| then Error
      else Ok(c.(stack := c.stack[..n - 2], mem := WasmStored(c.mem, c.stack[n - 2] + offset, c.stack[n - 1])))
  }

  /** The run of the first k instructions. */
  function Run(c: Config, ws: seq<Winst>, k: nat): Result<Config>
    requires k <= |ws|
    decreases k
  {
    if k == 0 then Ok(c) else
    match Run(c, ws, k - 1)
    case Error => Error
    case Ok(d) => match Decode(ws[k - 1]) case Ok(i) => Stepped(d, i) case Error => Error
  }

  /** What the translation keeps the meaning of: not a constant it reads without its sign, and not a store with an
      offset that fits the memory. */
  predicate Kept(w: Winst) {
    match Decode(w)
    case Error => false
    case Ok(i) =>
      match i
      case I32Const(v) => v < 0x8000_0000 || OperandLength(w.operands) == 5
      case I32Store(offset) => offset == 0 || offset + 4 > 0x1_0000
      case _ => true
  }

  /** The traced stack and the machine hold what the WebAssembly configuration holds. */
  ghost predicate Matches(c: Conv, d: Config, m: Machine) {
    m.Valid() && m.mem == d.mem && HoldsLocals(c, d, m) && HoldsStack(c, d, m)
  }

  /** Local k is in register k + 3, below every temporary. */
  ghost predicate HoldsLocals(c: Conv, d: Config, m: Machine) {
    m.Valid() && |c.localMap| == |d.locals| <= c.taken && c.taken + 4 <= REGISTERS &&
    (forall k :: 0 <= k < |c.localMap| ==> c.localMap[k] == k + 3) &&
    forall k :: 0 <= k < |d.locals| ==> m.regs[k + 3] == d.locals[k]
  }

  /** Each slot's register is taken and holds the slot's value. */
  ghost predicate HoldsStack(c: Conv, d: Config, m: Machine) {
    m.Valid() && |c.stack| == |d.stack| && c.taken + 4 <= REGISTERS &&
    forall j :: 0 <= j < |c.stack| ==> c.stack[j].idx < c.taken + 4 && m.regs[c.stack[j].idx] == d.stack[j]
  }

  /** A temporary is a register no local and no slot is in: writing it changes neither. */
  lemma TempPushed(c: Conv, d: Config, m: Machine, n: nat, i: Inst, v: u32)
    requires Matches(c, d, m) && n <= |c.stack| && Next(c) < REGISTERS
    ensures Next(c) < |m.regs|
    ensures Matches(Pushed(c, n, i), d.(stack := d.stack[..|d.stack| - n] + [v]), m.(regs := m.regs[Next(c) := v]))
  {
  }

  /** How many temporaries an instruction takes. */
  function TempsOf(w: Winst): nat {
    if w.opcode == UI32CONST || w.opcode == UI32ADD || w.opcode == UI32LOAD then 1 else 0
  }

  function Temps(ws: seq<Winst>, k: nat): nat
    requires k <= |ws|
    decreases k
  {
    if k == 0 then 0 else Temps(ws, k - 1) + TempsOf(ws[k - 1])
  }

  /** One instruction: the code it adds, run where the machine matches, leads to where it matches again. */
  ghost predicate Simulated(c: Conv, d: Config, m: Machine, w: Winst, d': Config) {
    m.Valid() &&
    match Converted(c, w)
    case Error => false
    case Ok(c') =>
      c'.labels == c.labels && c'.taken == c.taken + TempsOf(w) &&
      ((c'.insts == c.insts && Matches(c', d', m)) ||
       exists i, m' :: c'.insts == c.insts + [i] && Executed(m, i) == Ok(m') && Matches(c', d', m'))
  }

  /** The code added is one instruction. */
  lemma OneInstruction(c: Conv, d: Config, m: Machine, w: Winst, d': Config, c': Conv, i: Inst, m': Machine)
    requires m.Valid() && Converted(c, w) == Ok(c') && c'.labels == c.labels && c'.taken == c.taken + TempsOf(w)
    requires c'.insts == c.insts + [i] && Executed(m, i) == Ok(m') && Matches(c', d', m')
    ensures Simulated(c, d, m, w, d')
  {
    hide Converted, Executed, Matches;
  }

  lemma RunsConst(m: Machine, i: Inst, rd: nat, v: u32)
    requires m.Valid() && i.op == UI32CONST && i.HasOfs() && i.Rd() == rd < REGISTERS && i.Ofs() == v
    ensures Executed(m, i) == Ok(m.(regs := m.regs[rd := v]))
  {
  }

  lemma RunsAdd(m: Machine, i: Inst, rd: nat, rs: nat, rt: nat)
    requires m.Valid() && i.op == UI32ADD && i.Rd() == rd < REGISTERS && i.Rs() == rs < REGISTERS &&
             i.Rt() == rt < REGISTERS
    ensures Executed(m, i) == Ok(m.(regs := m.regs[rd := Sum(m.regs[rs], m.regs[rt])]))
  {
    hide Sum;
  }

  lemma RunsLoad(m: Machine, i: Inst, rd: nat, rs: nat, a: nat)
    requires m.Valid() && i.op == UI32LOAD && i.HasOfs() && i.Rd() == rd < REGISTERS && i.Rs() == rs < REGISTERS
    requires a == Sum(m.regs[rs], i.Ofs()) && a + 4 <= |m.mem|
    ensures Executed(m, i) == Ok(m.(regs := m.regs[rd := Word(m.mem, a)]))
  {
    hide Sum, Word;
  }

  lemma RunsStore(m: Machine, i: Inst, rd: nat, rs: nat, a: nat)
    requires m.Valid() && i.op == UI32STORE && i.HasOfs() && i.Rd() == rd < REGISTERS && i.Rs() == rs < REGISTERS
    requires a == Sum(m.regs[rs], i.Ofs()) && a + 4 <= |m.mem|
    ensures Executed(m, i) == Ok(m.(mem := Stored(m.mem, a, m.regs[rd])))
  {
    hide Sum, Stored;
  }

  lemma ConstEmitted(c: Conv, w: Winst) returns (i: Inst)
    requires w.opcode == UI32CONST && Decode(w).Ok? && Next(c) < REGISTERS
    ensures Converted(c, w) == Ok(Pushed(c, 0, i)) && i.op == UI32CONST && i.HasOfs() && i.Rd() == Next(c) &&
            i.Ofs() < 0x1_0000_0000
    ensures i.Ofs() == Decode(w).value.v <==> Kept(w)
  {
    hide WithAm, Template, Leb128Value, ReadS32Leb128, OperandLength;
    var v := Decode(w).value.v;
    AgreesWithReadS32(w.operands, ReadS32Leb128(w.operands).len, v);
    i := WithAm(Template(UI32CONST, AM64_R_OFS), Next(c), -1, -1, Leb128Value(w.operands));
    RegisterOffset(UI32CONST, Next(c), Leb128Value(w.operands));
    if OperandLength(w.operands) < 5 {
      ShortOperand(w.operands);
    }
  }

  lemma SimulatesConst(c: Conv, d: Config, m: Machine, w: Winst)
    requires Matches(c, d, m) && Next(c) < REGISTERS && w.opcode == UI32CONST && Decode(w).Ok? && Kept(w)
    ensures Simulated(c, d, m, w, d.(stack := d.stack + [Decode(w).value.v]))
  {
    var i := ConstEmitted(c, w);
    hide HoldsLocals, HoldsStack, Simulated, Executed, Converted, Decode, Kept;
    var v := Decode(w).value.v;
    TempPushed(c, d, m, 0, i, v);
    assert d.stack[..|d.stack|] == d.stack;
    RunsConst(m, i, Next(c), v);
    OneInstruction(c, d, m, w, d.(stack := d.stack + [v]), Pushed(c, 0, i), i, m.(regs := m.regs[Next(c) := v]));
  }

  /** The register and the value of a slot. */
  lemma SlotHolds(c: Conv, d: Config, m: Machine, depth: nat)
    requires Matches(c, d, m) && depth < |c.stack|
    ensures |d.stack| == |c.stack| && Slot(c, depth) < REGISTERS &&
            m.regs[Slot(c, depth)] == d.stack[|d.stack| - 1 - depth]
  {
  }

  lemma AddEmitted(c: Conv, w: Winst) returns (i: Inst)
    requires w.opcode == UI32ADD && |c.stack| >= 2 && Next(c) < REGISTERS && Slot(c, 0) < REGISTERS &&
             Slot(c, 1) < REGISTERS
    ensures Converted(c, w) == Ok(Pushed(c, 2, i)) && i.op == UI32ADD
    ensures i.Rd() == Next(c) && i.Rs() == Slot(c, 0) && i.Rt() == Slot(c, 1)
  {
    hide WithAm, Template;
    i := WithAm(Template(UI32ADD, AM64_R_R_R), Next(c), Slot(c, 0), Slot(c, 1), -1);
    ThreeRegisters(UI32ADD, Next(c), Slot(c, 0), Slot(c, 1));
  }

  lemma SimulatesAdd(c: Conv, d: Config, m: Machine, w: Winst)
    requires Matches(c, d, m) && Next(c) < REGISTERS && w.opcode == UI32ADD && Stepped(d, I32Add).Ok?
    ensures Simulated(c, d, m, w, Stepped(d, I32Add).value)
  {
    assert |c.stack| == |d.stack|;
    hide HoldsLocals, HoldsStack, Sum, WasmSum, Simulated, Executed, Converted;
    SlotHolds(c, d, m, 0);
    SlotHolds(c, d, m, 1);
    var n := |d.stack|;
    var i := AddEmitted(c, w);
    var a, b := d.stack[n - 1], d.stack[n - 2];
    SumCommutes(a, b);
    SumIsModulo(b, a);
    TempPushed(c, d, m, 2, i, Sum(b, a));
    hide Matches;
    RunsAdd(m, i, Next(c), Slot(c, 0), Slot(c, 1));
    OneInstruction(c, d, m, w, Stepped(d, I32Add).value, Pushed(c, 2, i), i, m.(regs := m.regs[Next(c) := Sum(b, a)]));
  }

  lemma SumCommutes(a: u32, b: u32)
    ensures Sum(a, b) == Sum(b, a)
  {
  }

  /** The alignment and the offset of a memory access. */
  lemma OffsetRead(w: Winst)
    requires (w.opcode == UI32LOAD || w.opcode == UI32STORE) && Decode(w).Ok?
    ensures Readable(w.operands) && Readable(SecondOperand(w.operands))
    ensures Decode(w).value.offset == Leb128Value(SecondOperand(w.operands))
  {
    hide ReadU32Leb128, Leb128Value, OperandLength, Readable;
    var p := w.operands;
    var a := ReadU32Leb128(p);
    AgreesWithReadU32(p, a.len, a.value);
    var q := p[a.len..];
    AgreesWithReadU32(q, ReadU32Leb128(q).len, ReadU32Leb128(q).value);
  }

  lemma Address(base: u32, offset: nat)
    requires base + offset < 0x1_0000_0000
    ensures Sum(base, offset) == base + offset
  {
  }

  lemma LoadFields(rd: nat, rs: nat, offset: nat)
    requires rd < REGISTERS && rs < REGISTERS && offset < 0x10_0000
    ensures var i := WithAm(Template(UI32LOAD, AM64_R_R_OFS), rd, rs, -1, offset);
            i.op == UI32LOAD && i.HasOfs() && i.Rd() == rd && i.Rs() == rs && i.Ofs() == offset
  {
    hide WithAm, Template;
    TwoRegistersOffset(UI32LOAD, rd, rs, -1, offset);
  }

  lemma StoreFields(rd: nat, rs: nat, offset: nat)
    requires rd < REGISTERS && rs < REGISTERS
    ensures var i := WithAm(Template(UI32STORE, AM64_R_R_OFS), rd, rs, offset, -1);
            i.op == UI32STORE && i.HasOfs() && i.Rd() == rd && i.Rs() == rs && i.Ofs() == 0
  {
    hide WithAm, Template;
    TwoRegistersOffset(UI32STORE, rd, rs, offset, -1);
  }

  lemma LoadEmitted(c: Conv, w: Winst) returns (i: Inst)
    requires w.opcode == UI32LOAD && Decode(w).Ok? && Decode(w).value.offset < 0x10_0000
    requires |c.stack| >= 1 && Next(c) < REGISTERS && Slot(c, 0) < REGISTERS
    ensures Converted(c, w) == Ok(Pushed(c, 1, i)) && i.op == UI32LOAD && i.HasOfs()
    ensures i.Rd() == Next(c) && i.Rs() == Slot(c, 0) && i.Ofs() == Decode(w).value.offset
  {
    OffsetRead(w);
    hide *;
    var offset := Decode(w).value.offset;
    i := WithAm(Template(UI32LOAD, AM64_R_R_OFS), Next(c), Slot(c, 0), -1, offset);
    LoadFields(Next(c), Slot(c, 0), offset);
    LoadConverted(c, w, offset);
  }

  lemma LoadConverted(c: Conv, w: Winst, offset: nat)
    requires w.opcode == UI32LOAD && |c.stack| >= 1
    requires Readable(w.operands) && Readable(SecondOperand(w.operands)) &&
             offset == Leb128Value(SecondOperand(w.operands))
    ensures Converted(c, w) ==
            Ok(Pushed(c, 1, WithAm(Template(UI32LOAD, AM64_R_R_OFS), Next(c), Slot(c, 0), -1, offset)))
  {
    hide WithAm, Template, Leb128Value, Readable, SecondOperand;
  }

  lemma SimulatesLoad(c: Conv, d: Config, m: Machine, w: Winst)
    requires Matches(c, d, m) && Next(c) < REGISTERS && w.opcode == UI32LOAD && Decode(w).Ok?
    requires Stepped(d, Decode(w).value).Ok?
    ensures Simulated(c, d, m, w, Stepped(d, Decode(w).value).value)
  {
    assert |c.stack| == |d.stack| && |d.mem| == MEMORY_SIZE;
    var offset := Decode(w).value.offset;
    assert Decode(w).value == I32Load(offset);
    hide HoldsLocals, HoldsStack, Sum, Simulated, Executed, Converted, Decode, Kept, Word, WasmWord;
    SlotHolds(c, d, m, 0);
    var n := |d.stack|;
    var i := LoadEmitted(c, w);
    var a := d.stack[n - 1] + offset;
    Address(d.stack[n - 1], offset);
    var v := Word(d.mem, a);
    LoadIsWord(d.mem, a);
    TempPushed(c, d, m, 1, i, v);
    hide Matches;
    RunsLoad(m, i, Next(c), Slot(c, 0), a);
    OneInstruction(c, d, m, w, Stepped(d, I32Load(offset)).value, Pushed(c, 1, i), i, m.(regs := m.regs[Next(c) := v]));
  }

  lemma StackShortened(c: Conv, d: Config, m: Machine, n: nat, mem: seq<byte>, insts: seq<Inst>)
    requires Matches(c, d, m) && n <= |c.stack| && |mem| == MEMORY_SIZE
    ensures |d.stack| == |c.stack|
    ensures Matches(c.(stack := c.stack[..n], insts := insts), d.(stack := d.stack[..n], mem := mem), m.(mem := mem))
  {
  }

  /** Whatever the offset, the code has none. */
  lemma StoreEmitted(c: Conv, w: Winst) returns (i: Inst)
    requires w.opcode == UI32STORE && Decode(w).Ok?
    requires |c.stack| >= 2 && Slot(c, 0) < REGISTERS && Slot(c, 1) < REGISTERS
    ensures Converted(c, w) == Ok(c.(stack := c.stack[..|c.stack| - 2], insts := c.insts + [i])) &&
            i.op == UI32STORE && i.HasOfs()
    ensures i.Rd() == Slot(c, 0) && i.Rs() == Slot(c, 1) && i.Ofs() == 0
  {
    OffsetRead(w);
    hide *;
    var offset := Decode(w).value.offset;
    i := WithAm(Template(UI32STORE, AM64_R_R_OFS), Slot(c, 0), Slot(c, 1), offset, -1);
    StoreFields(Slot(c, 0), Slot(c, 1), offset);
    StoreConverted(c, w, offset);
  }

  lemma StoreConverted(c: Conv, w: Winst, offset: nat)
    requires w.opcode == UI32STORE && |c.stack| >= 2
    requires Readable(w.operands) && Readable(SecondOperand(w.operands)) &&
             offset == Leb128Value(SecondOperand(w.operands))
    ensures var i := WithAm(Template(UI32STORE, AM64_R_R_OFS), Slot(c, 0), Slot(c, 1), offset, -1);
            Converted(c, w) == Ok(c.(stack := c.stack[..|c.stack| - 2], insts := c.insts + [i]))
  {
    hide WithAm, Template, Leb128Value, Readable, SecondOperand;
  }

  /** Whatever the offset, the translated store writes the word to the address without it. */
  lemma StoreIgnoresOffset(c: Conv, d: Config, m: Machine, w: Winst) returns (i: Inst)
    requires Matches(c, d, m) && w.opcode == UI32STORE && Decode(w).Ok?
    requires |d.stack| >= 2 && d.stack[|d.stack| - 2] + 4 <= |d.mem|
    ensures var n := |d.stack|;
            |c.stack| == n && Converted(c, w) == Ok(c.(stack := c.stack[..n - 2], insts := c.insts + [i])) &&
            Executed(m, i) == Ok(m.(mem := Stored(d.mem, d.stack[n - 2], d.stack[n - 1])))
  {
    assert |c.stack| == |d.stack| && |d.mem| == MEMORY_SIZE;
    hide HoldsLocals, HoldsStack, Sum, Executed, Converted, Decode, Stored;
    SlotHolds(c, d, m, 0);
    SlotHolds(c, d, m, 1);
    i := StoreEmitted(c, w);
    Address(d.stack[|d.stack| - 2], 0);
    RunsStore(m, i, Slot(c, 0), Slot(c, 1), d.stack[|d.stack| - 2]);
  }

  lemma KeptStore(d: Config, w: Winst)
    requires w.opcode == UI32STORE && Decode(w).Ok? && Kept(w) && |d.mem| == MEMORY_SIZE &&
             Stepped(d, Decode(w).value).Ok?
    ensures var n := |d.stack|;
            n >= 2 && d.stack[n - 2] + 4 <= |d.mem| &&
            var mem := Stored(d.mem, d.stack[n - 2], d.stack[n - 1]);
            Stepped(d, Decode(w).value) == Ok(d.(stack := d.stack[..n - 2], mem := mem))
  {
    hide Stored, WasmStored;
    StoreIsStored(d.mem, d.stack[|d.stack| - 2], d.stack[|d.stack| - 1]);
  }

  lemma SimulatesStore(c: Conv, d: Config, m: Machine, w: Winst)
    requires Matches(c, d, m) && w.opcode == UI32STORE && Decode(w).Ok? && Kept(w)
    requires Stepped(d, Decode(w).value).Ok?
    ensures Simulated(c, d, m, w, Stepped(d, Decode(w).value).value)
  {
    assert |d.mem| == MEMORY_SIZE;
    hide HoldsLocals, HoldsStack, Simulated, Executed, Converted, Decode, Kept, Stored, Stepped, Matches;
    KeptStore(d, w);
    var n := |d.stack|;
    var i := StoreIgnoresOffset(c, d, m, w);
    var mem := Stored(d.mem, d.stack[n - 2], d.stack[n - 1]);
    StackShortened(c, d, m, n - 2, mem, c.insts + [i]);
    OneInstruction(c, d, m, w, d.(stack := d.stack[..n - 2], mem := mem),
                   c.(stack := c.stack[..n - 2], insts := c.insts + [i]), i, m.(mem := mem));
  }

  lemma SimulatesDrop(c: Conv, d: Config, m: Machine, w: Winst)
    requires Matches(c, d, m) && w.opcode == DROP && Stepped(d, Drop).Ok?
    ensures Simulated(c, d, m, w, Stepped(d, Drop).value)
  {
    StackShortened(c, d, m, |c.stack| - 1, m.mem, c.insts);
  }

  lemma SimulatesLocalGet(c: Conv, d: Config, m: Machine, w: Winst)
    requires Matches(c, d, m) && w.opcode == LOCAL_GET && Decode(w).Ok? && Stepped(d, Decode(w).value).Ok?
    ensures Simulated(c, d, m, w, Stepped(d, Decode(w).value).value)
  {
    hide Leb128Value, ReadU32Leb128, Readable;
    var r := ReadU32Leb128(w.operands);
    AgreesWithReadU32(w.operands, r.len, r.value);
  }

  /** Every instruction of the fragment is simulated. */
  lemma SimulatesStep(c: Conv, d: Config, m: Machine, w: Winst)
    requires Matches(c, d, m) && Next(c) + TempsOf(w) <= REGISTERS && Kept(w) && Stepped(d, Decode(w).value).Ok?
    ensures Simulated(c, d, m, w, Stepped(d, Decode(w).value).value)
  {
    hide Matches, Simulated, Leb128Value, ReadU32Leb128, ReadS32Leb128;
    if w.opcode == DROP {
      SimulatesDrop(c, d, m, w);
    } else if w.opcode == UI32ADD {
      SimulatesAdd(c, d, m, w);
    } else if w.opcode == LOCAL_GET {
      SimulatesLocalGet(c, d, m, w);
    } else if w.opcode == UI32CONST {
      SimulatesConst(c, d, m, w);
    } else if w.opcode == UI32LOAD {
      SimulatesLoad(c, d, m, w);
    } else {
      SimulatesStore(c, d, m, w);
    }
  }

  // ---------------------------------------------------------------- whole bodies

  /** The code made so far, run from the start, leads to where the machine matches. */
  ghost predicate Reaches(m0: Machine, c: Conv, d: Config) {
    m0.Valid() && exists m :: ExecutedAll(m0, c.insts) == Ok(m) && Matches(c, d, m)
  }

  lemma RunsOneMore(m0: Machine, insts: seq<Inst>, i: Inst)
    requires m0.Valid() && ExecutedAll(m0, insts).Ok?
    ensures ExecutedAll(m0, insts + [i]) == Executed(ExecutedAll(m0, insts).value, i)
  {
    hide Executed;
    assert (insts + [i])[..|insts|] == insts;
  }

  lemma ReachesNext(m0: Machine, c: Conv, d: Config, m: Machine, w: Winst, d': Config)
    requires m0.Valid() && ExecutedAll(m0, c.insts) == Ok(m) && Simulated(c, d, m, w, d')
    ensures Converted(c, w).Ok? && Converted(c, w).value.taken == c.taken + TempsOf(w)
    ensures Reaches(m0, Converted(c, w).value, d')
  {
    hide Converted, Executed, ExecutedAll, Matches;
    var c' := Converted(c, w).value;
    if !(c'.insts == c.insts && Matches(c', d', m)) {
      var i, m' :| c'.insts == c.insts + [i] && Executed(m, i) == Ok(m') && Matches(c', d', m');
      RunsOneMore(m0, c.insts, i);
    }
  }

  /** Every prefix of the body is simulated: each slot's register holds its value, so no live temporary is lost. */
  lemma {:induction false} SimulatesRun(c0: Conv, d0: Config, m0: Machine, ws: seq<Winst>, B: BlockTree.Blocks, k: nat)
    requires Matches(c0, d0, m0) && c0.insts == [] && BlockTree.Numbered(B) && k <= |ws|
    requires (forall j :: 0 <= j < k ==> Kept(ws[j])) && Next(c0) + Temps(ws, k) <= REGISTERS && Run(d0, ws, k).Ok?
    ensures ConvertedAll(c0, ws, B, k).Ok?
    ensures var c := ConvertedAll(c0, ws, B, k).value;
            c.taken == c0.taken + Temps(ws, k) && Reaches(m0, c, Run(d0, ws, k).value)
    decreases k
  {
    hide Matches, Converted, Stepped, Decode, Kept, BlockTree.Numbered, Executed, Simulated;
    if k == 0 {
      assert ExecutedAll(m0, []) == Ok(m0) by { MachineValid(c0, d0, m0); }
    } else {
      SimulatesRun(c0, d0, m0, ws, B, k - 1);
      var c, d := ConvertedAll(c0, ws, B, k - 1).value, Run(d0, ws, k - 1).value;
      var m :| ExecutedAll(m0, c.insts) == Ok(m) && Matches(c, d, m);
      SimulatesStep(c, d, m, ws[k - 1]);
      ReachesNext(m0, c, d, m, ws[k - 1], Stepped(d, Decode(ws[k - 1]).value).value);
      NotEnd(ws[k - 1]);
    }
  }

  lemma MachineValid(c: Conv, d: Config, m: Machine)
    requires Matches(c, d, m)
    ensures m.Valid()
  {
  }

  lemma NotEnd(w: Winst)
    requires Kept(w)
    ensures w.opcode != END && Decode(w).Ok?
  {
  }

  /** A straight-line body: instructions whose meaning is kept, then the end. */
  predicate Straight(ws: seq<Winst>) {
    ws != [] && ws[|ws| - 1].opcode == 0x0b && forall j :: 0 <= j < |ws| - 1 ==> Kept(ws[j])
  }

  /** The hierarchy with only the function in it, ended at this pc. */
  function FunctionOnly(end: nat): BlockTree.Blocks {
    [BlockTree.Blk(BlockTree.NoBlock, 0, [], 0, 0), BlockTree.Blk(BlockTree.FuncBlock, 0, [], 1, end)]
  }

  /** Before its end, the hierarchy of a straight-line body is the open function. */
  lemma {:induction false} StraightScan(ws: seq<Winst>, k: nat)
    requires Straight(ws) && k < |ws|
    ensures BlockTree.NestAt(Ops(ws), k) == BlockTree.Some([BlockTree.FuncBlock])
    ensures BlockTree.ScanAt(Ops(ws), k) == Ok(BlockTree.Scan(FunctionOnly(0), [BlockTree.FUNCTION], k + 1))
    decreases k
  {
    hide Kept, FunctionOnly, BlockTree.Created, BlockTree.Finished, BlockTree.Start, Decode;
    if k == 0 {
      FunctionStarted();
    } else {
      StraightScan(ws, k - 1);
      NotEnd(ws[k - 1]);
      assert Ops(ws)[k - 1] == BlockTree.Other;
    }
  }

  lemma FunctionStarted()
    ensures BlockTree.Start() == BlockTree.Scan(FunctionOnly(0), [BlockTree.FUNCTION], 1)
  {
    var s := BlockTree.Start();
    assert s.blocks == FunctionOnly(0);
    assert s.work == [BlockTree.FUNCTION];
  }

  lemma FunctionFinished(n: nat)
    ensures var s := BlockTree.Scan(FunctionOnly(0), [BlockTree.FUNCTION], n);
            BlockTree.Stepped(s, BlockTree.End).Ok? &&
            BlockTree.Stepped(s, BlockTree.End).value.blocks == FunctionOnly(n)
  {
  }

  /** The end closes the function, and with it the list. */
  lemma LastEnd(ins: seq<BlockTree.Op>, s: BlockTree.Scan)
    requires ins != [] && ins[|ins| - 1] == BlockTree.End
    requires BlockTree.NestAt(ins, |ins| - 1) == BlockTree.Some([BlockTree.FuncBlock])
    requires BlockTree.ScanAt(ins, |ins| - 1) == Ok(s) && s.work == [BlockTree.FUNCTION]
    ensures BlockTree.Balanced(ins) && BlockTree.ScanAt(ins, |ins|) == BlockTree.Stepped(s, BlockTree.End)
  {
    hide BlockTree.Stepped;
  }

  lemma StraightBlocks(ws: seq<Winst>)
    requires Straight(ws)
    ensures BlockTree.Balanced(Ops(ws)) && BlockTree.ScanAt(Ops(ws), |ws|).Ok?
    ensures BlockTree.ScanAt(Ops(ws), |ws|).value.blocks == FunctionOnly(|ws|)
  {
    hide *;
    StraightLast(ws);
    var s := BlockTree.Scan(FunctionOnly(0), [BlockTree.FUNCTION], |ws|);
    LastEnd(Ops(ws), s);
    FunctionFinished(|ws|);
  }

  lemma StraightLast(ws: seq<Winst>)
    requires Straight(ws)
    ensures |Ops(ws)| == |ws| > 0 && Ops(ws)[|ws| - 1] == BlockTree.End
    ensures BlockTree.NestAt(Ops(ws), |ws| - 1) == BlockTree.Some([BlockTree.FuncBlock])
    ensures BlockTree.ScanAt(Ops(ws), |ws| - 1) == Ok(BlockTree.Scan(FunctionOnly(0), [BlockTree.FUNCTION], |ws|))
  {
    hide Kept, FunctionOnly;
    StraightScan(ws, |ws| - 1);
  }

  /** The function's end needs no jump. */
  lemma StraightEnd(n: nat, B: BlockTree.Blocks)
    requires n > 0 && B == FunctionOnly(n)
    ensures BlockTree.Numbered(B) && Branches.Resolve(n, BlockTree.FUNCTION, B, 0) == Branches.NotNeeded
  {
  }

  /** The whole body: the translation succeeds, the function's end adds nothing, and its code reaches a matching
      machine. */
  lemma SimulatesBody(c0: Conv, d0: Config, m0: Machine, ws: seq<Winst>, B: BlockTree.Blocks)
    requires Matches(c0, d0, m0) && c0.insts == [] && Straight(ws) && B == FunctionOnly(|ws|)
    requires Next(c0) + Temps(ws, |ws| - 1) <= REGISTERS && Run(d0, ws, |ws| - 1).Ok?
    ensures BlockTree.Numbered(B) && ConvertedAll(c0, ws, B, |ws|).Ok?
    ensures Reaches(m0, ConvertedAll(c0, ws, B, |ws|).value, Run(d0, ws, |ws| - 1).value)
  {
    hide Matches, Converted, Stepped, Decode, Kept, FunctionOnly, BlockTree.Numbered, Branches.Resolve, Reaches;
    StraightEnd(|ws|, B);
    SimulatesRun(c0, d0, m0, ws, B, |ws| - 1);
  }

  // ---------------------------------------------------------------- exactly what is kept

  /** Simulated wherever the instruction steps and a register is left for its result. */
  ghost predicate AlwaysSimulated(w: Winst)
    requires Decode(w).Ok?
  {
    forall c, d, m :: Matches(c, d, m) && Next(c) + TempsOf(w) <= REGISTERS && Stepped(d, Decode(w).value).Ok? ==>
      Simulated(c, d, m, w, Stepped(d, Decode(w).value).value)
  }

  function Zeros(n: nat): (zs: seq<byte>)
    ensures |zs| == n && forall i :: 0 <= i < n ==> zs[i] == 0
  {
    seq(n, i => 0)
  }

  function ZeroRegisters(): (zs: seq<u32>)
    ensures |zs| == FRAME_REGISTERS && forall i :: 0 <= i < FRAME_REGISTERS ==> zs[i] == 0
  {
    seq(FRAME_REGISTERS, i => 0)
  }

  function ZeroLongs(): (zs: seq<u64>)
    ensures |zs| == FRAME_REGISTERS
  {
    seq(FRAME_REGISTERS, i => 0)
  }

  /** A frame of zeros. */
  function Blank(): Machine {
    Machine(ZeroRegisters(), ZeroLongs(), Zeros(MEMORY_SIZE))
  }

  lemma NotSimulated(c: Conv, d: Config, m: Machine, w: Winst, d': Config, c': Conv, i: Inst, m': Machine)
    requires m.Valid() && Converted(c, w) == Ok(c') && c'.insts == c.insts + [i] && Executed(m, i) == Ok(m')
    requires !Matches(c', d', m')
    ensures !Simulated(c, d, m, w, d')
  {
    hide Converted, Executed, Matches;
    assert c'.insts[|c.insts|] == i;
  }

  function NoStack(): Conv {
    Conv([], 0, [], [], 0)
  }

  /** A function without locals that has done nothing. */
  lemma NothingDone()
    ensures Matches(NoStack(), Config([], [], Blank().mem), Blank())
  {
    hide Zeros, ZeroRegisters, ZeroLongs;
  }

  /** From there a constant read without its sign ends up wrong in its register. */
  lemma ConstantLost(w: Winst)
    requires w.opcode == UI32CONST && Decode(w).Ok? && !Kept(w)
    ensures Stepped(Config([], [], Blank().mem), Decode(w).value).Ok?
    ensures var d, m := Config([], [], Blank().mem), Blank();
            Matches(NoStack(), d, m) && !Simulated(NoStack(), d, m, w, Stepped(d, Decode(w).value).value)
  {
    var c, d, m := NoStack(), Config([], [], Blank().mem), Blank();
    NothingDone();
    var i := ConstEmitted(c, w);
    var v := Decode(w).value.v;
    assert Decode(w).value == I32Const(v);
    hide Executed, Converted, Decode, Zeros, ZeroRegisters, ZeroLongs, Kept, Simulated, HoldsLocals;
    RunsConst(m, i, 4, i.Ofs());
    var c', m' := Pushed(c, 0, i), m.(regs := m.regs[4 := i.Ofs()]);
    assert c'.stack[0].idx == 4 && d.stack + [v] == [v];
    NotSimulated(c, d, m, w, d.(stack := d.stack + [v]), c', i, m');
  }

  lemma OffsetInside(w: Winst) returns (offset: nat)
    requires w.opcode == UI32STORE && Decode(w).Ok? && !Kept(w)
    ensures Decode(w).value == I32Store(offset) && 0 < offset && offset + 4 <= MEMORY_SIZE
  {
    hide ReadU32Leb128;
    offset := Decode(w).value.offset;
  }

  /** i32.const 0, i32.const 1, a store, end. */
  function StoreBody(w: Winst): (ws: seq<Winst>) {
    [Winst(UI32CONST, [0]), Winst(UI32CONST, [1]), w, Winst(END, [])]
  }

  lemma ReadSmall(v: byte)
    requires v < 64
    ensures ReadS32Leb128([v]) == Leb(1, v)
  {
    EncodeSmall(v);
    hide ReadS32Leb128, EncodeS;
    RoundTripS32(v, []);
    assert [v] + [] == [v];
  }

  lemma EncodeSmall(v: byte)
    requires v < 64
    ensures EncodeS(v) == [v]
  {
  }

  lemma SmallConst(v: byte)
    requires v < 64
    ensures Decode(Winst(UI32CONST, [v])) == Ok(I32Const(v)) && Kept(Winst(UI32CONST, [v]))
  {
    hide ReadS32Leb128;
    ReadSmall(v);
  }

  lemma StoreBodyRun(d0: Config, w: Winst)
    ensures Run(d0, StoreBody(w), 2) == Ok(d0.(stack := d0.stack + [0] + [1]))
  {
    SmallConst(0);
    SmallConst(1);
    hide Decode;
    var ws := StoreBody(w);
    assert Run(d0, ws, 0) == Ok(d0);
    assert Run(d0, ws, 1) == Ok(d0.(stack := d0.stack + [0]));
  }

  /** The state in which the store of 1 to address 0 is translated and run. */
  lemma BeforeStore(c0: Conv, d0: Config, m0: Machine, w: Winst, B: BlockTree.Blocks) returns (c: Conv, m: Machine)
    requires Matches(c0, d0, m0) && c0.insts == [] && BlockTree.Numbered(B) && Next(c0) + 2 <= REGISTERS
    ensures ConvertedAll(c0, StoreBody(w), B, 2) == Ok(c) && c.taken == c0.taken + 2
    ensures m0.Valid() && ExecutedAll(m0, c.insts) == Ok(m) && Matches(c, d0.(stack := d0.stack + [0] + [1]), m)
  {
    hide Matches, Kept, ConvertedAll, ExecutedAll, Run, BlockTree.Numbered;
    var ws := StoreBody(w);
    StoreBodyRun(d0, w);
    SmallConst(0);
    SmallConst(1);
    MachineValid(c0, d0, m0);
    SimulatesRun(c0, d0, m0, ws, B, 2);
    c := ConvertedAll(c0, ws, B, 2).value;
    m :| ExecutedAll(m0, c.insts) == Ok(m) && Matches(c, d0.(stack := d0.stack + [0] + [1]), m);
  }

  lemma StoreOfOne(d0: Config, offset: nat)
    requires offset + 4 <= |d0.mem|
    ensures var d := d0.(stack := d0.stack + [0] + [1]);
            var n := |d.stack|;
            d.stack[n - 2] == 0 && d.stack[n - 1] == 1 &&
            Stepped(d, I32Store(offset)) == Ok(d0.(mem := Stored(d0.mem, offset, 1)))
  {
    hide WasmStored, Stored;
    StoreIsStored(d0.mem, offset, 1);
    var stack: seq<u32> := d0.stack + [0] + [1];
    assert stack[..|stack| - 2] == d0.stack;
  }

  /** From any matching start, WebAssembly leaves the 1 at the offset and the translated body leaves it at 0. */
  lemma StoreMisplaced(c0: Conv, d0: Config, m0: Machine, w: Winst, B: BlockTree.Blocks)
    requires Matches(c0, d0, m0) && c0.insts == [] && Next(c0) + 2 <= REGISTERS && B == FunctionOnly(4)
    requires w.opcode == UI32STORE && Decode(w).Ok? && !Kept(w)
    ensures BlockTree.Numbered(B) && m0.Valid() && |d0.mem| == MEMORY_SIZE && Decode(w).value.I32Store?
    ensures Decode(w).value.offset + 4 <= MEMORY_SIZE && Run(d0, StoreBody(w), 3).Ok?
    ensures Run(d0, StoreBody(w), 3).value.mem == WasmStored(d0.mem, Decode(w).value.offset, 1)
    ensures ConvertedAll(c0, StoreBody(w), B, 4).Ok?
    ensures var r := ExecutedAll(m0, ConvertedAll(c0, StoreBody(w), B, 4).value.insts);
            r.Ok? && r.value.mem == WasmStored(d0.mem, 0, 1)
  {
    StraightEnd(4, B);
    var offset := OffsetInside(w);
    var ws, d := StoreBody(w), d0.(stack := d0.stack + [0] + [1]);
    MachineValid(c0, d0, m0);
    hide Matches, Kept, Converted, Executed, ExecutedAll, FunctionOnly, BlockTree.Numbered, Branches.Resolve, Decode,
         Stored, WasmStored, Stepped;
    StoreBodyRun(d0, w);
    var c, m := BeforeStore(c0, d0, m0, w, B);
    var i := StoreIgnoresOffset(c, d, m, w);
    RunsOneMore(m0, c.insts, i);
    assert ConvertedAll(c0, ws, B, 3) == Converted(c, w);
    StoreOfOne(d0, offset);
    StoreIsStored(d0.mem, offset, 1);
    StoreIsStored(d0.mem, 0, 1);
    assert Run(d0, ws, 3) == Stepped(d, I32Store(offset));
  }

  /** In a function that has done nothing, over a memory of zeros, the two memories are different. */
  lemma StoreLost(w: Winst)
    requires w.opcode == UI32STORE && Decode(w).Ok? && !Kept(w)
    ensures var B, d0 := FunctionOnly(4), Config([], [], Blank().mem);
            Matches(NoStack(), d0, Blank()) && BlockTree.Numbered(B) && Run(d0, StoreBody(w), 3).Ok? &&
            ConvertedAll(NoStack(), StoreBody(w), B, 4).Ok? &&
            var r := ExecutedAll(Blank(), ConvertedAll(NoStack(), StoreBody(w), B, 4).value.insts);
            r.Ok? && r.value.mem != Run(d0, StoreBody(w), 3).value.mem
  {
    NothingDone();
    var offset := OffsetInside(w);
    var mem := Blank().mem;
    hide Matches, Kept, ConvertedAll, ExecutedAll, Run, FunctionOnly, BlockTree.Numbered, Decode, Zeros, Stored,
         StoreBody, WasmStored;
    StoreMisplaced(NoStack(), Config([], [], mem), Blank(), w, FunctionOnly(4));
    StoreIsStored(mem, offset, 1);
    StoreIsStored(mem, 0, 1);
    StoredApart(mem, offset);
  }

  /** So the store is not simulated where it stands in that body. */
  lemma StoreNotSimulated(w: Winst) returns (c: Conv, d: Config, m: Machine)
    requires w.opcode == UI32STORE && Decode(w).Ok? && !Kept(w)
    ensures Matches(c, d, m) && Next(c) <= REGISTERS && Stepped(d, Decode(w).value).Ok?
    ensures !Simulated(c, d, m, w, Stepped(d, Decode(w).value).value)
  {
    NothingDone();
    StraightEnd(4, FunctionOnly(4));
    var offset := OffsetInside(w);
    var d0 := Config([], [], Blank().mem);
    hide Kept, ConvertedAll, ExecutedAll, FunctionOnly, BlockTree.Numbered, Decode, Zeros, Stored, Executed, Converted,
         Simulated, HoldsLocals, HoldsStack, WasmStored, Stepped;
    c, m := BeforeStore(NoStack(), d0, Blank(), w, FunctionOnly(4));
    d := d0.(stack := d0.stack + [0] + [1]);
    var i := StoreIgnoresOffset(c, d, m, w);
    StoreOfOne(d0, offset);
    StoredApart(d.mem, offset);
    NotSimulated(c, d, m, w, Stepped(d, I32Store(offset)).value,
                 c.(stack := c.stack[..|c.stack| - 2], insts := c.insts + [i]), i, m.(mem := Stored(d.mem, 0, 1)));
  }

  lemma StoredApart(mem: seq<byte>, offset: nat)
    requires 0 < offset && offset + 4 <= |mem| && mem[0] == 0
    ensures Stored(mem, 0, 1) != Stored(mem, offset, 1)
  {
    assert Stored(mem, 0, 1)[0] == 1 && Stored(mem, offset, 1)[0] == 0;
  }

  /** Kept is exactly the instructions of the fragment that are simulated wherever they step. */
  lemma KeptExactly(w: Winst)
    ensures Kept(w) <==> Decode(w).Ok? && AlwaysSimulated(w)
  {
    hide Matches, Simulated, Leb128Value, ReadU32Leb128, ReadS32Leb128, Zeros, ZeroRegisters, ZeroLongs;
    if Kept(w) {
      forall c, d, m | Matches(c, d, m) && Next(c) + TempsOf(w) <= REGISTERS && Stepped(d, Decode(w).value).Ok?
        ensures Simulated(c, d, m, w, Stepped(d, Decode(w).value).value)
      {
        SimulatesStep(c, d, m, w);
      }
    } else if Decode(w).Ok? {
      if w.opcode == UI32CONST {
        ConstantLost(w);
      } else {
        var c, d, m := StoreNotSimulated(w);
      }
    }
  }

  lemma OneByte(v: byte, rest: seq<byte>)
    requires v < 128
    ensures ReadU32Leb128([v] + rest) == Leb(1, v)
  {
    RoundTripU32(v, rest);
  }

  /** i32.store with alignment 2 and offset 4. */
  lemma FailingStore()
    ensures var w := Winst(UI32STORE, [2, 4]); Decode(w) == Ok(I32Store(4)) && !Kept(w) && !AlwaysSimulated(w)
  {
    var w := Winst(UI32STORE, [2, 4]);
    OneByte(2, [4]);
    OneByte(4, []);
    KeptExactly(w);
    hide ReadU32Leb128, AlwaysSimulated;
    assert w.operands == [2] + [4] && w.operands[1..] == [4] + [];
  }

  // ---------------------------------------------------------------- translating and executing

  /** Local k's value is in register k + 3. */
  ghost predicate HasLocals(frame: UwasmFrame, args: seq<u32>)
    reads frame.i32regs
  {
    |args| + 3 <= frame.i32regs.Length && forall k :: 0 <= k < |args| ==> frame.i32regs[k + 3] == args[k]
  }

  /** The frame holds a WebAssembly configuration: its memory, its locals, and its stack in the registers traced. */
  ghost predicate Agrees(frame: UwasmFrame, args: seq<u32>, stack: seq<StackElem>, d: Config)
    reads frame.i32regs, frame.memory
  {
    frame.memory[..] == d.mem && HasLocals(frame, args) && |stack| == |d.stack| &&
    forall j :: 0 <= j < |stack| ==>
      stack[j].idx < REGISTERS && stack[j].idx < frame.i32regs.Length && frame.i32regs[stack[j].idx] == d.stack[j]
  }

  /**
   * Wasm_to_uwasm on a straight-line body of an i32 function, and the execution of the result in a frame whose local
   * registers hold the arguments and locals: the memory is that of the WebAssembly run, and so is every traced slot.
   */
  method ConvertAndExecute(params: seq<Type>, locals: seq<Type>, instr: seq<Winst>, frame: UwasmFrame,
                           ghost args: seq<u32>)
    returns (ok: bool, stack: seq<StackElem>)
    requires AllI32(params) && AllI32(locals) && |args| == |params| + |locals| && Straight(instr)
    requires |args| + 4 + Temps(instr, |instr| - 1) <= 0x400
    requires frame.Valid() && HasLocals(frame, args)
    requires Run(Config([], args, frame.memory[..]), instr, |instr| - 1).Ok?
    modifies frame.i32regs, frame.i64regs, frame.memory
    ensures ok
    ensures Agrees(frame, args, stack, old(Run(Config([], args, frame.memory[..]), instr, |instr| - 1)).value)
  {
    hide Matches, Straight, Run, ConvertedAll, Temps, FunctionOnly, Reaches, Agrees, BlockTree.Numbered,
         BlockTree.ScanAt;
    BodyBlocks(instr);
    ghost var m0, d := frame.State(), Run(Config([], args, frame.memory[..]), instr, |instr| - 1);
    var code := new UbhCode(params, locals);
    var labelTab := new BlockTree.LabelTab();
    var vec := BlockTree.BuildBlockHierarchy(Ops(instr), labelTab);
    BodyReached(code, frame, args, |labelTab.labels|, instr, vec.value);
    ok, stack := Translate(code, instr, vec.value, labelTab);
    ok := frame.ExecuteFunctionBody(code.insts);
    BodyAgrees(m0, State(code, stack, |labelTab.labels|), d.value, frame, args);
  }

  lemma BodyBlocks(ws: seq<Winst>)
    requires Straight(ws)
    ensures ws != [] && BlockTree.Balanced(Ops(ws)) && BlockTree.ScanAt(Ops(ws), |ws|).Ok?
    ensures BlockTree.ScanAt(Ops(ws), |Ops(ws)|).value.blocks == FunctionOnly(|ws|)
  {
    StraightBlocks(ws);
  }

  /** The code a translation of the body makes takes the frame to a matching one, with the locals as they were. */
  lemma BodyReached(code: UbhCode, frame: UwasmFrame, args: seq<u32>, labels: nat, ws: seq<Winst>, B: BlockTree.Blocks)
    requires code.Plain(|args|) && code.insts == [] && frame.Valid() && HasLocals(frame, args)
    requires Straight(ws) && B == FunctionOnly(|ws|) &&
             |args| + 4 + Temps(ws, |ws| - 1) <= 0x400
    requires Run(Config([], args, frame.memory[..]), ws, |ws| - 1).Ok?
    ensures BlockTree.Numbered(B) && ConvertedAll(State(code, [], labels), ws, B, |ws|).Ok?
    ensures var d := Run(Config([], args, frame.memory[..]), ws, |ws| - 1).value;
            var c := ConvertedAll(State(code, [], labels), ws, B, |ws|).value;
            ExecutedAll(frame.State(), c.insts).Ok? && Reaches(frame.State(), c, d) && d.locals == args
  {
    hide Matches, Run, ConvertedAll, Temps, FunctionOnly, BlockTree.Numbered, ExecutedAll;
    var d := Config([], args, frame.memory[..]);
    Starts(code, frame, args, labels);
    SimulatesBody(State(code, [], labels), d, frame.State(), ws, B);
    LocalsStay(d, ws, |ws| - 1);
  }

  lemma BodyAgrees(m0: Machine, c: Conv, d: Config, frame: UwasmFrame, args: seq<u32>)
    requires frame.Valid() && Reaches(m0, c, d) && ExecutedAll(m0, c.insts) == Ok(frame.State()) && d.locals == args
    ensures Agrees(frame, args, c.stack, d)
  {
    hide Matches, Agrees, ExecutedAll;
    Ends(c, d, frame);
  }

  lemma Starts(code: UbhCode, frame: UwasmFrame, args: seq<u32>, labels: nat)
    requires code.Plain(|args|) && code.insts == [] && frame.Valid() && |args| + 4 <= REGISTERS
    requires HasLocals(frame, args)
    ensures Matches(State(code, [], labels), Config([], args, frame.memory[..]), frame.State())
    ensures State(code, [], labels).insts == [] && Next(State(code, [], labels)) == |args| + 4
  {
  }

  lemma Ends(c: Conv, d: Config, frame: UwasmFrame)
    requires frame.Valid() && Matches(c, d, frame.State())
    ensures Agrees(frame, d.locals, c.stack, d)
  {
  }

  lemma {:induction false} LocalsStay(d: Config, ws: seq<Winst>, k: nat)
    requires k <= |ws| && Run(d, ws, k).Ok?
    ensures Run(d, ws, k).value.locals == d.locals
    decreases k
  {
    hide Decode;
    if k > 0 {
      LocalsStay(d, ws, k - 1);
    }
  }
}
