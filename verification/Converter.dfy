/**
 * The stack-to-register translation of convertor.cpp with the register allocation of ubh.cpp,
 * for the instructions of straight-line i32 bodies.
 */
module Converter {
  import opened Common
  import opened Leb128
  import opened Reader
  import opened Uwinst
  import opened Executor
  import BlockTree
  import Branches

  datatype Type = I32 | I64 | F32 | F64

  /** Where a stack slot's value lives. */
  datatype RegTy = Local | Temp

  datatype StackElem = StackElem(kind: RegTy, idx: nat)

  const CONST_REG_NUM := 2
  const RET_REG_NUM := 2

  const END := 0x0b
  const DROP := 0x1a
  const LOCAL_GET := 0x20
  const UJMP := 0x09

  /** A scanned instruction: its opcode and the bytes from its first operand on. */
  datatype Winst = Winst(opcode: byte, operands: seq<byte>)

  /** How many of the first k types are this one. */
  function Same(ts: seq<Type>, t: Type, k: nat): nat
    requires k <= |ts|
    decreases k
  {
    if k == 0 then 0 else Same(ts, t, k - 1) + if ts[k - 1] == t then 1 else 0
  }

  /** UBH_CODE: the register tables by type, the register of each local, and the code made so far. */
  class UbhCode {
    var i32Table: nat
    var i64Table: nat
    var f32Table: nat
    var f64Table: nat
    var localMap: seq<nat>
    var insts: seq<Inst>

    ghost function Size(t: Type): nat
      reads this
    {
      match t
      case I32 => i32Table
      case I64 => i64Table
      case F32 => f32Table
      case F64 => f64Table
    }

    /** The type of a local is looked up among the parameters first. An f64 local takes two registers and maps none;
        the others get the register after those of their type. */
    constructor (params: seq<Type>, locals: seq<Type>)
      ensures insts == [] && |localMap| == |params| + Mapped(AsRead(params, locals), |locals|)
      ensures forall i :: 0 <= i < |params| ==> localMap[i] == Same(params, params[i], i + 1) + RET_REG_NUM
      ensures forall i :: 0 <= i < |locals| ==> LocalPlaced(localMap, params, AsRead(params, locals), i)
      ensures forall t :: Size(t) == Taken(params, |params|, AsRead(params, locals), t, |locals|)
      ensures AllI32(params) && AllI32(locals) ==> Plain(|params| + |locals|)
    {
      i32Table, i64Table, f32Table, f64Table, localMap, insts := 0, 0, 0, 0, [], [];
      new;
      PlaceParams(params, AsRead(params, locals));
      PlaceLocals(params, locals);
      SizeTaken(params, |params|, AsRead(params, locals), |locals|);
      if AllI32(params) && AllI32(locals) {
        AllPlain(localMap, params, locals);
      }
    }

    /** Local k has register k + 3, and no other register is taken. */
    ghost predicate Plain(n: nat)
      reads this
    {
      i32Table == |localMap| == n && forall i :: 0 <= i < n ==> localMap[i] == i + 1 + RET_REG_NUM
    }

    /** The tables hold what the first j parameters and the first k locals take. */
    ghost predicate Hold(params: seq<Type>, j: nat, read: seq<Type>, k: nat)
      requires j <= |params| && k <= |read|
      reads this
    {
      i32Table == Taken(params, j, read, I32, k) && i64Table == Taken(params, j, read, I64, k) &&
      f32Table == Taken(params, j, read, F32, k) && f64Table == Taken(params, j, read, F64, k)
    }

    method Place(t: Type)
      modifies this
      ensures insts == old(insts) && localMap == old(localMap) + [old(Size(t)) + 1 + RET_REG_NUM]
      ensures i32Table == old(i32Table) + (if t == I32 then 1 else 0) &&
              i64Table == old(i64Table) + (if t == I64 then 1 else 0)
      ensures f32Table == old(f32Table) + (if t == F32 then 1 else 0) &&
              f64Table == old(f64Table) + (if t == F64 then 1 else 0)
    {
      match t {
        case I32 => i32Table := i32Table + 1; localMap := localMap + [i32Table + RET_REG_NUM];
        case I64 => i64Table := i64Table + 1; localMap := localMap + [i64Table + RET_REG_NUM];
        case F32 => f32Table := f32Table + 1; localMap := localMap + [f32Table + RET_REG_NUM];
        case F64 => f64Table := f64Table + 1; localMap := localMap + [f64Table + RET_REG_NUM];
      }
    }

    lemma SizeTaken(params: seq<Type>, j: nat, read: seq<Type>, k: nat)
      requires j <= |params| && k <= |read| && Hold(params, j, read, k)
      ensures forall t :: Size(t) == Taken(params, j, read, t, k)
    {
      hide Taken;
    }

    method PlaceParams(params: seq<Type>, ghost read: seq<Type>)
      requires localMap == [] && Hold(params, 0, read, 0)
      modifies this
      ensures insts == old(insts) && |localMap| == |params| && Hold(params, |params|, read, 0)
      ensures forall j :: 0 <= j < |params| ==> localMap[j] == Same(params, params[j], j + 1) + RET_REG_NUM
    {
      hide Same, Taken;
      for i := 0 to |params|
        invariant insts == old(insts) && |localMap| == i && Hold(params, i, read, 0)
        invariant forall j :: 0 <= j < i ==> localMap[j] == Same(params, params[j], j + 1) + RET_REG_NUM
      {
        ParamTaken(params, read, i);
        SizeTaken(params, i, read, 0);
        Place(params[i]);
      }
    }

    method PlaceLocals(params: seq<Type>, locals: seq<Type>)
      requires |localMap| == |params| && Hold(params, |params|, AsRead(params, locals), 0)
      modifies this
      ensures insts == old(insts) && old(localMap) <= localMap
      ensures |localMap| == |params| + Mapped(AsRead(params, locals), |locals|)
      ensures forall i :: 0 <= i < |locals| ==> LocalPlaced(localMap, params, AsRead(params, locals), i)
      ensures Hold(params, |params|, AsRead(params, locals), |locals|)
    {
      ghost var read := AsRead(params, locals);
      NothingMapped(read);
      hide Same, Taken, Mapped;
      for i := 0 to |locals|
        invariant insts == old(insts) && old(localMap) <= localMap && |localMap| == |params| + Mapped(read, i)
        invariant forall j :: 0 <= j < i ==> LocalPlaced(localMap, params, read, j)
        invariant Hold(params, |params|, read, i)
      {
        LocalTaken(params, read, i);
        SizeTaken(params, |params|, read, i);
        var t := (params + locals)[i];
        ghost var before := localMap;
        if t == F64 {
          f64Table := f64Table + 2;
        } else {
          Place(t);
        }
        forall j | 0 <= j < i ensures LocalPlaced(localMap, params, read, j) {
          PlacedStays(before, localMap, params, read, j);
        }
        assert LocalPlaced(localMap, params, read, i);
      }
    }

    /** Takes the type's next register past the constants, the results and all taken before. */
    method PushTempReg(t: Type, stack: seq<StackElem>) returns (next: nat, stack': seq<StackElem>)
      modifies this
      ensures next == old(Size(t)) + CONST_REG_NUM + RET_REG_NUM && stack' == stack + [StackElem(Temp, next)]
      ensures Size(t) == old(Size(t)) + 1 && forall u :: u != t ==> Size(u) == old(Size(u))
      ensures localMap == old(localMap) && insts == old(insts)
    {
      match t {
        case I32 => next := i32Table; i32Table := i32Table + 1;
        case I64 => next := i64Table; i64Table := i64Table + 1;
        case F32 => next := f32Table; f32Table := f32Table + 1;
        case F64 => next := f64Table; f64Table := f64Table + 1;
      }
      next := next + CONST_REG_NUM + RET_REG_NUM;
      stack' := stack + [StackElem(Temp, next)];
    }
  }

  /** The types the constructor reads for the locals. */
  function AsRead(params: seq<Type>, locals: seq<Type>): (ts: seq<Type>)
    ensures |ts| == |locals|
  {
    (params + locals)[..|locals|]
  }

  /** How many of the first k locals are in the map. */
  function Mapped(read: seq<Type>, k: nat): (n: nat)
    requires k <= |read|
    ensures n <= k
  {
    SameAtMost(read, F64, k);
    k - Same(read, F64, k)
  }

  lemma {:induction false} SameAtMost(ts: seq<Type>, t: Type, k: nat)
    requires k <= |ts|
    ensures Same(ts, t, k) <= k
    decreases k
  {
    if k > 0 {
      SameAtMost(ts, t, k - 1);
    }
  }

  /** The registers of a type taken by the first j parameters and the first k locals. */
  function Taken(params: seq<Type>, j: nat, read: seq<Type>, t: Type, k: nat): (n: nat)
    requires j <= |params| && k <= |read|
  {
    Same(params, t, j) + Same(read, t, k) + if t == F64 then Same(read, t, k) else 0
  }

  lemma NothingMapped(read: seq<Type>)
    ensures Mapped(read, 0) == 0
  {
  }

  lemma ParamTaken(params: seq<Type>, read: seq<Type>, j: nat)
    requires j < |params|
    ensures forall t :: Taken(params, j + 1, read, t, 0) ==
              Taken(params, j, read, t, 0) + if params[j] == t then 1 else 0
    ensures Taken(params, j, read, params[j], 0) + 1 == Same(params, params[j], j + 1)
  {
  }

  lemma LocalTaken(params: seq<Type>, read: seq<Type>, k: nat)
    requires k < |read|
    ensures Mapped(read, k + 1) == Mapped(read, k) + if read[k] == F64 then 0 else 1
    ensures forall t :: Taken(params, |params|, read, t, k + 1) ==
              Taken(params, |params|, read, t, k) + if read[k] != t then 0 else if t == F64 then 2 else 1
  {
    SameNext(read, k);
    hide Same;
  }

  lemma {:induction false} SameCounts(ts: seq<Type>, t: Type, k: nat)
    requires k <= |ts|
    ensures Same(ts, t, k) == multiset(ts[..k])[t]
    decreases k
  {
    if k > 0 {
      SameCounts(ts, t, k - 1);
      assert ts[..k] == ts[..k - 1] + [ts[k - 1]];
    }
  }

  /** The registers taken, as occurrences of the type; an f64 that is read for a local counts twice. */
  lemma TakenCounts(params: seq<Type>, locals: seq<Type>, t: Type)
    ensures Taken(params, |params|, AsRead(params, locals), t, |locals|) ==
            multiset(params)[t] + (if t == F64 then 2 else 1) * multiset((params + locals)[..|locals|])[t]
    ensures Mapped(AsRead(params, locals), |locals|) == |locals| - multiset((params + locals)[..|locals|])[F64]
  {
    var read := AsRead(params, locals);
    SameCounts(params, t, |params|);
    SameCounts(read, t, |read|);
    SameCounts(read, F64, |read|);
    assert params[..|params|] == params && read[..|read|] == read;
    hide Same;
  }

  /** Local i, of the type read for it, has its place in the map. */
  ghost predicate LocalPlaced(localMap: seq<nat>, params: seq<Type>, read: seq<Type>, i: nat)
    requires i < |read|
  {
    read[i] != F64 ==>
      |params| + Mapped(read, i) < |localMap| &&
      localMap[|params| + Mapped(read, i)] == Taken(params, |params|, read, read[i], i) + 1 + RET_REG_NUM
  }

  lemma PlacedStays(localMap: seq<nat>, longer: seq<nat>, params: seq<Type>, read: seq<Type>, i: nat)
    requires i < |read| && localMap <= longer && LocalPlaced(localMap, params, read, i)
    ensures LocalPlaced(longer, params, read, i)
  {
    hide Mapped, Taken;
  }

  lemma PlainCounts(params: seq<Type>, locals: seq<Type>, k: nat)
    requires AllI32(params) && AllI32(locals) && k <= |locals|
    ensures var read := AsRead(params, locals);
            (k < |locals| ==> read[k] == I32) && Mapped(read, k) == k &&
            Taken(params, |params|, read, I32, k) == |params| + k
  {
    hide Same;
    var read := AsRead(params, locals);
    assert AllI32(read);
    SameI32(params, |params|);
    SameI32(read, k);
  }

  /** With i32 alone, place and register follow each other. */
  lemma AllPlain(localMap: seq<nat>, params: seq<Type>, locals: seq<Type>)
    requires AllI32(params) && AllI32(locals)
    requires |localMap| == |params| + Mapped(AsRead(params, locals), |locals|)
    requires forall i :: 0 <= i < |params| ==> localMap[i] == Same(params, params[i], i + 1) + RET_REG_NUM
    requires forall i :: 0 <= i < |locals| ==> LocalPlaced(localMap, params, AsRead(params, locals), i)
    ensures |localMap| == |params| + |locals| == Taken(params, |params|, AsRead(params, locals), I32, |locals|)
    ensures forall i :: 0 <= i < |localMap| ==> localMap[i] == i + 1 + RET_REG_NUM
  {
    hide Same, Mapped, Taken, AsRead, LocalPlaced;
    PlainCounts(params, locals, |locals|);
    forall i | 0 <= i < |localMap| ensures localMap[i] == i + 1 + RET_REG_NUM {
      if i < |params| {
        SameI32(params, i + 1);
      } else {
        PlainLocal(localMap, params, locals, i - |params|);
      }
    }
  }

  lemma PlainLocal(localMap: seq<nat>, params: seq<Type>, locals: seq<Type>, i: nat)
    requires AllI32(params) && AllI32(locals) && i < |locals| &&
             LocalPlaced(localMap, params, AsRead(params, locals), i)
    ensures |params| + i < |localMap| && localMap[|params| + i] == |params| + i + 1 + RET_REG_NUM
  {
    hide Same, Mapped, Taken, AsRead;
    PlainCounts(params, locals, i);
  }

  lemma SameNext(ts: seq<Type>, k: nat)
    requires k < |ts|
    ensures forall t :: Same(ts, t, k + 1) == Same(ts, t, k) + if ts[k] == t then 1 else 0
  {
  }

  ghost predicate AllI32(ts: seq<Type>) {
    forall i :: 0 <= i < |ts| ==> ts[i] == I32
  }

  lemma {:induction false} SameI32(ts: seq<Type>, k: nat)
    requires AllI32(ts) && k <= |ts|
    ensures Same(ts, I32, k) == k && Same(ts, F64, k) == 0
    decreases k
  {
    if k > 0 {
      SameI32(ts, k - 1);
    }
  }

  /** The translation's state: the local map, the i32 registers taken, the traced stack, the code and the labels. */
  datatype Conv = Conv(localMap: seq<nat>, taken: nat, stack: seq<StackElem>, insts: seq<Inst>, labels: nat)

  function Next(c: Conv): nat {
    c.taken + CONST_REG_NUM + RET_REG_NUM
  }

  /** A new temporary on the stack without its top n slots, written by instruction i. */
  function Pushed(c: Conv, n: nat, i: Inst): Conv
    requires n <= |c.stack|
  {
    c.(taken := c.taken + 1, stack := c.stack[..|c.stack| - n] + [StackElem(Temp, Next(c))], insts := c.insts + [i])
  }

  function Slot(c: Conv, depth: nat): nat
    requires depth < |c.stack|
  {
    c.stack[|c.stack| - 1 - depth].idx
  }

  /** The operand after the alignment. */
  function SecondOperand(p: seq<byte>): (q: seq<byte>)
    requires Readable(p)
  {
    p[OperandLength(p)..]
  }

  /** One instruction; Error where the source reads past its operands, its stack or its map. */
  function Converted(c: Conv, w: Winst): Result<Conv> {
    var n, p := |c.stack|, w.operands;
    if w.opcode == DROP then
      if n == 0 then Error else Ok(c.(stack := c.stack[..n - 1]))
    else if w.opcode == LOCAL_GET then
      if !Readable(p) || Leb128Value(p) >= |c.localMap| then Error
      else Ok(c.(stack := c.stack + [StackElem(Local, c.localMap[Leb128Value(p)])]))
    else if w.opcode == UI32CONST then
      if !Readable(p) then Error
      else Ok(Pushed(c, 0, WithAm(Template(UI32CONST, AM64_R_OFS), Next(c), -1, -1, Leb128Value(p))))
    else if w.opcode == UI32ADD then
      if n < 2 then Error
      else Ok(Pushed(c, 2, WithAm(Template(UI32ADD, AM64_R_R_R), Next(c), Slot(c, 0), Slot(c, 1), -1)))
    else if w.opcode == UI32LOAD then
      if n < 1 || !Readable(p) || !Readable(SecondOperand(p)) then Error
      else
        var i := WithAm(Template(UI32LOAD, AM64_R_R_OFS), Next(c), Slot(c, 0), -1, Leb128Value(SecondOperand(p)));
        Ok(Pushed(c, 1, i))
    else if w.opcode == UI32STORE then
      if n < 2 || !Readable(p) || !Readable(SecondOperand(p)) then Error
      else
        // The offset is passed in the place of a third register.
        var i := WithAm(Template(UI32STORE, AM64_R_R_OFS), Slot(c, 0), Slot(c, 1), Leb128Value(SecondOperand(p)), -1);
        Ok(c.(stack := c.stack[..n - 2], insts := c.insts + [i]))
    else Error
  }

  /** An end, with what the branch resolver says of it. */
  function ConvertedEnd(c: Conv, a: Branches.Answer): Result<Conv> {
    match a
    case Abort => Error
    case NewLabel(_, _) =>
      // The last label a 32-bit index can name reads as "not needed".
      if c.labels == Branches.LABEL_NOT_NEEDED then Ok(c.(labels := c.labels + 1))
      else Ok(c.(insts := c.insts + [WithAm(Template(UJMP, AM32_R), c.labels, -1, -1, -1)], labels := c.labels + 1))
    case _ => Ok(c)
  }

  /** The nesting of the instructions this part of the translation handles. */
  function Ops(ws: seq<Winst>): (ops: seq<BlockTree.Op>)
    ensures |ops| == |ws|
    ensures forall i :: 0 <= i < |ws| ==> ops[i] == if ws[i].opcode == END then BlockTree.End else BlockTree.Other
  {
    if ws == [] then [] else
    Ops(ws[..|ws| - 1]) + [if ws[|ws| - 1].opcode == END then BlockTree.End else BlockTree.Other]
  }

  /** The first k instructions, in a hierarchy already built. */
  function ConvertedAll(c: Conv, ws: seq<Winst>, B: BlockTree.Blocks, k: nat): Result<Conv>
    requires BlockTree.Numbered(B) && k <= |ws|
    decreases k
  {
    if k == 0 then Ok(c) else
    match ConvertedAll(c, ws, B, k - 1)
    case Error => Error
    case Ok(d) =>
      if ws[k - 1].opcode == END then ConvertedEnd(d, Branches.Resolve(k, BlockTree.FUNCTION, B, 0))
      else Converted(d, ws[k - 1])
  }

  ghost function State(code: UbhCode, stack: seq<StackElem>, labels: nat): Conv
    reads code
  {
    Conv(code.localMap, code.i32Table, stack, code.insts, labels)
  }

  /** The table entry of an opcode, as a copy to fill in. */
  method UopcodeInst(op: nat, ty: TyAm, rd: int, rs: int, rt: int, ofs: int) returns (value: Inst)
    requires rd >= -1 && rs >= -1 && rt >= -1 && ofs >= -1
    ensures value == WithAm(Template(op, ty), rd, rs, rt, ofs)
  {
    var inst := new UwasmInst(op, ty);
    var _ := inst.SetAm(rd, rs, rt, ofs, -1);
    value := inst.Value();
  }

  method ReadSecond(p: seq<byte>) returns (v: nat)
    requires Readable(p) && Readable(SecondOperand(p))
    ensures v == Leb128Value(SecondOperand(p))
  {
    hide Leb128Value, OperandLength, Terminates;
    var size := ReadOprSize(p);
    assert size as int == OperandLength(p);
    v := ReadLeb128(p[size..]);
  }

  /** One turn of the translation's loop, for an instruction other than end. */
  method TranslateInstruction(code: UbhCode, w: Winst, stack: seq<StackElem>, ghost labels: nat)
    returns (ok: bool, stack': seq<StackElem>)
    modifies code
    ensures match Converted(old(State(code, stack, labels)), w)
            case Ok(c) => ok && State(code, stack', labels) == c
            case Error => !ok
  {
    hide WithAm, Template, Leb128Value, OperandLength, LebBits;
    var n := |stack|;
    ok, stack' := true, stack;
    var p := w.operands;
    if w.opcode == DROP {
      if n == 0 {
        return false, stack;
      }
      stack' := stack[..n - 1];
    } else if w.opcode == LOCAL_GET {
      if !Readable(p) {
        return false, stack;
      }
      var idx := ReadLeb128(p);
      if idx >= |code.localMap| {
        return false, stack;
      }
      stack' := stack + [StackElem(Local, code.localMap[idx])];
    } else if w.opcode == UI32CONST {
      if !Readable(p) {
        return false, stack;
      }
      var rd, pushed := code.PushTempReg(I32, stack);
      var ofs := ReadLeb128(p);
      var inst := UopcodeInst(UI32CONST, AM64_R_OFS, rd, -1, -1, ofs);
      code.insts := code.insts + [inst];
      stack' := pushed;
    } else if w.opcode == UI32ADD {
      if n < 2 {
        return false, stack;
      }
      var rs, rt := stack[n - 1], stack[n - 2];
      var rd, pushed := code.PushTempReg(I32, stack[..n - 2]);
      var inst := UopcodeInst(UI32ADD, AM64_R_R_R, rd, rs.idx, rt.idx, -1);
      code.insts := code.insts + [inst];
      stack' := pushed;
    } else if w.opcode == UI32LOAD {
      if n < 1 || !Readable(p) || !Readable(SecondOperand(p)) {
        return false, stack;
      }
      var rs := stack[n - 1];
      var rd, pushed := code.PushTempReg(I32, stack[..n - 1]);
      var ofs := ReadSecond(p);
      var inst := UopcodeInst(UI32LOAD, AM64_R_R_OFS, rd, rs.idx, -1, ofs);
      code.insts := code.insts + [inst];
      stack' := pushed;
    } else if w.opcode == UI32STORE {
      if n < 2 || !Readable(p) || !Readable(SecondOperand(p)) {
        return false, stack;
      }
      var rd, rs := stack[n - 1], stack[n - 2];
      var ofs := ReadSecond(p);
      var inst := UopcodeInst(UI32STORE, AM64_R_R_OFS, rd.idx, rs.idx, ofs, -1);
      code.insts := code.insts + [inst];
      stack' := stack[..n - 2];
    } else {
      ok := false;
    }
  }

  lemma {:induction false} StaysFailed(c: Conv, ws: seq<Winst>, B: BlockTree.Blocks, k: nat)
    requires BlockTree.Numbered(B) && k <= |ws| && ConvertedAll(c, ws, B, k).Error?
    ensures ConvertedAll(c, ws, B, |ws|).Error?
    decreases |ws| - k
  {
    if k < |ws| {
      StaysFailed(c, ws, B, k + 1);
    }
  }

  /** The loop of Wasm_to_uwasm. */
  method Translate(code: UbhCode, instr: seq<Winst>, vec: BlockTree.Blocks, labelTab: BlockTree.LabelTab)
    returns (ok: bool, wasmStack: seq<StackElem>)
    requires BlockTree.Numbered(vec) && labelTab.labels != []
    modifies code, labelTab
    ensures match ConvertedAll(old(State(code, [], |labelTab.labels|)), instr, vec, |instr|)
            case Ok(c) => ok && State(code, wasmStack, |labelTab.labels|) == c
            case Error => !ok
  {
    hide Converted, ConvertedEnd, BlockTree.Numbered, Branches.Resolve;
    wasmStack := [];
    ghost var c0 := State(code, [], |labelTab.labels|);
    for k := 0 to |instr|
      invariant ConvertedAll(c0, instr, vec, k) == Ok(State(code, wasmStack, |labelTab.labels|))
      invariant labelTab.labels != []
    {
      if instr[k].opcode == END {
        ok := TranslateEnd(code, k + 1, vec, labelTab, wasmStack);
      } else {
        ok, wasmStack := TranslateInstruction(code, instr[k], wasmStack, |labelTab.labels|);
      }
      if !ok {
        StaysFailed(c0, instr, vec, k + 1);
        return;
      }
    }
    ok := true;
  }

  /** An unconditional jump where the branch resolver asks for one. */
  method TranslateEnd(code: UbhCode, insCnt: nat, vec: BlockTree.Blocks, labelTab: BlockTree.LabelTab,
                      ghost stack: seq<StackElem>)
    returns (ok: bool)
    requires BlockTree.Numbered(vec) && labelTab.labels != []
    modifies code, labelTab
    ensures labelTab.labels != []
    ensures var answer := Branches.Resolve(insCnt, BlockTree.FUNCTION, vec, 0);
            match ConvertedEnd(old(State(code, stack, |labelTab.labels|)), answer)
            case Ok(c) => ok && State(code, stack, |labelTab.labels|) == c
            case Error => !ok
  {
    hide Branches.Resolve;
    var target := Branches.GetLabelIndexForBranch(insCnt, BlockTree.FUNCTION, vec, 0, labelTab);
    if target.Error? {
      return false;
    }
    ok := true;
    if target.value != Branches.LABEL_INVALID && target.value != Branches.LABEL_NOT_NEEDED {
      var inst := UopcodeInst(UJMP, AM32_R, target.value, -1, -1, -1);
      code.insts := code.insts + [inst];
    }
  }
}
