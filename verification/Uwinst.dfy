/** The uWASM instruction of uwinst.h: one or two 32-bit words whose bit fields depend on the address mode. */
module Uwinst {
  import opened Arith

  datatype TyAm =
    | AM32 | AM32_R | AM32_OFS | AM32_R_OFS | AM32_R_R | AM32_IMM_OFS | AM64_R_R_R | AM64_R_OFS | AM64_R_R_OFS

  /** The bit field of the given size whose lowest bit weighs unit. */
  function Field(w: nat, unit: nat, size: nat): (v: nat)
    requires unit > 0 && size > 0
    ensures v < size
  {
    w / unit % size
  }

  /** The word with that field overwritten, by as many low bits of v as it has. */
  function WithField(w: nat, unit: nat, size: nat, v: nat): (r: nat)
    requires unit > 0 && size > 0
  {
    w / unit / size * size * unit + v % size * unit + w % unit
  }

  lemma WrittenArith(hi: nat, f: nat, lo: nat, unit: nat, size: nat, w: nat)
    requires unit > 0 && size > 0 && f < size && lo < unit && w == hi * size * unit + f * unit + lo
    ensures w % unit == lo && w / unit % size == f && w / unit / size == hi
  {
    assert w == (hi * size + f) * unit + lo;
    DivMod(w, unit, hi * size + f, lo);
    DivMod(hi * size + f, size, hi, f);
  }

  /** Writing a field writes that field, and nothing below or above it. */
  lemma Written(w: nat, unit: nat, size: nat, v: nat)
    requires unit > 0 && size > 0
    ensures var r := WithField(w, unit, size, v);
            Field(r, unit, size) == v % size && r % unit == w % unit && r / unit / size == w / unit / size
  {
    WrittenArith(w / unit / size, v % size, w % unit, unit, size, WithField(w, unit, size, v));
  }

  const RD32 := 0x100
  const RS32 := 0x4_0000
  const RD64 := 0x1_0000
  const RS64 := 0x1000
  const RT64 := 0x40_0000
  const SOFS64 := 0x400
  const REGISTERS := 0x400

  /** A UWASM_INST: its opcode, address mode and the two words of its union. */
  datatype Inst = Inst(op: nat, ty: TyAm, word0: nat, word1: nat) {
    function WithRd(r: nat): Inst {
      match ty
      case AM32_R | AM32_R_R | AM32_R_OFS => this.(word0 := WithField(word0, RD32, REGISTERS, r))
      case AM64_R_R_R | AM64_R_OFS | AM64_R_R_OFS => this.(word0 := WithField(word0, RD64, REGISTERS, r))
      case _ => this
    }

    function WithRs(r: nat): Inst {
      match ty
      case AM32_R_R => this.(word0 := WithField(word0, RS32, REGISTERS, r))
      case AM64_R_R_R => this.(word1 := WithField(word1, RS64, REGISTERS, r))
      case AM64_R_R_OFS => this.(word1 := WithField(word1, 1, REGISTERS, r))
      case _ => this
    }

    function WithRt(r: nat): Inst {
      match ty
      case AM64_R_R_R => this.(word1 := WithField(word1, RT64, REGISTERS, r))
      case _ => this
    }

    /** The case of AM32_OFS falls through to that of AM32_R_OFS. */
    function WithOfs(ofs: nat): Inst {
      match ty
      case AM32_OFS => this.(word0 := WithField(WithField(word0, 0x100, 0x100_0000, ofs), 0x4_0000, 0x1000, ofs))
      case AM32_R_OFS => this.(word0 := WithField(word0, 0x4_0000, 0x1000, ofs))
      case AM64_R_OFS => this.(word1 := WithField(word1, 1, 0x1_0000_0000, ofs))
      case AM64_R_R_OFS => this.(word1 := WithField(word1, SOFS64, 0x10_0000, ofs))
      case AM32_IMM_OFS => this.(word0 := WithField(word0, 0x10_0000, 0x1000, ofs))
      case _ => this
    }

    /** 4096 where the source asserts that the mode has the field. */
    function Rd(): nat {
      match ty
      case AM32_R | AM32_R_R | AM32_R_OFS => Field(word0, RD32, REGISTERS)
      case AM64_R_R_R | AM64_R_OFS | AM64_R_R_OFS => Field(word0, RD64, REGISTERS)
      case _ => 4096
    }

    function Rs(): nat {
      match ty
      case AM32_R_R => Field(word0, RS32, REGISTERS)
      case AM64_R_R_R => Field(word1, RS64, REGISTERS)
      case AM64_R_R_OFS => Field(word1, 1, REGISTERS)
      case _ => 4096
    }

    function Rt(): nat {
      match ty
      case AM64_R_R_R => Field(word1, RT64, REGISTERS)
      case _ => 4096
    }

    predicate HasOfs() {
      match ty
      case AM32_OFS | AM32_R_OFS | AM32_IMM_OFS | AM64_R_OFS | AM64_R_R_OFS => true
      case _ => false
    }

    function Ofs(): nat {
      match ty
      case AM32_OFS => Field(word0, 0x100, 0x100_0000)
      case AM32_R_OFS => Field(word0, 0x4_0000, 0x1000)
      case AM32_IMM_OFS => Field(word0, 0x10_0000, 0x1000)
      case AM64_R_OFS => Field(word1, 1, 0x1_0000_0000)
      case AM64_R_R_OFS => Field(word1, SOFS64, 0x10_0000)
      case _ => 4096
    }
  }

  /** A table entry: only the bits of the opcode are set. */
  function Template(op: nat, ty: TyAm): Inst {
    match ty
    case AM32_R | AM32_R_R | AM32_R_OFS | AM32 => Inst(op, ty, 2 * (op % 128), 0)
    case _ => Inst(op, ty, 1 + 2 * (op / 256 % 128) + 256 * (op % 256), 0)
  }

  /** An absent operand of Set_am is -1. */
  function WithAm(i: Inst, rd: int, rs: int, rt: int, ofs: int): Inst
    requires rd >= -1 && rs >= -1 && rt >= -1 && ofs >= -1
  {
    var i1 := if rd != -1 then i.WithRd(rd) else i;
    var i2 := if rs != -1 then i1.WithRs(rs) else i1;
    var i3 := if rt != -1 then i2.WithRt(rt) else i2;
    if ofs != -1 then i3.WithOfs(ofs) else i3
  }

  class UwasmInst {
    const op: nat
    const ty: TyAm
    var word0: nat
    var word1: nat

    constructor (op: nat, ty: TyAm)
      ensures Value() == Template(op, ty)
    {
      this.op, this.ty := op, ty;
      var t := Template(op, ty);
      word0, word1 := t.word0, t.word1;
    }

    function Value(): Inst
      reads this
    {
      Inst(op, ty, word0, word1)
    }

    method SetRd(r: nat)
      modifies this
      ensures Value() == old(Value()).WithRd(r)
    {
      match ty {
        case AM32_R | AM32_R_R | AM32_R_OFS => word0 := WithField(word0, RD32, REGISTERS, r);
        case AM64_R_R_R | AM64_R_OFS | AM64_R_R_OFS => word0 := WithField(word0, RD64, REGISTERS, r);
        case _ =>
      }
    }

    method SetRs(r: nat)
      modifies this
      ensures Value() == old(Value()).WithRs(r)
    {
      match ty {
        case AM32_R_R => word0 := WithField(word0, RS32, REGISTERS, r);
        case AM64_R_R_R => word1 := WithField(word1, RS64, REGISTERS, r);
        case AM64_R_R_OFS => word1 := WithField(word1, 1, REGISTERS, r);
        case _ =>
      }
    }

    method SetRt(r: nat)
      modifies this
      ensures Value() == old(Value()).WithRt(r)
    {
      match ty {
        case AM64_R_R_R => word1 := WithField(word1, RT64, REGISTERS, r);
        case _ =>
      }
    }

    method SetOfs(ofs: nat)
      modifies this
      ensures Value() == old(Value()).WithOfs(ofs)
    {
      match ty {
        case AM32_OFS =>
          word0 := WithField(word0, 0x100, 0x100_0000, ofs);
          word0 := WithField(word0, 0x4_0000, 0x1000, ofs);
        case AM32_R_OFS => word0 := WithField(word0, 0x4_0000, 0x1000, ofs);
        case AM64_R_OFS => word1 := WithField(word1, 1, 0x1_0000_0000, ofs);
        case AM64_R_R_OFS => word1 := WithField(word1, SOFS64, 0x10_0000, ofs);
        case AM32_IMM_OFS => word0 := WithField(word0, 0x10_0000, 0x1000, ofs);
        case _ =>
      }
    }

    /** After the one mode that has the field, control falls through into the assertion of the others. */
    method SetImm(imm: nat) returns (ok: bool)
      modifies this
      ensures !ok
    {
      if ty == AM32_IMM_OFS {
        word0 := WithField(word0, 0x100, 0x1000, imm);
      }
      ok := false;
    }

    /** An immediate, whatever the mode, fails an assertion. */
    method SetAm(rd: int, rs: int, rt: int, ofs: int, imm: int) returns (ok: bool)
      requires rd >= -1 && rs >= -1 && rt >= -1 && ofs >= -1 && imm >= -1
      modifies this
      ensures ok <==> imm == -1
      ensures ok ==> Value() == WithAm(old(Value()), rd, rs, rt, ofs)
    {
      ok := true;
      if rd != -1 {
        SetRd(rd);
      }
      if rs != -1 {
        SetRs(rs);
      }
      if rt != -1 {
        SetRt(rt);
      }
      if ofs != -1 {
        SetOfs(ofs);
      }
      if imm != -1 {
        ok := SetImm(imm);
      }
    }
  }

  // ---------------------------------------------------------------- the words

  lemma FieldSet(hi: nat, f: nat, lo: nat, unit: nat, size: nat, w: nat, v: nat)
    requires unit > 0 && size > 0 && f < size && lo < unit && w == hi * size * unit + f * unit + lo
    ensures WithField(w, unit, size, v) == hi * size * unit + v % size * unit + lo
  {
    WrittenArith(hi, f, lo, unit, size, w);
  }

  /** A field still zero, with nothing above it, is filled by adding the value at its place. */
  lemma FieldAdded(w: nat, unit: nat, size: nat, v: nat)
    requires unit > 0 && size > 0 && w < unit
    ensures WithField(w, unit, size, v) == w + v % size * unit
  {
    FieldSet(0, 0, w, unit, size, w, v);
  }

  /** The words of the long instructions: from the low end one bit set, seven bits and eight bits of opcode and ten
      of the destination; in the second word the other registers, or a register and 20 bits of offset, or 32 bits. */
  lemma LongWords(op: nat, rd: nat, rs: nat, rt: nat, ofs: nat)
    ensures var i := WithAm(Template(op, AM64_R_R_R), rd, rs, rt, -1);
            var j := WithAm(Template(op, AM64_R_OFS), rd, -1, -1, ofs);
            var k := WithAm(Template(op, AM64_R_R_OFS), rd, rs, -1, ofs);
            var first := 1 + 2 * (op / 256 % 128) + 0x100 * (op % 256) + 0x1_0000 * (rd % 0x400);
            i.word0 == first && j.word0 == first && k.word0 == first &&
            i.word1 == 0x1000 * (rs % 0x400) + 0x40_0000 * (rt % 0x400) && j.word1 == ofs % 0x1_0000_0000 &&
            k.word1 == rs % 0x400 + 0x400 * (ofs % 0x10_0000)
  {
    hide WithField;
    FieldAdded(Template(op, AM64_R_R_R).word0, 0x1_0000, 0x400, rd);
    FieldAdded(0, 0x1000, 0x400, rs);
    FieldAdded(0x1000 * (rs % 0x400), 0x40_0000, 0x400, rt);
    FieldAdded(0, 1, 0x1_0000_0000, ofs);
    FieldAdded(0, 1, 0x400, rs);
    FieldAdded(rs % 0x400, 0x400, 0x10_0000, ofs);
  }

  /** The word of the short ones: one bit clear, seven bits of opcode, ten of the destination, then ten of the source
      or twelve of offset. */
  lemma ShortWords(op: nat, rd: nat, rs: nat, ofs: nat)
    ensures var i := WithAm(Template(op, AM32_R), rd, -1, -1, -1);
            var j := WithAm(Template(op, AM32_R_R), rd, rs, -1, -1);
            var k := WithAm(Template(op, AM32_R_OFS), rd, -1, -1, ofs);
            var first := 2 * (op % 128) + 0x100 * (rd % 0x400);
            i.word0 == first && j.word0 == first + 0x4_0000 * (rs % 0x400) &&
            k.word0 == first + 0x4_0000 * (ofs % 0x1000)
  {
    hide WithField;
    var first := 2 * (op % 128) + 0x100 * (rd % 0x400);
    FieldAdded(2 * (op % 128), 0x100, 0x400, rd);
    FieldAdded(first, 0x4_0000, 0x400, rs);
    FieldAdded(first, 0x4_0000, 0x1000, ofs);
  }

  /** The offset of the short mode without registers is overwritten in its upper bits by its own low twelve, so it is
      read back exactly when those bits agree with what is put there. */
  lemma OfsFallsThrough(op: nat, ofs: nat)
    requires ofs < 0x100_0000
    ensures var i := WithAm(Template(op, AM32_OFS), -1, -1, -1, ofs);
            i.Ofs() == ofs % 0x400 + 0x400 * (ofs % 0x1000) + 0x40_0000 * (ofs / 0x40_0000) &&
            (i.Ofs() == ofs <==> ofs / 0x400 % 0x1000 == ofs % 0x1000)
  {
    hide WithField;
    var w := Template(op, AM32_OFS).word0;
    var l := w % 0x100;
    FieldSet(0, w / 0x100, l, 0x100, 0x100_0000, w, ofs);
    var w1 := 0x100 * ofs + l;
    FallenParts(ofs, l);
    FieldSet(ofs / 0x40_0000, ofs / 0x400 % 0x1000, 0x100 * (ofs % 0x400) + l, 0x4_0000, 0x1000, w1, ofs);
    var r := ofs % 0x400 + 0x400 * (ofs % 0x1000) + 0x40_0000 * (ofs / 0x40_0000);
    DivMod(0x100 * r + l, 0x100, r, l);
    ModSmall(r, 0x100_0000);
  }

  lemma FallenParts(ofs: nat, l: nat)
    requires ofs < 0x100_0000 && l < 0x100
    ensures ofs == 0x40_0000 * (ofs / 0x40_0000) + 0x400 * (ofs / 0x400 % 0x1000) + ofs % 0x400
    ensures ofs / 0x40_0000 < 4 && 0x100 * (ofs % 0x400) + l < 0x4_0000
  {
    DivDiv(ofs, 0x400, 0x1000);
    DivDef(ofs, 0x40_0000);
    DivDef(ofs, 0x400);
  }

  /** The operands of a three-register instruction are read back, each cut to its ten bits, and its opcode stays. */
  lemma ThreeRegisters(op: nat, rd: nat, rs: nat, rt: nat)
    ensures var i := WithAm(Template(op, AM64_R_R_R), rd, rs, rt, -1);
            i.op == op && i.ty == AM64_R_R_R && i.word0 % RD64 == Template(op, AM64_R_R_R).word0 % RD64 &&
            i.Rd() == rd % REGISTERS && i.Rs() == rs % REGISTERS && i.Rt() == rt % REGISTERS
  {
    hide WithField;
    var t := Template(op, AM64_R_R_R);
    Written(t.word0, RD64, REGISTERS, rd);
    Written(t.word1, RS64, REGISTERS, rs);
    var w := WithField(t.word1, RS64, REGISTERS, rs);
    Written(w, RT64, REGISTERS, rt);
    LowField(w, WithField(w, RT64, REGISTERS, rt));
  }

  lemma LowField(w: nat, w': nat)
    requires w % RT64 == w' % RT64
    ensures Field(w, RS64, REGISTERS) == Field(w', RS64, REGISTERS)
  {
    FieldOfLow(w);
    FieldOfLow(w');
  }

  lemma FieldOfLow(w: nat)
    ensures Field(w, RS64, REGISTERS) == w % RT64 / RS64
  {
    DivDiv(w, RS64, REGISTERS);
    DivMod(w % RT64, RS64, Field(w, RS64, REGISTERS), w % RS64);
  }

  /** A constant's register and 32-bit offset are read back. */
  lemma RegisterOffset(op: nat, rd: nat, ofs: nat)
    ensures var i := WithAm(Template(op, AM64_R_OFS), rd, -1, -1, ofs);
            i.op == op && i.ty == AM64_R_OFS && i.word0 % RD64 == Template(op, AM64_R_OFS).word0 % RD64 &&
            i.Rd() == rd % REGISTERS && i.Ofs() == ofs % 0x1_0000_0000
  {
    hide WithField;
    var t := Template(op, AM64_R_OFS);
    Written(t.word0, RD64, REGISTERS, rd);
    Written(t.word1, 1, 0x1_0000_0000, ofs);
  }

  /** A load's registers and 20-bit offset are read back; an operand given as rt is lost and leaves the offset 0. */
  lemma TwoRegistersOffset(op: nat, rd: nat, rs: nat, rt: int, ofs: int)
    requires rt >= -1 && ofs >= -1
    ensures var i := WithAm(Template(op, AM64_R_R_OFS), rd, rs, rt, ofs);
            i.op == op && i.ty == AM64_R_R_OFS && i.word0 % RD64 == Template(op, AM64_R_R_OFS).word0 % RD64 &&
            i.Rd() == rd % REGISTERS && i.Rs() == rs % REGISTERS && i.Ofs() == if ofs == -1 then 0 else ofs % 0x10_0000
  {
    hide WithField;
    var t := Template(op, AM64_R_R_OFS);
    Written(t.word0, RD64, REGISTERS, rd);
    Written(t.word1, 1, REGISTERS, rs);
    var w := WithField(t.word1, 1, REGISTERS, rs);
    if ofs != -1 {
      Written(w, SOFS64, 0x10_0000, ofs);
    }
  }
}
