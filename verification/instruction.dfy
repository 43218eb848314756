/**
  The execution engine: the instruction fields, sign extension, one handler per
  opcode, and `execute`, which decodes a raw instruction word and dispatches.
  Every handler sees the PC as already incremented by the fetch step.
*/
module Instructions {

  import opened Words
  import opened Wrappers
  import opened Opcodes
  import opened Registers
  import Memories
  import opened Outcomes
  import Traps

  /**
    `sign_extend(x, bit_count)`: when bit `bit_count - 1` of `x` is set, bits
    `bit_count`..15 are filled with ones. The source's shifts by
    `bit_count - 1` and by `bit_count` need 1 <= bit_count <= 15.
  */
  function SignExtend(x: Word, bitCount: Word): (r: Word)
    requires 1 <= bitCount <= 15
    ensures r & x == x
    ensures (x >> (bitCount - 1)) & 1 == 0 ==> r == x
    ensures (x >> (bitCount - 1)) & 1 != 0 ==> r >> bitCount == 0xFFFF >> bitCount
  {
    if (x >> (bitCount - 1)) & 1 != 0 then x | (0xFFFF << bitCount) else x
  }

  /** The bits below `bitCount`: the ones the mask `0xFFFF << bitCount` leaves clear. */
  function LowBits(bitCount: Word): Word
    requires bitCount <= 15
  {
    !(0xFFFF << bitCount)
  }

  /** Sign extension keeps every bit of `x` below `bitCount`: it never changes the field itself. */
  lemma SignExtendKeepsField(x: Word, bitCount: Word)
    requires 1 <= bitCount <= 15
    ensures SignExtend(x, bitCount) & LowBits(bitCount) == x & LowBits(bitCount)
  {
    if bitCount <= 4 {
      if bitCount == 1 { assert LowBits(1) == 0x1; }
      else if bitCount == 2 { assert LowBits(2) == 0x3; }
      else if bitCount == 3 { assert LowBits(3) == 0x7; }
      else { assert LowBits(4) == 0xF; }
    } else if bitCount <= 8 {
      if bitCount == 5 { assert LowBits(5) == 0x1F; }
      else if bitCount == 6 { assert LowBits(6) == 0x3F; }
      else if bitCount == 7 { assert LowBits(7) == 0x7F; }
      else { assert LowBits(8) == 0xFF; }
    } else if bitCount <= 12 {
      if bitCount == 9 { assert LowBits(9) == 0x1FF; }
      else if bitCount == 10 { assert LowBits(10) == 0x3FF; }
      else if bitCount == 11 { assert LowBits(11) == 0x7FF; }
      else { assert LowBits(12) == 0xFFF; }
    } else {
      if bitCount == 13 { assert LowBits(13) == 0x1FFF; }
      else if bitCount == 14 { assert LowBits(14) == 0x3FFF; }
      else { assert LowBits(15) == 0x7FFF; }
    }
  }

  /*
    The per-width facts behind `SignExtendIsTwosComplement`: for each width the
    field's two's-complement value and the value of the sign-extended word are
    both `x` below the sign bit and `x - 2^n` from it on.
  */

  lemma FieldValue5(x: Word)
    requires x < 0x20
    ensures FieldValue(x, 5) == if x < 0x10 then x as int else x as int - 0x20
  {
    assert Pow2(5) == 0x20 && Pow2(4) == 0x10;
    assert x as int < 0x20;
  }

  lemma SignExtendValue5(x: Word)
    requires x < 0x20
    ensures Signed(SignExtend(x, 5)) == if x < 0x10 then x as int else x as int - 0x20
  {
    if x < 0x10 {
      assert SignExtend(x, 5) == x;
    } else {
      assert SignExtend(x, 5) == x | 0xFFE0;
      assert (x | 0xFFE0) as int == x as int + 0xFFE0;
    }
  }

  lemma SignExtend5(x: Word)
    requires x < 0x20
    ensures Signed(SignExtend(x, 5)) == FieldValue(x, 5)
  {
    FieldValue5(x);
    SignExtendValue5(x);
  }

  lemma FieldValue6(x: Word)
    requires x < 0x40
    ensures FieldValue(x, 6) == if x < 0x20 then x as int else x as int - 0x40
  {
    assert Pow2(6) == 0x40 && Pow2(5) == 0x20;
    assert x as int < 0x40;
  }

  lemma SignExtendValue6(x: Word)
    requires x < 0x40
    ensures Signed(SignExtend(x, 6)) == if x < 0x20 then x as int else x as int - 0x40
  {
    if x < 0x20 {
      assert SignExtend(x, 6) == x;
    } else {
      assert SignExtend(x, 6) == x | 0xFFC0;
      assert (x | 0xFFC0) as int == x as int + 0xFFC0;
    }
  }

  lemma SignExtend6(x: Word)
    requires x < 0x40
    ensures Signed(SignExtend(x, 6)) == FieldValue(x, 6)
  {
    FieldValue6(x);
    SignExtendValue6(x);
  }

  lemma FieldValue9(x: Word)
    requires x < 0x200
    ensures FieldValue(x, 9) == if x < 0x100 then x as int else x as int - 0x200
  {
    assert Pow2(9) == 0x200 && Pow2(8) == 0x100;
    assert x as int < 0x200;
  }

  lemma SignExtendValue9(x: Word)
    requires x < 0x200
    ensures Signed(SignExtend(x, 9)) == if x < 0x100 then x as int else x as int - 0x200
  {
    if x < 0x100 {
      assert SignExtend(x, 9) == x;
    } else {
      assert SignExtend(x, 9) == x | 0xFE00;
      assert (x | 0xFE00) as int == x as int + 0xFE00;
    }
  }

  lemma SignExtend9(x: Word)
    requires x < 0x200
    ensures Signed(SignExtend(x, 9)) == FieldValue(x, 9)
  {
    FieldValue9(x);
    SignExtendValue9(x);
  }

  lemma FieldValue11(x: Word)
    requires x < 0x800
    ensures FieldValue(x, 11) == if x < 0x400 then x as int else x as int - 0x800
  {
    assert Pow2(11) == 0x800 && Pow2(10) == 0x400;
    assert x as int < 0x800;
  }

  lemma SignExtendValue11(x: Word)
    requires x < 0x800
    ensures Signed(SignExtend(x, 11)) == if x < 0x400 then x as int else x as int - 0x800
  {
    if x < 0x400 {
      assert SignExtend(x, 11) == x;
    } else {
      assert SignExtend(x, 11) == x | 0xF800;
      assert (x | 0xF800) as int == x as int + 0xF800;
    }
  }

  lemma SignExtend11(x: Word)
    requires x < 0x800
    ensures Signed(SignExtend(x, 11)) == FieldValue(x, 11)
  {
    FieldValue11(x);
    SignExtendValue11(x);
  }

  /**
    For every field width the instruction set uses (imm5, offset6,
    PCoffset9, PCoffset11), sign extension yields the 16-bit two's-complement
    representation of the field's value.
  */
  lemma SignExtendIsTwosComplement(x: Word, n: Word)
    requires n == 5 || n == 6 || n == 9 || n == 11
    requires x < (1 << n)
    ensures Signed(SignExtend(x, n)) == FieldValue(x, n as nat)
  {
    if n == 5 { SignExtend5(x); }
    else if n == 6 { SignExtend6(x); }
    else if n == 9 { SignExtend9(x); }
    else { SignExtend11(x); }
  }

  /** Bits 11..9: DR of the ALU and load instructions, SR of the stores. */
  function RegAt9(raw: Word): Register {
    RegisterFrom((raw >> 9) & 0x7)
  }

  /** Bits 8..6: SR1 of ADD and AND, SR of NOT, BaseR of JMP, JSRR, LDR and STR. */
  function RegAt6(raw: Word): Register {
    RegisterFrom((raw >> 6) & 0x7)
  }

  /** Bits 2..0: SR2 of ADD and AND in register mode. */
  function RegAt0(raw: Word): Register {
    RegisterFrom(raw & 0x7)
  }

  function Imm5(raw: Word): Word {
    SignExtend(raw & 0x1F, 5)
  }

  function Offset6(raw: Word): Word {
    SignExtend(raw & 0x3F, 6)
  }

  function PcOffset9(raw: Word): Word {
    SignExtend(raw & 0x1FF, 9)
  }

  function PcOffset11(raw: Word): Word {
    SignExtend(raw & 0x7FF, 11)
  }

  /** The second operand of ADD and AND: SR2 when bit 5 is clear, else imm5. */
  function Operand2(raw: Word, rf: RegisterFile): Word {
    if (raw >> 5) & 0x1 == 0 then Read(rf, RegAt0(raw)) else Imm5(raw)
  }

  /** ADD: DR gets SR1 plus the second operand, wrapping; COND follows the sum. */
  function ExecAdd(raw: Word, rf: RegisterFile): (rf': RegisterFile)
    ensures Read(rf', RegAt9(raw)) == Read(rf, RegAt6(raw)) + Operand2(raw, rf)
    ensures Reflects(Read(rf', COND), Read(rf', RegAt9(raw)))
    ensures SameExcept(rf, rf', {RegAt9(raw), COND})
  {
    UpdateFlags(Write(rf, RegAt9(raw), Read(rf, RegAt6(raw)) + Operand2(raw, rf)), Read(rf, RegAt6(raw)) + Operand2(raw, rf))
  }

  /** AND: DR gets the bitwise AND of SR1 and the second operand; COND follows it. */
  function ExecAnd(raw: Word, rf: RegisterFile): (rf': RegisterFile)
    ensures Read(rf', RegAt9(raw)) == Read(rf, RegAt6(raw)) & Operand2(raw, rf)
    ensures Reflects(Read(rf', COND), Read(rf', RegAt9(raw)))
    ensures SameExcept(rf, rf', {RegAt9(raw), COND})
  {
    UpdateFlags(Write(rf, RegAt9(raw), Read(rf, RegAt6(raw)) & Operand2(raw, rf)), Read(rf, RegAt6(raw)) & Operand2(raw, rf))
  }

  /** NOT: DR gets the bitwise complement of SR; COND follows it. */
  function ExecNot(raw: Word, rf: RegisterFile): (rf': RegisterFile)
    ensures Read(rf', RegAt9(raw)) == !Read(rf, RegAt6(raw))
    ensures Reflects(Read(rf', COND), Read(rf', RegAt9(raw)))
    ensures SameExcept(rf, rf', {RegAt9(raw), COND})
  {
    UpdateFlags(Write(rf, RegAt9(raw), !Read(rf, RegAt6(raw))), !Read(rf, RegAt6(raw)))
  }

  /**
    The branch condition of BR as the source tests it: a requested n (bit 11),
    z (bit 10) or p (bit 9) whose flag is set in COND.
  */
  predicate BranchTaken(raw: Word, cond: Word)
    ensures (raw >> 9) & 0x7 == 0 ==> !BranchTaken(raw, cond)
    ensures cond & 0x7 == 0 ==> !BranchTaken(raw, cond)
  {
    || ((raw >> 11) & 0x1 == 1 && cond & FlagNeg != 0)
    || ((raw >> 10) & 0x1 == 1 && cond & FlagZero != 0)
    || ((raw >> 9) & 0x1 == 1 && cond & FlagPos != 0)
  }

  /**
    The n, z, p bits line up with the FL_NEG, FL_ZRO, FL_POS bits of COND, so
    the branch is taken exactly when the two share a set bit; with nzp = 000
    it is never taken.
  */
  lemma BranchTakenMask(raw: Word, cond: Word)
    ensures BranchTaken(raw, cond) <==> (raw >> 9) & cond & 0x7 != 0
    ensures (raw >> 9) & 0x7 == 0 ==> !BranchTaken(raw, cond)
  {
  }

  /** BR: taken, PC moves by PCoffset9; otherwise nothing changes. Only the PC is ever written. */
  function ExecBr(raw: Word, rf: RegisterFile): (rf': RegisterFile)
    ensures BranchTaken(raw, Read(rf, COND)) ==> Read(rf', PC) == Read(rf, PC) + PcOffset9(raw)
    ensures !BranchTaken(raw, Read(rf, COND)) ==> rf' == rf
    ensures SameExcept(rf, rf', {PC})
  {
    if BranchTaken(raw, Read(rf, COND)) then Write(rf, PC, Read(rf, PC) + PcOffset9(raw)) else rf
  }

  /** JMP (and RET, BaseR = R7): PC gets BaseR. */
  function ExecJmp(raw: Word, rf: RegisterFile): (rf': RegisterFile)
    ensures Read(rf', PC) == Read(rf, RegAt6(raw))
    ensures SameExcept(rf, rf', {PC})
  {
    Write(rf, PC, Read(rf, RegAt6(raw)))
  }

  /**
    JSR/JSRR: R7 gets the (incremented) PC first; then PC moves by PCoffset11
    (bit 11 set) or is loaded from BaseR, read after R7 was written, so JSRR
    through R7 leaves PC where it was.
  */
  function ExecJsr(raw: Word, rf: RegisterFile): (rf': RegisterFile)
    ensures Read(rf', R7) == Read(rf, PC)
    ensures (raw >> 11) & 0x1 == 1 ==> Read(rf', PC) == Read(rf, PC) + PcOffset11(raw)
    ensures (raw >> 11) & 0x1 == 0 && RegAt6(raw) != R7 ==> Read(rf', PC) == Read(rf, RegAt6(raw))
    ensures (raw >> 11) & 0x1 == 0 && RegAt6(raw) == R7 ==> Read(rf', PC) == Read(rf, PC)
    ensures SameExcept(rf, rf', {R7, PC})
  {
    Write(Write(rf, R7, Read(rf, PC)), PC,
      if (raw >> 11) & 0x1 == 1 then Read(rf, PC) + PcOffset11(raw)
      else Read(Write(rf, R7, Read(rf, PC)), RegAt6(raw)))
  }

  /** LD: DR gets the word at PC + PCoffset9; COND follows it. */
  function ExecLd(raw: Word, rf: RegisterFile, mem: Memories.Memory): (rf': RegisterFile)
    ensures Read(rf', RegAt9(raw)) == Memories.Read(mem, Read(rf, PC) + PcOffset9(raw))
    ensures Reflects(Read(rf', COND), Read(rf', RegAt9(raw)))
    ensures SameExcept(rf, rf', {RegAt9(raw), COND})
  {
    UpdateFlags(Write(rf, RegAt9(raw), Memories.Read(mem, Read(rf, PC) + PcOffset9(raw))),
      Memories.Read(mem, Read(rf, PC) + PcOffset9(raw)))
  }

  /** LDI: DR gets the word whose address is stored at PC + PCoffset9; COND follows it. */
  function ExecLdi(raw: Word, rf: RegisterFile, mem: Memories.Memory): (rf': RegisterFile)
    ensures Read(rf', RegAt9(raw)) ==
      Memories.Read(mem, Memories.Read(mem, Read(rf, PC) + PcOffset9(raw)))
    ensures Reflects(Read(rf', COND), Read(rf', RegAt9(raw)))
    ensures SameExcept(rf, rf', {RegAt9(raw), COND})
  {
    UpdateFlags(Write(rf, RegAt9(raw), Memories.Read(mem, Memories.Read(mem, Read(rf, PC) + PcOffset9(raw)))),
      Memories.Read(mem, Memories.Read(mem, Read(rf, PC) + PcOffset9(raw))))
  }

  /** LDR: DR gets the word at BaseR + offset6; COND follows it. */
  function ExecLdr(raw: Word, rf: RegisterFile, mem: Memories.Memory): (rf': RegisterFile)
    ensures Read(rf', RegAt9(raw)) == Memories.Read(mem, Read(rf, RegAt6(raw)) + Offset6(raw))
    ensures Reflects(Read(rf', COND), Read(rf', RegAt9(raw)))
    ensures SameExcept(rf, rf', {RegAt9(raw), COND})
  {
    UpdateFlags(Write(rf, RegAt9(raw), Memories.Read(mem, Read(rf, RegAt6(raw)) + Offset6(raw))),
      Memories.Read(mem, Read(rf, RegAt6(raw)) + Offset6(raw)))
  }

  /** LEA: DR gets the address PC + PCoffset9 itself, not the word there; COND follows it. */
  function ExecLea(raw: Word, rf: RegisterFile): (rf': RegisterFile)
    ensures Read(rf', RegAt9(raw)) == Read(rf, PC) + PcOffset9(raw)
    ensures Reflects(Read(rf', COND), Read(rf', RegAt9(raw)))
    ensures SameExcept(rf, rf', {RegAt9(raw), COND})
  {
    UpdateFlags(Write(rf, RegAt9(raw), Read(rf, PC) + PcOffset9(raw)), Read(rf, PC) + PcOffset9(raw))
  }

  /** ST: the word at PC + PCoffset9 gets SR; every other cell is unchanged. */
  function ExecSt(raw: Word, rf: RegisterFile, mem: Memories.Memory): (mem': Memories.Memory)
    ensures Memories.Read(mem', Read(rf, PC) + PcOffset9(raw)) == Read(rf, RegAt9(raw))
    ensures forall a :: a != Read(rf, PC) + PcOffset9(raw) ==> Memories.Read(mem', a) == Memories.Read(mem, a)
  {
    Memories.Write(mem, Read(rf, PC) + PcOffset9(raw), Read(rf, RegAt9(raw)))
  }

  /** STI: the word whose address is stored at PC + PCoffset9 gets SR; every other cell is unchanged. */
  function ExecSti(raw: Word, rf: RegisterFile, mem: Memories.Memory): (mem': Memories.Memory)
    ensures Memories.Read(mem', Memories.Read(mem, Read(rf, PC) + PcOffset9(raw))) == Read(rf, RegAt9(raw))
    ensures forall a :: a != Memories.Read(mem, Read(rf, PC) + PcOffset9(raw)) ==>
      Memories.Read(mem', a) == Memories.Read(mem, a)
  {
    Memories.Write(mem, Memories.Read(mem, Read(rf, PC) + PcOffset9(raw)), Read(rf, RegAt9(raw)))
  }

  /** STR: the word at BaseR + offset6 gets SR; every other cell is unchanged. */
  function ExecStr(raw: Word, rf: RegisterFile, mem: Memories.Memory): (mem': Memories.Memory)
    ensures Memories.Read(mem', Read(rf, RegAt6(raw)) + Offset6(raw)) == Read(rf, RegAt9(raw))
    ensures forall a :: a != Read(rf, RegAt6(raw)) + Offset6(raw) ==>
      Memories.Read(mem', a) == Memories.Read(mem, a)
  {
    Memories.Write(mem, Read(rf, RegAt6(raw)) + Offset6(raw), Read(rf, RegAt9(raw)))
  }

  /** The opcodes whose handlers write a general register and COND. */
  predicate SetsFlags(op: Opcode) {
    op in {Add, And, Not, Ld, Ldi, Ldr, Lea}
  }

  /** The opcodes whose handlers write memory. */
  predicate Stores(op: Opcode) {
    op in {St, Sti, Str}
  }

  /** The opcodes whose handlers may write the PC. */
  predicate Jumps(op: Opcode) {
    op in {Br, Jmp, Jsr}
  }

  /**
    The handler table of `execute` for an already decoded opcode: RES and RTI
    fault and change nothing; the outcome is HALT exactly for TRAP with vector
    0x25, and only TRAP, RES and RTI end in anything but Continue.
  */
  function ExecuteOp(op: Opcode, raw: Word, rf: RegisterFile, mem: Memories.Memory, con: Console): (e: Effect)
    ensures e.outcome != Fault(UnknownOpcode)
    ensures op == Res ==> e == Effect(rf, mem, con, [], Fault(ReservedOpcode))
    ensures op == Rti ==> e == Effect(rf, mem, con, [], Fault(RtiUnimplemented))
    ensures e.outcome == Halt <==> op == Trap && raw & 0xFF == Traps.TrapHalt
    ensures op !in {Trap, Res, Rti} ==> e.outcome == Continue
  {
    match op
    case Add => Done(ExecAdd(raw, rf), mem, con)
    case And => Done(ExecAnd(raw, rf), mem, con)
    case Not => Done(ExecNot(raw, rf), mem, con)
    case Br => Done(ExecBr(raw, rf), mem, con)
    case Jmp => Done(ExecJmp(raw, rf), mem, con)
    case Jsr => Done(ExecJsr(raw, rf), mem, con)
    case Ld => Done(ExecLd(raw, rf, mem), mem, con)
    case Ldi => Done(ExecLdi(raw, rf, mem), mem, con)
    case Ldr => Done(ExecLdr(raw, rf, mem), mem, con)
    case Lea => Done(ExecLea(raw, rf), mem, con)
    case St => Done(rf, ExecSt(raw, rf, mem), con)
    case Sti => Done(rf, ExecSti(raw, rf, mem), con)
    case Str => Done(rf, ExecStr(raw, rf, mem), con)
    case Trap => Traps.ExecTrap(raw, rf, mem, con)
    case Res => Effect(rf, mem, con, [], Fault(ReservedOpcode))
    case Rti => Effect(rf, mem, con, [], Fault(RtiUnimplemented))
  }

  /**
    `execute`: decode the opcode and run its handler. Decoding never fails, so
    the "Unknown opcode" error is never produced.
  */
  function Execute(raw: Word, rf: RegisterFile, mem: Memories.Memory, con: Console): (e: Effect)
    ensures e.outcome != Fault(UnknownOpcode)
    ensures ExtractOpcode(raw) == Some(Res) ==> e == Effect(rf, mem, con, [], Fault(ReservedOpcode))
    ensures ExtractOpcode(raw) == Some(Rti) ==> e == Effect(rf, mem, con, [], Fault(RtiUnimplemented))
    ensures e.outcome == Halt <==> ExtractOpcode(raw) == Some(Trap) && raw & 0xFF == Traps.TrapHalt
    ensures ExtractOpcode(raw).value !in {Trap, Res, Rti} ==> e.outcome == Continue
  {
    match ExtractOpcode(raw)
    case None => Effect(rf, mem, con, [], Fault(UnknownOpcode))
    case Some(op) => ExecuteOp(op, raw, rf, mem, con)
  }

  /** `execute` runs the handler of the opcode its word decodes to. */
  lemma ExecuteDecodes(raw: Word, rf: RegisterFile, mem: Memories.Memory, con: Console)
    ensures Execute(raw, rf, mem, con) == ExecuteOp(ExtractOpcode(raw).value, raw, rf, mem, con)
  {
  }

  /*
    The handler table of `execute`, in four groups: each register handler's
    new registers with memory and console untouched, each store handler's new
    memory with the registers and console untouched, and TRAP to the trap
    dispatcher.
  */

  /** ADD, AND and NOT run their handlers. */
  lemma ExecuteDispatchOperate(raw: Word, rf: RegisterFile, mem: Memories.Memory, con: Console)
    ensures ExtractOpcode(raw) == Some(Add) ==> Execute(raw, rf, mem, con) == Done(ExecAdd(raw, rf), mem, con)
    ensures ExtractOpcode(raw) == Some(And) ==> Execute(raw, rf, mem, con) == Done(ExecAnd(raw, rf), mem, con)
    ensures ExtractOpcode(raw) == Some(Not) ==> Execute(raw, rf, mem, con) == Done(ExecNot(raw, rf), mem, con)
  {
    ExecuteDecodes(raw, rf, mem, con);
  }

  /** BR, JMP and JSR run their handlers. */
  lemma ExecuteDispatchControl(raw: Word, rf: RegisterFile, mem: Memories.Memory, con: Console)
    ensures ExtractOpcode(raw) == Some(Br) ==> Execute(raw, rf, mem, con) == Done(ExecBr(raw, rf), mem, con)
    ensures ExtractOpcode(raw) == Some(Jmp) ==> Execute(raw, rf, mem, con) == Done(ExecJmp(raw, rf), mem, con)
    ensures ExtractOpcode(raw) == Some(Jsr) ==> Execute(raw, rf, mem, con) == Done(ExecJsr(raw, rf), mem, con)
  {
    ExecuteDecodes(raw, rf, mem, con);
  }

  /** LD, LDI, LDR and LEA run their handlers. */
  lemma ExecuteDispatchLoad(raw: Word, rf: RegisterFile, mem: Memories.Memory, con: Console)
    ensures ExtractOpcode(raw) == Some(Ld) ==> Execute(raw, rf, mem, con) == Done(ExecLd(raw, rf, mem), mem, con)
    ensures ExtractOpcode(raw) == Some(Ldi) ==> Execute(raw, rf, mem, con) == Done(ExecLdi(raw, rf, mem), mem, con)
    ensures ExtractOpcode(raw) == Some(Ldr) ==> Execute(raw, rf, mem, con) == Done(ExecLdr(raw, rf, mem), mem, con)
    ensures ExtractOpcode(raw) == Some(Lea) ==> Execute(raw, rf, mem, con) == Done(ExecLea(raw, rf), mem, con)
  {
    ExecuteDecodes(raw, rf, mem, con);
  }

  /** ST, STI and STR run their handlers, and TRAP goes to the trap dispatcher. */
  lemma ExecuteDispatchStore(raw: Word, rf: RegisterFile, mem: Memories.Memory, con: Console)
    ensures ExtractOpcode(raw) == Some(St) ==> Execute(raw, rf, mem, con) == Done(rf, ExecSt(raw, rf, mem), con)
    ensures ExtractOpcode(raw) == Some(Sti) ==> Execute(raw, rf, mem, con) == Done(rf, ExecSti(raw, rf, mem), con)
    ensures ExtractOpcode(raw) == Some(Str) ==> Execute(raw, rf, mem, con) == Done(rf, ExecStr(raw, rf, mem), con)
    ensures ExtractOpcode(raw) == Some(Trap) ==> Execute(raw, rf, mem, con) == Traps.ExecTrap(raw, rf, mem, con)
  {
    ExecuteDecodes(raw, rf, mem, con);
  }

  /** Only ST, STI and STR write memory. */
  lemma ExecuteMemoryFrame(raw: Word, rf: RegisterFile, mem: Memories.Memory, con: Console)
    requires !Stores(ExtractOpcode(raw).value)
    ensures Execute(raw, rf, mem, con).mem == mem
  {
    OpMemoryFrame(ExtractOpcode(raw).value, raw, rf, mem, con);
  }

  lemma OpMemoryFrame(op: Opcode, raw: Word, rf: RegisterFile, mem: Memories.Memory, con: Console)
    requires !Stores(op)
    ensures ExecuteOp(op, raw, rf, mem, con).mem == mem
  {
  }

  /** ST, STI and STR write no register, COND included, and touch no console. */
  lemma ExecuteStoreFrame(raw: Word, rf: RegisterFile, mem: Memories.Memory, con: Console)
    requires Stores(ExtractOpcode(raw).value)
    ensures Execute(raw, rf, mem, con).regs == rf
    ensures Execute(raw, rf, mem, con).console == con
  {
    OpStoreFrame(ExtractOpcode(raw).value, raw, rf, mem, con);
  }

  lemma OpStoreFrame(op: Opcode, raw: Word, rf: RegisterFile, mem: Memories.Memory, con: Console)
    requires Stores(op)
    ensures ExecuteOp(op, raw, rf, mem, con).regs == rf
    ensures ExecuteOp(op, raw, rf, mem, con).console == con
  {
  }

  /** The engine's own unit case: ADD R2, R0, R1 with R0 = 5 and R1 = 10 leaves 15 in R2, a positive value. */
  lemma AddExample()
    ensures Read(ExecAdd(0x1401, Write(Write(New(), R0, 5), R1, 10)), R2) == 15
    ensures Read(ExecAdd(0x1401, Write(Write(New(), R0, 5), R1, 10)), COND) == FlagPos
  {
  }

  /**
    Only the flag-setting opcodes write COND, and each leaves it one-hot and
    changes no register but DR and COND.
  */
  lemma ExecuteCondFrame(raw: Word, rf: RegisterFile, mem: Memories.Memory, con: Console)
    ensures var e := Execute(raw, rf, mem, con);
      if SetsFlags(ExtractOpcode(raw).value)
      then OneHot(Read(e.regs, COND)) && SameExcept(rf, e.regs, {RegAt9(raw), COND})
      else Read(e.regs, COND) == Read(rf, COND)
  {
    OpCondFrame(ExtractOpcode(raw).value, raw, rf, mem, con);
  }

  lemma OpCondFrame(op: Opcode, raw: Word, rf: RegisterFile, mem: Memories.Memory, con: Console)
    ensures var e := ExecuteOp(op, raw, rf, mem, con);
      if SetsFlags(op)
      then OneHot(Read(e.regs, COND)) && SameExcept(rf, e.regs, {RegAt9(raw), COND})
      else Read(e.regs, COND) == Read(rf, COND)
  {
    var e := ExecuteOp(op, raw, rf, mem, con);
    if SetsFlags(op) {
      ReflectsIsOneHot(Read(e.regs, COND), Read(e.regs, RegAt9(raw)));
    } else if op == Trap {
      assert e == Traps.ExecTrap(raw, rf, mem, con);
    }
  }

  /** Only BR, JMP and JSR move the PC. */
  lemma ExecutePcFrame(raw: Word, rf: RegisterFile, mem: Memories.Memory, con: Console)
    requires !Jumps(ExtractOpcode(raw).value)
    ensures Read(Execute(raw, rf, mem, con).regs, PC) == Read(rf, PC)
  {
    OpPcFrame(ExtractOpcode(raw).value, raw, rf, mem, con);
  }

  lemma OpPcFrame(op: Opcode, raw: Word, rf: RegisterFile, mem: Memories.Memory, con: Console)
    requires !Jumps(op)
    ensures Read(ExecuteOp(op, raw, rf, mem, con).regs, PC) == Read(rf, PC)
  {
    var e := ExecuteOp(op, raw, rf, mem, con);
    if SetsFlags(op) {
      assert RegAt9(raw).IsGeneral();
      Unchanged(rf, e.regs, {RegAt9(raw), COND}, PC);
    } else if op == Trap {
      Unchanged(rf, e.regs, {R0}, PC);
    }
  }

  /** Only TRAP reads input or writes output. */
  lemma ExecuteConsoleFrame(raw: Word, rf: RegisterFile, mem: Memories.Memory, con: Console)
    requires ExtractOpcode(raw) != Some(Trap)
    ensures Execute(raw, rf, mem, con).console == con
    ensures Execute(raw, rf, mem, con).output == []
  {
    OpConsoleFrame(ExtractOpcode(raw).value, raw, rf, mem, con);
  }

  lemma OpConsoleFrame(op: Opcode, raw: Word, rf: RegisterFile, mem: Memories.Memory, con: Console)
    requires op != Trap
    ensures ExecuteOp(op, raw, rf, mem, con).console == con
    ensures ExecuteOp(op, raw, rf, mem, con).output == []
  {
  }

}
