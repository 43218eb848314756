/**
  The LC-3 register file: eight general registers, the program counter and the
  condition register, each a separately named slot.
*/
module Registers {

  import opened Words

  /** The register names; `PC` and `COND` are slots of their own, not array positions. */
  datatype Register = R0 | R1 | R2 | R3 | R4 | R5 | R6 | R7 | PC | COND {
    predicate IsGeneral() {
      !PC? && !COND?
    }
  }

  /** The discriminant of a register as a word (`register as u16`). */
  function Code(r: Register): Word {
    match r
    case R0 => 0
    case R1 => 1
    case R2 => 2
    case R3 => 3
    case R4 => 4
    case R5 => 5
    case R6 => 6
    case R7 => 7
    case PC => 8
    case COND => 9
  }

  /** The discriminant of a register as an index (`register as usize`). */
  function Number(r: Register): nat {
    Code(r) as nat
  }

  /**
    `Register::from(u16)`: defined on the eight general-register numbers; the
    source panics on anything else, which the precondition rules out. It is
    the inverse of `Code` on the general registers.
  */
  function RegisterFrom(v: Word): (r: Register)
    requires v < 8
    ensures r.IsGeneral()
    ensures Code(r) == v
  {
    if v == 0 then R0
    else if v == 1 then R1
    else if v == 2 then R2
    else if v == 3 then R3
    else if v == 4 then R4
    else if v == 5 then R5
    else if v == 6 then R6
    else R7
  }

  /** Every general register is named by its own number, and by no other. */
  lemma RegisterFromNumber(r: Register)
    requires r.IsGeneral()
    ensures RegisterFrom(Code(r)) == r
  {
  }

  /** The condition flags: one bit each for positive, zero and negative. */
  const FlagPos: Word := 1
  const FlagZero: Word := 2
  const FlagNeg: Word := 4

  const RegisterCount := 8

  type GeneralRegisters = s: seq<Word> | |s| == RegisterCount witness [0, 0, 0, 0, 0, 0, 0, 0]

  datatype RegisterFile = RegisterFile(general: GeneralRegisters, pc: Word, cond: Word)

  /**
    `RegisterFile::new()`: every register, the PC and COND hold zero, so COND
    holds no valid flag until the first flag-setting instruction.
  */
  function New(): (rf: RegisterFile)
    ensures forall r :: Read(rf, r) == 0
    ensures !OneHot(Read(rf, COND))
  {
    RegisterFile([0, 0, 0, 0, 0, 0, 0, 0], 0, 0)
  }

  /**
    `RegisterFile::read`: a general register is the array slot its
    discriminant numbers; PC and COND are fields of their own. Its
    behaviour is specified by `Write`'s read-after-write and frame clauses.
  */
  function Read(rf: RegisterFile, r: Register): Word
  {
    match r
    case PC => rf.pc
    case COND => rf.cond
    case _ => rf.general[Number(r)]
  }

  /** Writing a register replaces that register's value and no other. */
  function Write(rf: RegisterFile, r: Register, v: Word): (rf': RegisterFile)
    ensures Read(rf', r) == v
    ensures forall o :: o != r ==> Read(rf', o) == Read(rf, o)
  {
    match r
    case PC => rf.(pc := v)
    case COND => rf.(cond := v)
    case _ => rf.(general := rf.general[Number(r) := v])
  }

  /** Two register files agree on every register outside `changed`. */
  ghost predicate SameExcept(rf: RegisterFile, rf': RegisterFile, changed: set<Register>) {
    forall r :: r !in changed ==> Read(rf', r) == Read(rf, r)
  }

  /** A register outside the changed set keeps its value. */
  lemma Unchanged(rf: RegisterFile, rf': RegisterFile, changed: set<Register>, r: Register)
    requires SameExcept(rf, rf', changed)
    requires r !in changed
    ensures Read(rf', r) == Read(rf, r)
  {
  }

  /** COND holds exactly one of the three flags. */
  predicate OneHot(cond: Word) {
    cond == FlagPos || cond == FlagZero || cond == FlagNeg
  }

  /**
    COND describes the sign of `v` read as two's complement: zero, negative or
    positive, each flag if and only if.
  */
  ghost predicate Reflects(cond: Word, v: Word) {
    && (cond == FlagZero <==> v == 0)
    && (cond == FlagNeg <==> Signed(v) < 0)
    && (cond == FlagPos <==> Signed(v) > 0)
  }

  /** A COND that reflects some value is one-hot. */
  lemma ReflectsIsOneHot(cond: Word, v: Word)
    requires Reflects(cond, v)
    ensures OneHot(cond)
  {
  }

  /**
    `update_flags`: COND is overwritten with the one flag that matches the
    sign of `value`; nothing else changes.
  */
  function UpdateFlags(rf: RegisterFile, value: Word): (rf': RegisterFile)
    ensures Reflects(Read(rf', COND), value)
    ensures OneHot(Read(rf', COND))
    ensures SameExcept(rf, rf', {COND})
  {
    if value == 0 then rf.(cond := FlagZero)
    else if value >> 15 == 1 then rf.(cond := FlagNeg)
    else rf.(cond := FlagPos)
  }

  /** The register file's documented read/write and flag cases. */
  lemma RegisterFileExamples()
    ensures Read(Write(New(), R0, 0x1234), R0) == 0x1234
    ensures Read(Write(New(), R7, 0x7890), R7) == 0x7890
    ensures Read(Write(New(), PC, 0x3000), PC) == 0x3000
    ensures Read(UpdateFlags(New(), 0), COND) == FlagZero
    ensures Read(UpdateFlags(New(), 1), COND) == FlagPos
    ensures Read(UpdateFlags(New(), 0xFFFF), COND) == FlagNeg
  {
  }

}
