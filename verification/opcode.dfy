/** The closed set of sixteen LC-3 opcodes and the 4-bit decoder. */
module Opcodes {

  import opened Words
  import opened Wrappers

  /** One variant per 4-bit opcode value, listed in code order 0x0..0xF. */
  datatype Opcode =
    | Br | Add | Ld | St | Jsr | And | Ldr | Str
    | Rti | Not | Ldi | Sti | Jmp | Res | Lea | Trap

  /** The discriminant of an opcode (`self as u16`). */
  function ToU16(op: Opcode): (v: Word)
    ensures v <= 15
  {
    match op
    case Br => 0x0
    case Add => 0x1
    case Ld => 0x2
    case St => 0x3
    case Jsr => 0x4
    case And => 0x5
    case Ldr => 0x6
    case Str => 0x7
    case Rti => 0x8
    case Not => 0x9
    case Ldi => 0xA
    case Sti => 0xB
    case Jmp => 0xC
    case Res => 0xD
    case Lea => 0xE
    case Trap => 0xF
  }

  /**
    The inverse of `ToU16`: defined exactly on 0..15, and every value it
    accepts is the code of the opcode it returns.
  */
  function FromU16(v: Word): (r: Option<Opcode>)
    ensures r.Some? <==> v <= 15
    ensures r.Some? ==> ToU16(r.value) == v
  {
    if v == 0x0 then Some(Br)
    else if v == 0x1 then Some(Add)
    else if v == 0x2 then Some(Ld)
    else if v == 0x3 then Some(St)
    else if v == 0x4 then Some(Jsr)
    else if v == 0x5 then Some(And)
    else if v == 0x6 then Some(Ldr)
    else if v == 0x7 then Some(Str)
    else if v == 0x8 then Some(Rti)
    else if v == 0x9 then Some(Not)
    else if v == 0xA then Some(Ldi)
    else if v == 0xB then Some(Sti)
    else if v == 0xC then Some(Jmp)
    else if v == 0xD then Some(Res)
    else if v == 0xE then Some(Lea)
    else if v == 0xF then Some(Trap)
    else None
  }

  /** Encoding an opcode and decoding the code gives the opcode back. */
  lemma EncodeDecode(op: Opcode)
    ensures FromU16(ToU16(op)) == Some(op)
  {
  }

  /** Distinct opcodes have distinct 4-bit codes. */
  lemma ToU16Injective(a: Opcode, b: Opcode)
    ensures ToU16(a) == ToU16(b) ==> a == b
  {
  }

  /**
    The opcode of an instruction word: its bits 15..12. A 16-bit word shifted
    right by 12 is below 16, so decoding never fails.
  */
  function ExtractOpcode(instruction: Word): (r: Option<Opcode>)
    ensures r.Some?
    ensures ToU16(r.value) == instruction >> 12
  {
    FromU16(instruction >> 12)
  }

  /** Only bits 15..12 matter: words that agree there decode alike. */
  lemma ExtractOpcodeTopBits(i: Word, j: Word)
    requires i & 0xF000 == j & 0xF000
    ensures ExtractOpcode(i) == ExtractOpcode(j)
  {
    assert i >> 12 == j >> 12;
  }

  /** The decoder's documented cases. */
  lemma ExtractOpcodeExamples()
    ensures FromU16(0) == Some(Br) && FromU16(15) == Some(Trap) && FromU16(16) == None
    ensures ToU16(Br) == 0 && ToU16(Trap) == 15
    ensures ExtractOpcode(0x1000) == Some(Add)
    ensures ExtractOpcode(0xF000) == Some(Trap)
    ensures ExtractOpcode(0xFFFF) == Some(Trap)
  {
  }

}
