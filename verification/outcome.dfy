/**
  What executing one instruction produces. The source signals HALT and every
  fault through one string-typed error channel; here the control signal and
  the fault kinds are a datatype.
*/
module Outcomes {

  import opened Words
  import opened Registers
  import Memories

  /** The error strings of the execution engine, one variant each. */
  datatype FaultKind =
    | UnknownOpcode      // "Unknown opcode"; the decoder is total, so never produced
    | ReservedOpcode     // "Reserved opcode"
    | RtiUnimplemented   // "RTI not implemented"
    | UnknownTrapVector  // "Unknown TRAP vector"
    | ReadFailure        // "Failed to read character"
    | FlushFailure       // "Failed to flush stdout"
    | Unterminated       // PUTS/PUTSP over a memory with no terminator: the source never returns
    | InvalidInstruction // "Invalid instruction" of the fetch loop; the decoder is total, so never produced

  datatype Outcome = Continue | Halt | Fault(kind: FaultKind)

  /**
    The console as a parameter: the bytes standard input will deliver (an
    empty sequence makes the next read fail) and the results of the coming
    flushes of standard output, one per flush, in order (once they are used
    up, flushing succeeds).
  */
  datatype Console = Console(input: seq<Byte>, flushes: seq<bool>)

  /** Whether the next flush of standard output succeeds. */
  predicate FlushOk(con: Console) {
    |con.flushes| == 0 || con.flushes[0]
  }

  /** The console once one flush has used up its result. */
  function Flushed(con: Console): Console {
    if |con.flushes| == 0 then con else con.(flushes := con.flushes[1..])
  }

  /**
    The machine after one instruction: registers, memory, the console's
    remaining input, the characters written to standard output, and the outcome.
  */
  datatype Effect = Effect(
    regs: RegisterFile,
    mem: Memories.Memory,
    console: Console,
    output: seq<char>,
    outcome: Outcome)

  /** An instruction that completed without output or input. */
  function Done(regs: RegisterFile, mem: Memories.Memory, console: Console): Effect {
    Effect(regs, mem, console, [], Continue)
  }

}
