/**
  The TRAP service routines of the execution engine: console input and output
  and HALT, dispatched on the instruction's low eight bits.
*/
module Traps {

  import opened Words
  import opened Wrappers
  import opened Registers
  import Memories
  import opened Outcomes

  const TrapGetc: Word := 0x20
  const TrapOut: Word := 0x21
  const TrapPuts: Word := 0x22
  const TrapIn: Word := 0x23
  const TrapPutsp: Word := 0x24
  const TrapHalt: Word := 0x25

  /** The prompt IN prints before reading. */
  const InPrompt: seq<char> := "Enter a character: "

  /** The number of distinct addresses: a string scan that finds no terminator within it never ends. */
  const ScanLimit: nat := 0x10000

  /** The low and high byte of the word `k` addresses after `a`. */
  function LowAt(mem: Memories.Memory, a: Word, k: nat): Byte {
    LowByte(Memories.Read(mem, Next(a, k)))
  }

  function HighAt(mem: Memories.Memory, a: Word, k: nat): Byte {
    HighByte(Memories.Read(mem, Next(a, k)))
  }

  /** Stepping the start address forward is the same as counting one more word. */
  lemma AtShift(mem: Memories.Memory, a: Word, k: nat)
    ensures LowAt(mem, a + 1, k) == LowAt(mem, a, k + 1)
    ensures HighAt(mem, a + 1, k) == HighAt(mem, a, k + 1)
  {
  }

  /**
    `s` is the one-character-per-word string at `a`: the low bytes of the words
    from `a` on, all non-zero, followed by a word whose low byte is zero.
  */
  ghost predicate PutsText(mem: Memories.Memory, a: Word, s: seq<char>) {
    && LowAt(mem, a, |s|) == 0
    && forall k :: 0 <= k < |s| ==> LowAt(mem, a, k) != 0 && s[k] == ByteChar(LowAt(mem, a, k))
  }

  /**
    `s` is the two-characters-per-word string at `a`: low byte then high byte
    of each word, stopping before a zero low byte (with that word's high byte
    unread) or after a zero high byte.
  */
  ghost predicate PutspText(mem: Memories.Memory, a: Word, s: seq<char>) {
    var n := |s| / 2;
    && (forall k :: 0 <= k < n ==>
          && LowAt(mem, a, k) != 0 && s[2 * k] == ByteChar(LowAt(mem, a, k))
          && HighAt(mem, a, k) != 0 && s[2 * k + 1] == ByteChar(HighAt(mem, a, k)))
    && (|s| % 2 == 0 ==> LowAt(mem, a, n) == 0)
    && (|s| % 2 == 1 ==>
          && LowAt(mem, a, n) != 0 && s[2 * n] == ByteChar(LowAt(mem, a, n))
          && HighAt(mem, a, n) == 0)
  }

  /** A string at `a + 1` preceded by the non-zero low byte at `a` is the string at `a`. */
  lemma {:induction false} PutsTextCons(mem: Memories.Memory, a: Word, s: seq<char>)
    requires LowAt(mem, a, 0) != 0 && PutsText(mem, a + 1, s)
    ensures PutsText(mem, a, [ByteChar(LowAt(mem, a, 0))] + s)
  {
    var t := [ByteChar(LowAt(mem, a, 0))] + s;
    AtShift(mem, a, |s|);
    forall k | 1 <= k < |t|
      ensures LowAt(mem, a, k) != 0 && t[k] == ByteChar(LowAt(mem, a, k))
    {
      AtShift(mem, a, k - 1);
    }
  }

  /** No terminator among `n` words from `b = a + 1` and none at `a`: none among `n + 1` words from `a`. */
  lemma {:induction false} NoLowZeroCons(mem: Memories.Memory, a: Word, b: Word, n: nat)
    requires b == a + 1 && LowAt(mem, a, 0) != 0
    requires forall k :: 0 <= k < n ==> LowAt(mem, b, k) != 0
    ensures forall k :: 0 <= k < n + 1 ==> LowAt(mem, a, k) != 0
  {
    forall k | 1 <= k < n + 1
      ensures LowAt(mem, a, k) != 0
    {
      AtShift(mem, a, k - 1);
    }
  }

  /**
    The characters PUTS prints from address `a`, looking at no more than
    `fuel` words; None when none of them ends the string.
  */
  function PutsChars(mem: Memories.Memory, a: Word, fuel: nat): (r: Option<seq<char>>)
    ensures r.Some? ==> |r.value| < fuel && PutsText(mem, a, r.value)
    ensures r.None? ==> forall k :: 0 <= k < fuel ==> LowAt(mem, a, k) != 0
    decreases fuel
  {
    if fuel == 0 then None
    else
      var c := LowByte(Memories.Read(mem, a));
      if c == 0 then Some([])
      else
        match PutsChars(mem, a + 1, fuel - 1)
        case None =>
          NoLowZeroCons(mem, a, a + 1, fuel - 1);
          None
        case Some(s) =>
          PutsTextCons(mem, a, s);
          Some([ByteChar(c)] + s)
  }

  /** A packed string at `a + 1` preceded by a word with two non-zero bytes at `a` is the packed string at `a`. */
  lemma {:induction false} PutspTextCons(mem: Memories.Memory, a: Word, s: seq<char>)
    requires LowAt(mem, a, 0) != 0 && HighAt(mem, a, 0) != 0 && PutspText(mem, a + 1, s)
    ensures PutspText(mem, a, [ByteChar(LowAt(mem, a, 0)), ByteChar(HighAt(mem, a, 0))] + s)
  {
    var t := [ByteChar(LowAt(mem, a, 0)), ByteChar(HighAt(mem, a, 0))] + s;
    var n := |s| / 2;
    assert |t| / 2 == n + 1 && |t| % 2 == |s| % 2;
    AtShift(mem, a, n);
    forall k | 1 <= k < n + 1
      ensures LowAt(mem, a, k) != 0 && t[2 * k] == ByteChar(LowAt(mem, a, k))
      ensures HighAt(mem, a, k) != 0 && t[2 * k + 1] == ByteChar(HighAt(mem, a, k))
    {
      AtShift(mem, a, k - 1);
      assert t[2 * k] == s[2 * (k - 1)] && t[2 * k + 1] == s[2 * (k - 1) + 1];
    }
    if |s| % 2 == 1 {
      assert t[2 * (n + 1)] == s[2 * n];
    }
  }

  /** No zero byte among `n` words from `b = a + 1` and none at `a`: none among `n + 1` words from `a`. */
  lemma {:induction false} NoZeroByteCons(mem: Memories.Memory, a: Word, b: Word, n: nat)
    requires b == a + 1 && LowAt(mem, a, 0) != 0 && HighAt(mem, a, 0) != 0
    requires forall k :: 0 <= k < n ==> LowAt(mem, b, k) != 0 && HighAt(mem, b, k) != 0
    ensures forall k :: 0 <= k < n + 1 ==> LowAt(mem, a, k) != 0 && HighAt(mem, a, k) != 0
  {
    forall k | 1 <= k < n + 1
      ensures LowAt(mem, a, k) != 0 && HighAt(mem, a, k) != 0
    {
      AtShift(mem, a, k - 1);
    }
  }

  /**
    The characters PUTSP prints from address `a`, looking at no more than
    `fuel` words; None when none of them ends the string.
  */
  function PutspChars(mem: Memories.Memory, a: Word, fuel: nat): (r: Option<seq<char>>)
    ensures r.Some? ==> |r.value| / 2 < fuel && PutspText(mem, a, r.value)
    ensures r.None? ==> forall k :: 0 <= k < fuel ==> LowAt(mem, a, k) != 0 && HighAt(mem, a, k) != 0
    decreases fuel
  {
    if fuel == 0 then None
    else
      var word := Memories.Read(mem, a);
      var lo := LowByte(word);
      var hi := HighByte(word);
      if lo == 0 then Some([])
      else if hi == 0 then Some([ByteChar(lo)])
      else
        match PutspChars(mem, a + 1, fuel - 1)
        case None =>
          NoZeroByteCons(mem, a, a + 1, fuel - 1);
          None
        case Some(s) =>
          PutspTextCons(mem, a, s);
          Some([ByteChar(lo), ByteChar(hi)] + s)
  }

  /** GETC: one byte from input, zero-extended into R0; a failed read changes nothing. */
  function Getc(rf: RegisterFile, mem: Memories.Memory, con: Console): (e: Effect)
    ensures e.mem == mem && e.output == [] && e.console.flushes == con.flushes
    ensures |con.input| == 0 ==> e.regs == rf && e.console == con && e.outcome == Fault(ReadFailure)
    ensures |con.input| > 0 ==>
      && e.outcome == Continue
      && LowByte(Read(e.regs, R0)) == con.input[0] && HighByte(Read(e.regs, R0)) == 0
      && SameExcept(rf, e.regs, {R0})
      && e.console.input == con.input[1..]
  {
    if |con.input| == 0 then Effect(rf, mem, con, [], Fault(ReadFailure))
    else Done(Write(rf, R0, con.input[0] as Word), mem, con.(input := con.input[1..]))
  }

  /** OUT: the low byte of R0 as one character, then a flush. */
  function Out(rf: RegisterFile, mem: Memories.Memory, con: Console): (e: Effect)
    ensures e.regs == rf && e.mem == mem && e.console == Flushed(con)
    ensures |e.output| == 1 && e.output[0] == ByteChar(LowByte(Read(rf, R0)))
    ensures e.outcome == (if FlushOk(con) then Continue else Fault(FlushFailure))
  {
    Effect(rf, mem, Flushed(con), [ByteChar(LowByte(Read(rf, R0)))], if FlushOk(con) then Continue else Fault(FlushFailure))
  }

  /** PUTS: prints the one-character-per-word string at R0, then flushes. */
  function Puts(rf: RegisterFile, mem: Memories.Memory, con: Console): (e: Effect)
    ensures e.regs == rf && e.mem == mem
    ensures e.outcome in {Continue, Fault(FlushFailure), Fault(Unterminated)}
    ensures e.outcome != Fault(Unterminated) ==> PutsText(mem, Read(rf, R0), e.output)
    ensures e.outcome == Fault(Unterminated) ==>
      e.console == con && forall k :: 0 <= k < ScanLimit ==> LowAt(mem, Read(rf, R0), k) != 0
    ensures e.outcome != Fault(Unterminated) ==> e.console == Flushed(con) && (e.outcome == Continue <==> FlushOk(con))
  {
    match PutsChars(mem, Read(rf, R0), ScanLimit)
    case None => Effect(rf, mem, con, [], Fault(Unterminated))
    case Some(s) => Effect(rf, mem, Flushed(con), s, if FlushOk(con) then Continue else Fault(FlushFailure))
  }

  /** IN: prompt, flush, read one byte, echo it with a newline, store it in R0. */
  function In(rf: RegisterFile, mem: Memories.Memory, con: Console): (e: Effect)
    ensures e.mem == mem && e.console.flushes == Flushed(con).flushes
    ensures InPrompt <= e.output
    ensures !FlushOk(con) ==> e == Effect(rf, mem, Flushed(con), InPrompt, Fault(FlushFailure))
    ensures FlushOk(con) && |con.input| == 0 ==> e == Effect(rf, mem, Flushed(con), InPrompt, Fault(ReadFailure))
    ensures FlushOk(con) && |con.input| > 0 ==>
      && e.outcome == Continue
      && LowByte(Read(e.regs, R0)) == con.input[0] && HighByte(Read(e.regs, R0)) == 0
      && SameExcept(rf, e.regs, {R0})
      && e.console.input == con.input[1..]
      && e.output == InPrompt + [ByteChar(con.input[0]), '\n']
  {
    if !FlushOk(con) then Effect(rf, mem, Flushed(con), InPrompt, Fault(FlushFailure))
    else if |con.input| == 0 then Effect(rf, mem, Flushed(con), InPrompt, Fault(ReadFailure))
    else
      Effect(Write(rf, R0, con.input[0] as Word), mem, Flushed(con).(input := con.input[1..]),
             InPrompt + [ByteChar(con.input[0]), '\n'], Continue)
  }

  /** PUTSP: prints the two-characters-per-word string at R0, then flushes. */
  function Putsp(rf: RegisterFile, mem: Memories.Memory, con: Console): (e: Effect)
    ensures e.regs == rf && e.mem == mem
    ensures e.outcome in {Continue, Fault(FlushFailure), Fault(Unterminated)}
    ensures e.outcome != Fault(Unterminated) ==> PutspText(mem, Read(rf, R0), e.output)
    ensures e.outcome == Fault(Unterminated) ==>
      && e.console == con
      && forall k :: 0 <= k < ScanLimit ==> LowAt(mem, Read(rf, R0), k) != 0 && HighAt(mem, Read(rf, R0), k) != 0
    ensures e.outcome != Fault(Unterminated) ==> e.console == Flushed(con) && (e.outcome == Continue <==> FlushOk(con))
  {
    match PutspChars(mem, Read(rf, R0), ScanLimit)
    case None => Effect(rf, mem, con, [], Fault(Unterminated))
    case Some(s) => Effect(rf, mem, Flushed(con), s, if FlushOk(con) then Continue else Fault(FlushFailure))
  }

  /**
    Each routine that flushes uses up its own flush result: an OUT whose flush
    succeeds followed by a PUTS whose flush fails prints both, and only the
    PUTS faults.
  */
  lemma FlushesExample(rf: RegisterFile, mem: Memories.Memory)
    requires LowAt(mem, Read(rf, R0), 0) == 0
    ensures Out(rf, mem, Console([], [true, false])).outcome == Continue
    ensures Out(rf, mem, Console([], [true, false])).console == Console([], [false])
    ensures Puts(rf, mem, Console([], [false])) == Effect(rf, mem, Console([], []), [], Fault(FlushFailure))
  {
    assert PutsChars(mem, Read(rf, R0), ScanLimit) == Some([]);
  }

  /**
    `execute_trap`: dispatch on bits 7..0 to GETC, OUT, PUTS, IN, PUTSP and
    HALT. HALT and unknown vectors change nothing; no routine writes memory or
    any register but R0, and at most one input byte and one flush result are
    consumed.
  */
  function ExecTrap(raw: Word, rf: RegisterFile, mem: Memories.Memory, con: Console): (e: Effect)
    ensures raw & 0xFF == TrapGetc ==> e == Getc(rf, mem, con)
    ensures raw & 0xFF == TrapOut ==> e == Out(rf, mem, con)
    ensures raw & 0xFF == TrapPuts ==> e == Puts(rf, mem, con)
    ensures raw & 0xFF == TrapIn ==> e == In(rf, mem, con)
    ensures raw & 0xFF == TrapPutsp ==> e == Putsp(rf, mem, con)
    ensures e.mem == mem
    ensures SameExcept(rf, e.regs, {R0})
    ensures e.console.flushes == con.flushes || e.console.flushes == Flushed(con).flushes
    ensures e.console.input == con.input || (|con.input| > 0 && e.console.input == con.input[1..])
    ensures e.outcome == Halt <==> raw & 0xFF == TrapHalt
    ensures raw & 0xFF == TrapHalt ==> e == Effect(rf, mem, con, [], Halt)
    ensures raw & 0xFF < TrapGetc || raw & 0xFF > TrapHalt ==>
      e == Effect(rf, mem, con, [], Fault(UnknownTrapVector))
  {
    if raw & 0xFF == TrapGetc then Getc(rf, mem, con)
    else if raw & 0xFF == TrapOut then Out(rf, mem, con)
    else if raw & 0xFF == TrapPuts then Puts(rf, mem, con)
    else if raw & 0xFF == TrapIn then In(rf, mem, con)
    else if raw & 0xFF == TrapPutsp then Putsp(rf, mem, con)
    else if raw & 0xFF == TrapHalt then Effect(rf, mem, con, [], Halt)
    else Effect(rf, mem, con, [], Fault(UnknownTrapVector))
  }

}
