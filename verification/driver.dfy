/**
  One iteration of `execute_program`'s loop and a fuel-bounded run of it.
  The step fetches the word at PC, advances PC by one (wrapping) and only
  then dispatches, so every handler sees the incremented PC; HALT ends the
  run successfully and every fault ends it with that fault.
*/
module Driver {

  import opened Words
  import opened Wrappers
  import opened Opcodes
  import opened Registers
  import Memories
  import opened Outcomes
  import opened Instructions
  import Traps

  /** The instruction word at PC (`memory.read(pc)`). */
  function Fetch(rf: RegisterFile, mem: Memories.Memory): Word {
    Memories.Read(mem, Read(rf, PC))
  }

  /** The register file once the fetch has advanced PC by one (wrapping); nothing else changes. */
  function Advance(rf: RegisterFile): (rf': RegisterFile)
    ensures Read(rf', PC) == Read(rf, PC) + 1
    ensures forall r :: r != PC ==> Read(rf', r) == Read(rf, r)
  {
    Write(rf, PC, Read(rf, PC) + 1)
  }

  /**
    The fetch depends on nothing but PC and memory, and once PC has been
    advanced, the next fetch reads the word after the one just fetched
    (wrapping after 0xFFFF).
  */
  lemma FetchNext(rf: RegisterFile, rf': RegisterFile, mem: Memories.Memory)
    ensures Read(rf', PC) == Read(rf, PC) ==> Fetch(rf', mem) == Fetch(rf, mem)
    ensures Fetch(Advance(rf), mem) == Memories.Read(mem, Read(rf, PC) + 1)
  {
  }

  /**
    One loop iteration: fetch, PC := PC + 1, decode and execute. The decoder
    is total, so the "Invalid instruction" exit is never taken and the step is
    `execute` of the fetched word on the advanced registers; the outcome is
    HALT exactly for TRAP x25.
  */
  function Step(rf: RegisterFile, mem: Memories.Memory, con: Console): (e: Effect)
    ensures e == Execute(Fetch(rf, mem), Advance(rf), mem, con)
    ensures e.outcome != Fault(InvalidInstruction) && e.outcome != Fault(UnknownOpcode)
    ensures e.outcome == Halt <==>
      ExtractOpcode(Fetch(rf, mem)) == Some(Trap) && Fetch(rf, mem) & 0xFF == Traps.TrapHalt
  {
    match ExtractOpcode(Fetch(rf, mem))
    case None => Effect(Advance(rf), mem, con, [], Fault(InvalidInstruction))
    case Some(_) => Execute(Fetch(rf, mem), Advance(rf), mem, con)
  }

  /** How a run ended. */
  datatype Status = Halted | Failed(kind: FaultKind) | OutOfFuel

  /** The machine when a run stopped, the characters it wrote, and why it stopped. */
  datatype Run = Run(regs: RegisterFile, mem: Memories.Memory, console: Console, output: seq<char>, status: Status)

  /**
    The `loop` of `execute_program` over a step function, for at most `fuel`
    iterations: HALT returns success, any fault returns that fault, and
    running out of fuel stands for a program that is still running.
  */
  function Iterate(step: (RegisterFile, Memories.Memory, Console) -> Effect,
                   rf: RegisterFile, mem: Memories.Memory, con: Console, fuel: nat): (r: Run)
    ensures fuel == 0 ==> r == Run(rf, mem, con, [], OutOfFuel)
    ensures fuel > 0 && step(rf, mem, con).outcome == Halt ==> r.status == Halted
    ensures fuel > 0 && step(rf, mem, con).outcome.Fault? ==> r.status == Failed(step(rf, mem, con).outcome.kind)
    decreases fuel
  {
    if fuel == 0 then Run(rf, mem, con, [], OutOfFuel)
    else
      var e := step(rf, mem, con);
      match e.outcome
      case Continue =>
        var rest := Iterate(step, e.regs, e.mem, e.console, fuel - 1);
        rest.(output := e.output + rest.output)
      case Halt => Run(e.regs, e.mem, e.console, e.output, Halted)
      case Fault(kind) => Run(e.regs, e.mem, e.console, e.output, Failed(kind))
  }

  /** A run that stopped on its own is not changed by more fuel. */
  lemma {:induction false} IterateStable(step: (RegisterFile, Memories.Memory, Console) -> Effect,
                                         rf: RegisterFile, mem: Memories.Memory, con: Console, fuel: nat, more: nat)
    requires Iterate(step, rf, mem, con, fuel).status != OutOfFuel
    ensures Iterate(step, rf, mem, con, fuel + more) == Iterate(step, rf, mem, con, fuel)
    decreases fuel
  {
    var e := step(rf, mem, con);
    if e.outcome == Continue {
      IterateStable(step, e.regs, e.mem, e.console, fuel - 1, more);
    }
  }

  /**
    Running `a + b` steps is running `a` steps and, if the program is still
    running, `b` more from where it stopped; the outputs are concatenated.
  */
  lemma {:induction false} IterateSplit(step: (RegisterFile, Memories.Memory, Console) -> Effect,
                                        rf: RegisterFile, mem: Memories.Memory, con: Console, a: nat, b: nat)
    ensures var first := Iterate(step, rf, mem, con, a);
      var second := Iterate(step, first.regs, first.mem, first.console, b);
      first.status == OutOfFuel ==>
        Iterate(step, rf, mem, con, a + b) == second.(output := first.output + second.output)
    decreases a
  {
    if a > 0 {
      var e := step(rf, mem, con);
      if e.outcome == Continue {
        IterateSplit(step, e.regs, e.mem, e.console, a - 1, b);
        var rest := Iterate(step, e.regs, e.mem, e.console, a - 1);
        var second := Iterate(step, rest.regs, rest.mem, rest.console, b);
        assert e.output + (rest.output + second.output) == (e.output + rest.output) + second.output;
      }
    } else {
      var second := Iterate(step, rf, mem, con, b);
      assert [] + second.output == second.output;
    }
  }

  /** A fault the step never produces never ends a run. */
  lemma {:induction false} IterateNeverFails(step: (RegisterFile, Memories.Memory, Console) -> Effect, kind: FaultKind,
                                             rf: RegisterFile, mem: Memories.Memory, con: Console, fuel: nat)
    requires forall rf', mem', con' :: step(rf', mem', con').outcome != Fault(kind)
    ensures Iterate(step, rf, mem, con, fuel).status != Failed(kind)
    decreases fuel
  {
    if fuel > 0 {
      var e := step(rf, mem, con);
      if e.outcome == Continue {
        IterateNeverFails(step, kind, e.regs, e.mem, e.console, fuel - 1);
      }
    }
  }

  /** `execute_program` for at most `fuel` iterations of `Step`. */
  function Execution(rf: RegisterFile, mem: Memories.Memory, con: Console, fuel: nat): (r: Run)
    ensures r.status != Failed(InvalidInstruction) && r.status != Failed(UnknownOpcode)
  {
    IterateNeverFails(Step, InvalidInstruction, rf, mem, con, fuel);
    IterateNeverFails(Step, UnknownOpcode, rf, mem, con, fuel);
    Iterate(Step, rf, mem, con, fuel)
  }

}

/**
  What one fetch-execute step does, instruction class by instruction class:
  every handler sees the incremented PC.
*/
module StepProperties {

  import opened Words
  import opened Wrappers
  import opened Opcodes
  import opened Registers
  import Memories
  import opened Outcomes
  import opened Instructions
  import Traps
  import opened Driver

  /** HALT changes nothing but the advanced PC and writes nothing. */
  lemma StepHalt(rf: RegisterFile, mem: Memories.Memory, con: Console)
    requires ExtractOpcode(Fetch(rf, mem)) == Some(Trap) && Fetch(rf, mem) & 0xFF == Traps.TrapHalt
    ensures Step(rf, mem, con) == Effect(Advance(rf), mem, con, [], Halt)
  {
  }

  /** RES and RTI fault and change nothing but the advanced PC. */
  lemma StepReservedFaults(rf: RegisterFile, mem: Memories.Memory, con: Console)
    requires ExtractOpcode(Fetch(rf, mem)).value in {Res, Rti}
    ensures var e := Step(rf, mem, con);
      e.regs == Advance(rf) && e.mem == mem && e.console == con && e.output == [] && e.outcome.Fault?
  {
  }

  /** Every instruction other than BR, JMP and JSR leaves PC at the incremented PC. */
  lemma StepAdvancesPc(rf: RegisterFile, mem: Memories.Memory, con: Console)
    requires !Jumps(ExtractOpcode(Fetch(rf, mem)).value)
    ensures Read(Step(rf, mem, con).regs, PC) == Read(rf, PC) + 1
  {
    ExecutePcFrame(Fetch(rf, mem), Advance(rf), mem, con);
  }

  /**
    BR after the fetch: the condition is read from COND as it was before the
    step (the fetch writes only PC), and a taken branch lands at the
    incremented PC plus PCoffset9.
  */
  lemma BranchAfterFetch(raw: Word, rf: RegisterFile, advanced: RegisterFile, after: RegisterFile)
    requires advanced == Advance(rf)
    requires after == ExecBr(raw, advanced)
    ensures Read(after, PC) ==
      if BranchTaken(raw, Read(rf, COND)) then Read(advanced, PC) + PcOffset9(raw) else Read(advanced, PC)
    ensures SameExcept(rf, after, {PC})
  {
    assert Read(advanced, COND) == Read(rf, COND);
  }

  /** A fetched BR runs the BR handler on the advanced register file and leaves memory alone. */
  lemma StepRunsBranch(rf: RegisterFile, mem: Memories.Memory, con: Console)
    requires ExtractOpcode(Fetch(rf, mem)) == Some(Br)
    ensures Step(rf, mem, con).regs == ExecBr(Fetch(rf, mem), Advance(rf))
    ensures Step(rf, mem, con).mem == mem
  {
    ExecuteDispatchControl(Fetch(rf, mem), Advance(rf), mem, con);
  }

  /**
    A fetched BR tests COND as it was before the step and lands at the
    incremented PC plus PCoffset9 when taken, at the incremented PC otherwise;
    memory is untouched.
  */
  lemma StepBranch(rf: RegisterFile, mem: Memories.Memory, con: Console)
    requires ExtractOpcode(Fetch(rf, mem)) == Some(Br)
    ensures Read(Step(rf, mem, con).regs, PC) ==
      if BranchTaken(Fetch(rf, mem), Read(rf, COND)) then Read(Advance(rf), PC) + PcOffset9(Fetch(rf, mem))
      else Read(Advance(rf), PC)
    ensures Step(rf, mem, con).mem == mem
  {
    StepRunsBranch(rf, mem, con);
    BranchAfterFetch(Fetch(rf, mem), rf, Advance(rf), ExecBr(Fetch(rf, mem), Advance(rf)));
  }

  /** JSR and JSRR save the incremented PC in R7, the return address. */
  lemma StepLinks(rf: RegisterFile, mem: Memories.Memory, con: Console)
    requires ExtractOpcode(Fetch(rf, mem)) == Some(Jsr)
    ensures Read(Step(rf, mem, con).regs, R7) == Read(rf, PC) + 1
  {
  }

  /** A fetched JSR or JSRR runs the JSR handler on the advanced register file and leaves memory alone. */
  lemma StepRunsSubroutine(rf: RegisterFile, mem: Memories.Memory, con: Console)
    requires ExtractOpcode(Fetch(rf, mem)) == Some(Jsr)
    ensures Step(rf, mem, con).regs == ExecJsr(Fetch(rf, mem), Advance(rf))
    ensures Step(rf, mem, con).mem == mem
  {
    ExecuteDispatchControl(Fetch(rf, mem), Advance(rf), mem, con);
  }

  /**
    Where a fetched JSR or JSRR goes: JSR to the incremented PC plus
    PCoffset11, JSRR to BaseR as it was before the step, except that JSRR
    through R7 reads R7 after the link was written and so stays at the
    incremented PC.
  */
  lemma StepSubroutine(rf: RegisterFile, mem: Memories.Memory, con: Console)
    requires ExtractOpcode(Fetch(rf, mem)) == Some(Jsr)
    ensures (Fetch(rf, mem) >> 11) & 0x1 == 1 ==>
      Read(Step(rf, mem, con).regs, PC) == Read(Advance(rf), PC) + PcOffset11(Fetch(rf, mem))
    ensures (Fetch(rf, mem) >> 11) & 0x1 == 0 && RegAt6(Fetch(rf, mem)) != R7 ==>
      Read(Step(rf, mem, con).regs, PC) == Read(rf, RegAt6(Fetch(rf, mem)))
    ensures (Fetch(rf, mem) >> 11) & 0x1 == 0 && RegAt6(Fetch(rf, mem)) == R7 ==>
      Read(Step(rf, mem, con).regs, PC) == Read(Advance(rf), PC)
    ensures Step(rf, mem, con).mem == mem
  {
    StepRunsSubroutine(rf, mem, con);
    assert RegAt6(Fetch(rf, mem)).IsGeneral();
    assert Read(Advance(rf), RegAt6(Fetch(rf, mem))) == Read(rf, RegAt6(Fetch(rf, mem)));
  }

  /** A fetched LD runs the LD handler on the advanced register file and leaves memory alone. */
  lemma StepRunsLoad(rf: RegisterFile, mem: Memories.Memory, con: Console)
    requires ExtractOpcode(Fetch(rf, mem)) == Some(Ld)
    ensures Step(rf, mem, con).regs == ExecLd(Fetch(rf, mem), Advance(rf), mem)
    ensures Step(rf, mem, con).mem == mem
  {
    ExecuteDispatchLoad(Fetch(rf, mem), Advance(rf), mem, con);
  }

  /** A fetched LD reads the word at the incremented PC plus PCoffset9 into DR and leaves memory alone. */
  lemma StepLoad(rf: RegisterFile, mem: Memories.Memory, con: Console)
    requires ExtractOpcode(Fetch(rf, mem)) == Some(Ld)
    ensures Read(Step(rf, mem, con).regs, RegAt9(Fetch(rf, mem))) ==
      Memories.Read(mem, Read(Advance(rf), PC) + PcOffset9(Fetch(rf, mem)))
    ensures Step(rf, mem, con).mem == mem
  {
    StepRunsLoad(rf, mem, con);
  }

  /** A fetched LDI runs the LDI handler on the advanced register file and leaves memory alone. */
  lemma StepRunsLoadIndirect(rf: RegisterFile, mem: Memories.Memory, con: Console)
    requires ExtractOpcode(Fetch(rf, mem)) == Some(Ldi)
    ensures Step(rf, mem, con).regs == ExecLdi(Fetch(rf, mem), Advance(rf), mem)
    ensures Step(rf, mem, con).mem == mem
  {
    ExecuteDispatchLoad(Fetch(rf, mem), Advance(rf), mem, con);
  }

  /** A fetched LDI reads into DR the word whose address is stored at the incremented PC plus PCoffset9. */
  lemma StepLoadIndirect(rf: RegisterFile, mem: Memories.Memory, con: Console)
    requires ExtractOpcode(Fetch(rf, mem)) == Some(Ldi)
    ensures Read(Step(rf, mem, con).regs, RegAt9(Fetch(rf, mem))) ==
      Memories.Read(mem, Memories.Read(mem, Read(Advance(rf), PC) + PcOffset9(Fetch(rf, mem))))
    ensures Step(rf, mem, con).mem == mem
  {
    StepRunsLoadIndirect(rf, mem, con);
  }

  /** A fetched STI runs the STI handler on the advanced register file and changes no register but PC. */
  lemma StepRunsStoreIndirect(rf: RegisterFile, mem: Memories.Memory, con: Console)
    requires ExtractOpcode(Fetch(rf, mem)) == Some(Sti)
    ensures Step(rf, mem, con).mem == ExecSti(Fetch(rf, mem), Advance(rf), mem)
    ensures Step(rf, mem, con).regs == Advance(rf)
  {
    ExecuteDispatchStore(Fetch(rf, mem), Advance(rf), mem, con);
  }

  /** A fetched STI writes SR, as it was before the step, to the cell whose address is stored at the incremented PC plus PCoffset9. */
  lemma StepStoreIndirect(rf: RegisterFile, mem: Memories.Memory, con: Console)
    requires ExtractOpcode(Fetch(rf, mem)) == Some(Sti)
    ensures Memories.Read(Step(rf, mem, con).mem, Memories.Read(mem, Read(Advance(rf), PC) + PcOffset9(Fetch(rf, mem)))) ==
      Read(rf, RegAt9(Fetch(rf, mem)))
    ensures Step(rf, mem, con).regs == Advance(rf)
  {
    StepRunsStoreIndirect(rf, mem, con);
    assert Read(Advance(rf), RegAt9(Fetch(rf, mem))) == Read(rf, RegAt9(Fetch(rf, mem)));
  }

  /** A fetched LEA runs the LEA handler on the advanced register file. */
  lemma StepRunsLea(rf: RegisterFile, mem: Memories.Memory, con: Console)
    requires ExtractOpcode(Fetch(rf, mem)) == Some(Lea)
    ensures Step(rf, mem, con).regs == ExecLea(Fetch(rf, mem), Advance(rf))
  {
    ExecuteDispatchLoad(Fetch(rf, mem), Advance(rf), mem, con);
  }

  /** LEA yields the incremented PC plus PCoffset9, the address itself. */
  lemma StepLea(rf: RegisterFile, mem: Memories.Memory, con: Console)
    requires ExtractOpcode(Fetch(rf, mem)) == Some(Lea)
    ensures Read(Step(rf, mem, con).regs, RegAt9(Fetch(rf, mem))) == Read(Advance(rf), PC) + PcOffset9(Fetch(rf, mem))
  {
    StepRunsLea(rf, mem, con);
  }

  /** A fetched ST runs the ST handler on the advanced register file. */
  lemma StepRunsStore(rf: RegisterFile, mem: Memories.Memory, con: Console)
    requires ExtractOpcode(Fetch(rf, mem)) == Some(St)
    ensures Step(rf, mem, con).mem == ExecSt(Fetch(rf, mem), Advance(rf), mem)
  {
    ExecuteDispatchStore(Fetch(rf, mem), Advance(rf), mem, con);
  }

  /** ST writes SR, as it was before the step, to the cell at the incremented PC plus PCoffset9. */
  lemma StepStore(rf: RegisterFile, mem: Memories.Memory, con: Console)
    requires ExtractOpcode(Fetch(rf, mem)) == Some(St)
    ensures Memories.Read(Step(rf, mem, con).mem, Read(Advance(rf), PC) + PcOffset9(Fetch(rf, mem))) ==
      Read(rf, RegAt9(Fetch(rf, mem)))
  {
    StepRunsStore(rf, mem, con);
    assert Read(Advance(rf), RegAt9(Fetch(rf, mem))) == Read(rf, RegAt9(Fetch(rf, mem)));
  }

  /** A program whose first instruction is TRAP x25 halts at once, with only the PC advanced and nothing printed. */
  lemma RunHaltsAtOnce(rf: RegisterFile, mem: Memories.Memory, con: Console, fuel: nat)
    requires fuel > 0
    requires ExtractOpcode(Fetch(rf, mem)) == Some(Trap) && Fetch(rf, mem) & 0xFF == Traps.TrapHalt
    ensures Execution(rf, mem, con, fuel) == Run(Advance(rf), mem, con, [], Halted)
  {
    StepHalt(rf, mem, con);
  }

}
