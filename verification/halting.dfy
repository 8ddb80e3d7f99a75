/** The spin-in-place halt: when it is reported, what it means, and that it is final. */
module Halting {
  import opened Words
  import opened Decoder
  import opened Memory
  import opened Registers
  import opened Control
  import opened PipelineUnits
  import opened Pipeline
  import opened Refinement
  import opened Invariance
  import opened Runs
  import Isa

  /** The machine sits on a J or JAL to itself, and a JAL has already linked. */
  predicate Spins(a: Isa.Arch, p: Word, link: bool) {
    && a.pc == p
    && ReadWord(a.mem, p).Some?
    && SelfJump(ReadWord(a.mem, p).value, p)
    && link == (OpField(ReadWord(a.mem, p).value) == 0x03)
    && (link ==> ReadReg(a.regs, 31) == Add(p, 4))
  }

  /** The next instruction is a J or JAL to itself. */
  predicate AtSelfJump(a: Isa.Arch) {
    ReadWord(a.mem, a.pc).Some? && SelfJump(ReadWord(a.mem, a.pc).value, a.pc)
  }

  lemma SelfJumpDecodes(word: Word, p: Word)
    requires SelfJump(word, p)
    ensures var d := Instr(word, if OpField(word) == 0x03 then Opcode.JAL else Opcode.J, JForm(TargetField(word)));
            Decode(word) == Some(d)
  {
  }

  lemma RelinkKeeps(r: Regs, value: Word)
    requires ReadReg(r, 31) == value
    ensures WriteReg(r, 31, value) == r
  {
  }

  /** The single-cycle CPU stays put on a spinning jump and reports Halt. */
  lemma SpinIsFixed(a: Isa.Arch, p: Word, link: bool)
    requires Spins(a, p, link)
    ensures Isa.Step(a) == (a, Halt)
  {
    hide JumpTarget;
    SelfJumpDecodes(ReadWord(a.mem, p).value, p);
    if link {
      RelinkKeeps(a.regs, Add(p, 4));
    }
  }

  /** Executing a self-jump once makes it spin. */
  lemma SelfJumpSpins(a: Isa.Arch)
    requires AtSelfJump(a)
    ensures Spins(Isa.Step(a).0, a.pc, OpField(ReadWord(a.mem, a.pc).value) == 0x03)
    ensures Isa.Step(a).0.(regs := a.regs) == a
    ensures Isa.Step(a).1 == Halt
  {
    hide JumpTarget;
    SelfJumpDecodes(ReadWord(a.mem, a.pc).value, a.pc);
  }

  // ---- The jump on its way through the pipeline ----

  predicate JumpControl(c: ControlWord, link: bool) {
    !c.memRead && !c.memWrite && !c.memToReg && c.regWrite == link
  }

  predicate InMem(x: ExMem, p: Word, link: bool) {
    && x.valid && x.isHalt && x.pc == p && JumpControl(x.ctrl, link)
    && (link ==> x.writeReg == 31 && x.alu.value == Add(p, 4))
  }

  predicate InWb(x: MemWb, p: Word, link: bool) {
    && x.valid && x.isHalt && x.pc == p && JumpControl(x.ctrl, link)
    && (link ==> x.writeReg == 31 && x.aluVal == Add(p, 4))
  }

  /** A halt flag in EX/MEM or MEM/WB belongs to a self-jump that has executed, with
      nothing but that jump behind it. */
  predicate HaltFlags(s: State) {
    && (s.exMem.isHalt ==> exists link :: Spins(Abs(s), s.exMem.pc, link) && InMem(s.exMem, s.exMem.pc, link))
    && (s.memWb.isHalt ==>
          exists link :: Spins(Abs(s), s.memWb.pc, link) && InWb(s.memWb, s.memWb.pc, link) &&
                         (s.exMem.valid ==> InMem(s.exMem, s.memWb.pc, link)))
  }

  lemma JumpInMemPasses(mem: Bytes, x: ExMem, p: Word, link: bool)
    requires InMem(x, p, link)
    ensures MemoryAccess(mem, x).trap.None? && MemoryAccess(mem, x).mem == mem
    ensures InWb(MemoryAccess(mem, x).next, p, link)
  {
  }

  lemma BubbleCarriesNoHalt(mem: Bytes, x: ExMem)
    ensures MemoryAccess(mem, x).next.isHalt ==> x.valid && x.isHalt && MemoryAccess(mem, x).next.pc == x.pc
  {
  }

  /** A self-jump in ID/EX of a coherent pipeline leaves EX as the halting jump. */
  lemma SelfJumpInEx(s: State, word: Word)
    requires Inv(s) && s.idEx.valid && Held(s.idEx) == FetchedWord(s.idEx.pc, Some(word)) && SelfJump(word, s.idEx.pc)
    ensures ExOf(s).trap.None? && ExOf(s).redirect.None?
    ensures InMem(ExOf(s).next, s.idEx.pc, OpField(word) == 0x03)
  {
    hide JumpTarget, ForwardOperands;
    SelfJumpDecodes(word, s.idEx.pc);
  }

  /** A halt flag in ID/EX is truthful. */
  lemma HaltInIdEx(s: State)
    requires Inv(s) && Coherent(s) && Commits(s)
    ensures s.idEx.isHalt <==> AtSelfJump(Abs(s))
    ensures AtSelfJump(Abs(s)) ==>
              ReadWord(Abs(s).mem, s.idEx.pc).Some? &&
              Held(s.idEx) == FetchedWord(s.idEx.pc, Some(ReadWord(Abs(s).mem, s.idEx.pc).value))
    ensures Abs(s).pc == s.idEx.pc
  {
    hide MemoryAccess, WriteBack, ReadWord, DecodeStage, SelfJump;
  }

  /** Behind the spinning jump only that jump moves on. */
  lemma SpinMovesOn(s: State, link: bool)
    requires Inv(s) && Coherent(s) && s.exMem.isHalt
    requires Spins(Abs(s), s.exMem.pc, link) && InMem(s.exMem, s.exMem.pc, link)
    ensures var n := Step(s).state; var p := s.exMem.pc;
            && Spins(Abs(n), p, link) && InWb(n.memWb, p, link)
            && (if Commits(s) then InMem(n.exMem, p, link) else n.exMem == EX_BUBBLE)
  {
    var p := s.exMem.pc;
    StepRefines(s);
    NextMemWb(s);
    NextExMem(s);
    EmptyExMem(s);
    SpinIsFixed(Abs(s), p, link);
    hide Step, Inv, Coherent, Isa.Step, Abs, MemoryAccess, ExecuteStage, Spins;
    JumpInMemPasses(s.mem, s.exMem, p, link);
    if Commits(s) {
      SpinningJumpInEx(s, p, link);
    }
  }

  lemma HaltFlagsKept(s: State)
    requires Inv(s) && Coherent(s) && HaltFlags(s)
    ensures HaltFlags(Step(s).state)
  {
    var n := Step(s).state;
    NextMemWb(s);
    BubbleCarriesNoHalt(s.mem, s.exMem);
    if s.exMem.isHalt {
      var link :| Spins(Abs(s), s.exMem.pc, link) && InMem(s.exMem, s.exMem.pc, link);
      hide Step, Inv, Coherent, Abs, MemoryAccess, Spins, Commits;
      SpinMovesOn(s, link);
    } else if n.exMem.isHalt {
      NewHalt(s);
    }
  }

  lemma NewHalt(s: State)
    requires Inv(s) && Coherent(s) && Step(s).state.exMem.isHalt
    ensures var n := Step(s).state;
            exists link :: Spins(Abs(n), n.exMem.pc, link) && InMem(n.exMem, n.exMem.pc, link)
  {
    StepRefines(s);
    NextExMem(s);
    ExShape(s);
    hide Step, Inv, Coherent, Isa.Step, Abs, MemoryAccess, ExecuteStage;
    HaltInIdEx(s);
    SelfJumpSpins(Abs(s));
    SelfJumpInEx(s, ReadWord(Abs(s).mem, s.idEx.pc).value);
  }

  lemma NextMemWb(s: State)
    ensures Step(s).state.memWb == MemoryAccess(s.mem, s.exMem).next
    ensures Step(s).state.regs == WriteBack(s.regs, s.memWb)
    ensures Step(s).state.mem == DrainedMem(s)
  {
    hide Fetch, DecodeStage, ExecuteStage, LoadUseHazard, MemoryAccess, WriteBack;
  }

  /** While the machine spins, the instruction in EX is the jump itself. */
  lemma SpinningJumpInEx(s: State, p: Word, link: bool)
    requires Inv(s) && Coherent(s) && Commits(s) && Spins(Abs(s), p, link)
    ensures s.idEx.pc == p && ExOf(s).trap.None? && ExOf(s).redirect.None?
    ensures InMem(ExOf(s).next, p, link)
  {
    hide Inv, Coherent, Step, SelfJump, Abs, ExecuteStage, FetchedWord, InMem;
    HaltInIdEx(s);
    SelfJumpInEx(s, ReadWord(Abs(s).mem, p).value);
  }

  lemma {:induction false} HaltFlagsAlways(s: State, n: nat)
    requires Drained(s) && StoresClear(Abs(s), CommitCount(s, n))
    ensures Inv(Run(s, n)) && Coherent(Run(s, n)) && HaltFlags(Run(s, n))
  {
    hide Step, Inv, Coherent, HaltFlags, Isa.Step, Overtakes, Abs, Drained, Commits;
    EmptyPipeline(s);
    RunRefinesFrom(s, n);
    if n == 0 {
      NoHaltFlags(s);
    } else {
      HaltFlagsAlways(s, n - 1);
      HaltFlagsKept(Run(s, n - 1));
    }
  }

  lemma NoHaltFlags(s: State)
    requires Drained(s)
    ensures HaltFlags(s)
  {
  }

  // ---- After the halt ----

  /** Everything in flight is the spinning jump, and the registers already hold all it does. */
  predicate Quiet(s: State, p: Word, link: bool) {
    && Inv(s) && Coherent(s)
    && Spins(Abs(s), p, link)
    && (s.exMem.valid ==> InMem(s.exMem, p, link))
    && (s.memWb.valid ==> InWb(s.memWb, p, link))
    && (link ==> ReadReg(s.regs, 31) == Add(p, 4))
  }

  lemma JumpWritesBack(regs: Regs, x: MemWb, p: Word, link: bool)
    requires !x.valid || InWb(x, p, link)
    requires link ==> ReadReg(regs, 31) == Add(p, 4)
    ensures WriteBack(regs, x) == regs
  {
    if x.valid && link {
      RelinkKeeps(regs, Add(p, 4));
    }
  }

  /** In a quiet machine the real registers, memory and CP0 are the architectural ones. */
  lemma QuietIsArchitectural(s: State, p: Word, link: bool)
    requires Quiet(s, p, link)
    ensures Abs(s) == Isa.Arch(s.regs, s.mem, s.cp0, p)
    ensures PendingTrap(s).None?
    ensures s.idEx.valid ==> s.idEx.pc == p && s.idEx.isHalt
    ensures s.ifId.valid && !s.idEx.valid ==> s.ifId.pc == p && s.ifId.isHalt
    ensures s.ifId.valid && s.idEx.valid ==> false
  {
    JumpWritesBack(s.regs, s.memWb, p, link);
    if s.exMem.valid {
      JumpInMemPasses(s.mem, s.exMem, p, link);
    } else {
      BubbleDrains(s);
    }
    JumpWritesBack(s.regs, MemoryAccess(s.mem, s.exMem).next, p, link);
    assert PendingTrap(s).None?;
    SpinningFlight(s, p, link);
  }

  lemma SpinningFlight(s: State, p: Word, link: bool)
    requires Inv(s) && Coherent(s) && Spins(Abs(s), p, link) && PendingTrap(s).None?
    ensures s.idEx.valid ==> s.idEx.pc == p && s.idEx.isHalt && s.idEx.decoded.fields.JForm?
    ensures s.ifId.valid ==> !s.idEx.valid && s.ifId.pc == p && s.ifId.isHalt
  {
    hide MemoryAccess, WriteBack, SelfJump, ReadWord;
    SelfJumpDecodes(ReadWord(Abs(s).mem, p).value, p);
    if !s.idEx.valid {
      NothingDiverts(s);
    }
  }

  lemma EmptyExMem(s: State)
    requires Inv(s)
    ensures s.exMem.valid || s.exMem == EX_BUBBLE
    ensures s.memWb.valid || s.memWb == MEM_BUBBLE
    ensures !s.idEx.valid ==> ExOf(s) == NO_EX
  {
  }

  lemma HaltResult(s: State)
    ensures Step(s).result == if PendingTrap(s).Some? || ExOf(s).trap.Some? then Exception
                              else if s.memWb.valid && s.memWb.isHalt then Halt else Ok
  {
    hide Fetch, DecodeStage, MemoryAccess, ExecuteDecoded, LoadUseHazard;
  }

  lemma QuietKept(s: State, p: Word, link: bool)
    requires Quiet(s, p, link)
    ensures Quiet(Step(s).state, p, link) && Abs(Step(s).state) == Abs(s)
    ensures ExOf(s).trap.None?
  {
    var n := Step(s).state;
    QuietIsArchitectural(s, p, link);
    StepRefines(s);
    StepKeeps(s);
    NextMemWb(s);
    NextExMem(s);
    EmptyExMem(s);
    CoherenceKept(s);
    SpinIsFixed(Abs(s), p, link);
    JumpWritesBack(s.regs, s.memWb, p, link);
    BubbleDrains(s.(exMem := EX_BUBBLE));
    hide Step, Inv, Coherent, Isa.Step, Abs, MemoryAccess, ExecuteStage, Spins, WriteBack, ReadReg;
    if s.exMem.valid {
      JumpInMemPasses(s.mem, s.exMem, p, link);
    }
    if Commits(s) {
      SpinningJumpInEx(s, p, link);
    }
  }

  /** One more cycle changes nothing but the pipeline registers, and never traps. */
  lemma QuietStep(s: State, p: Word, link: bool)
    requires Quiet(s, p, link)
    ensures var n := Step(s).state;
            Quiet(n, p, link) && n.regs == s.regs && n.mem == s.mem && n.cp0 == s.cp0
    ensures Step(s).result == if s.memWb.valid then Halt else Ok
  {
    QuietKept(s, p, link);
    QuietIsArchitectural(s, p, link);
    QuietIsArchitectural(Step(s).state, p, link);
    HaltResult(s);
    EmptyExMem(s);
    hide Step, Inv, Coherent, Abs, PendingTrap, ExOf;
  }

  lemma {:induction false} QuietForever(s: State, p: Word, link: bool, k: nat)
    requires Quiet(s, p, link)
    ensures var n := Run(s, k);
            Quiet(n, p, link) && n.regs == s.regs && n.mem == s.mem && n.cp0 == s.cp0
    ensures Step(Run(s, k)).result != Exception
  {
    hide Step, Quiet;
    if k != 0 {
      QuietForever(s, p, link, k - 1);
      QuietStep(Run(s, k - 1), p, link);
    }
    QuietStep(Run(s, k), p, link);
  }

  /** The cycle that reports Halt retires a self-jump, with only that jump behind it. */
  lemma HaltCycle(s: State)
    requires Inv(s) && Coherent(s) && HaltFlags(s) && s.memWb.isHalt
    ensures Step(s).result == Halt
    ensures exists link :: Quiet(Step(s).state, s.memWb.pc, link)
    ensures Abs(Step(s).state) == Abs(s)
  {
    var n := Step(s).state;
    var p := s.memWb.pc;
    var link :| Spins(Abs(s), p, link) && InWb(s.memWb, p, link) && (s.exMem.valid ==> InMem(s.exMem, p, link));
    StepRefines(s);
    StepKeeps(s);
    NextMemWb(s);
    NextExMem(s);
    EmptyExMem(s);
    CoherenceKept(s);
    HaltResult(s);
    SpinIsFixed(Abs(s), p, link);
    BubbleDrains(s.(exMem := EX_BUBBLE));
    JumpLinks(s.regs, s.memWb, p, link);
    hide Step, Inv, Coherent, Isa.Step, Abs, MemoryAccess, ExecuteStage, Spins, WriteBack, ReadReg, HaltFlags;
    if s.exMem.valid {
      JumpInMemPasses(s.mem, s.exMem, p, link);
    }
    if Commits(s) {
      SpinningJumpInEx(s, p, link);
    }
    assert Quiet(n, p, link);
  }

  lemma JumpLinks(regs: Regs, x: MemWb, p: Word, link: bool)
    requires InWb(x, p, link)
    ensures link ==> ReadReg(WriteBack(regs, x), 31) == Add(p, 4)
  {
  }

  /** Halt is final and means what it says: when a run reports Halt, the machine holds
      exactly what the single-cycle CPU holds after the instructions executed so far,
      that CPU sits on a J or JAL to itself, everything in flight is that jump, and no
      later cycle traps or changes registers, memory or CP0. */
  lemma HaltIsFinal(s: State, n: nat, k: nat)
    requires Drained(s) && StoresClear(Abs(s), CommitCount(s, n))
    requires Step(Run(s, n)).result == Halt
    ensures var h := Run(s, n + 1); var a := Isa.Run(Abs(s), CommitCount(s, n)); var later := Run(h, k);
            && AtSelfJump(a) && Isa.Step(a) == (a, Halt)
            && a == Isa.Arch(h.regs, h.mem, h.cp0, a.pc)
            && later.regs == h.regs && later.mem == h.mem && later.cp0 == h.cp0
            && Step(later).result != Exception
            && (later.idEx.valid ==> later.idEx.pc == a.pc)
            && (later.ifId.valid ==> later.ifId.pc == a.pc)
            && (later.exMem.valid ==> later.exMem.pc == a.pc)
            && (later.memWb.valid ==> later.memWb.pc == a.pc)
  {
    var t, h := Run(s, n), Run(s, n + 1);
    HaltFlagsAlways(s, n);
    RunRefines(s, n);
    EmptyPipeline(s);
    HaltResult(t);
    HaltCycle(t);
    var p := t.memWb.pc;
    var link :| Quiet(h, p, link);
    QuietIsArchitectural(h, p, link);
    QuietForever(h, p, link, k);
    QuietIsArchitectural(Run(h, k), p, link);
    SpinIsFixed(Abs(h), p, link);
    hide Step, Inv, Coherent, Isa.Step, HaltFlags, Overtakes, SelfJump, ReadWord, Abs, Drained;
    assert Abs(t) == Abs(h);
  }
}
