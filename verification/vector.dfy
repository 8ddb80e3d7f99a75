/** A memory too small to hold the exception vector: the first trap is the end of the program. */
module Vector {
  import opened Words
  import opened Decoder
  import opened Memory
  import opened Cp0
  import opened Control
  import opened PipelineUnits
  import opened Pipeline
  import opened Refinement
  import opened Invariance
  import opened Runs
  import opened Halting
  import Isa

  /** Memory does not reach the exception vector. */
  predicate NoHandler(mem: Bytes) {
    |mem| < EXCEPTION_VECTOR + 4
  }

  predicate Stuck(a: Isa.Arch) {
    a.pc == EXCEPTION_VECTOR && NoHandler(a.mem) && InException(a.cp0)
  }

  /** `later` differs from `a` only in Status, Cause and BadVAddr. */
  predicate SameButCause(a: Isa.Arch, later: Isa.Arch) {
    later.regs == a.regs && later.mem == a.mem && later.cp0.epc == a.cp0.epc && later.pc == a.pc
  }

  lemma FirstTrapSticks(a: Isa.Arch)
    requires NoHandler(a.mem) && Isa.Step(a).1 == Exception
    ensures Stuck(Isa.Step(a).0)
  {
    hide InException, Decode, ReadWord, LoadData, StoreData, Raise;
    forall c: Cp0State, code, pc: Word, bad: Word ensures InException(Raise(c, code, pc, bad)) {
      RaiseBits(c, code, pc, bad, 0);
    }
  }

  lemma StuckStep(a: Isa.Arch)
    requires Stuck(a)
    ensures Isa.Step(a) == (Isa.RaiseAt(a, ExceptionCode.AdEL, EXCEPTION_VECTOR), Exception)
    ensures Stuck(Isa.Step(a).0) && SameButCause(a, Isa.Step(a).0)
  {
    RaiseBits(a.cp0, ExceptionCode.AdEL, a.pc, a.pc, 0);
    hide Bit, BitOp;
  }

  /** After the first trap the single-cycle CPU raises AdEL at the vector for ever. */
  lemma {:induction false} StuckForever(a: Isa.Arch, k: nat)
    requires Stuck(a)
    ensures Stuck(Isa.Run(a, k)) && SameButCause(a, Isa.Run(a, k))
    ensures Isa.Step(Isa.Run(a, k)).1 == Exception
    ensures var c := Isa.Step(Isa.Run(a, k)).0.cp0; c.last == ExceptionCode.AdEL && c.badVAddr == EXCEPTION_VECTOR
  {
    hide Isa.Step, Stuck;
    if k != 0 {
      StuckForever(a, k - 1);
      StuckStep(Isa.Run(a, k - 1));
    }
    StuckStep(Isa.Run(a, k));
  }

  // ---- The pipeline ----

  /** Drained by a trap, and fetching nothing but faults at the vector. */
  predicate Lost(s: State) {
    && Inv(s)
    && NoHandler(s.mem) && InException(s.cp0)
    && !s.exMem.valid && !s.memWb.valid
    && NextPc(s) == EXCEPTION_VECTOR
    && (s.ifId.valid ==> s.ifId.fetchFault)
    && (s.idEx.valid ==> s.idEx.earlyTrap == Some(ExceptionCode.AdEL))
  }

  lemma FetchBeyond(mem: Bytes, pc: Word)
    requires NoHandler(mem) && EXCEPTION_VECTOR <= pc
    ensures Fetch(mem, pc).fetchFault
  {
  }

  lemma LostStep(s: State)
    requires Lost(s)
    ensures var n := Step(s).state;
            Lost(n) && n.regs == s.regs && n.mem == s.mem && n.cp0.epc == s.cp0.epc
    ensures Step(s).result == (if s.idEx.valid then Exception else Ok)
    ensures Step(s).result == Exception ==>
              Step(s).state.cp0 == Raise(s.cp0, ExceptionCode.AdEL, EXCEPTION_VECTOR, EXCEPTION_VECTOR)
  {
    StepKeeps(s);
    HaltResult(s);
    EmptyExMem(s);
    BubbleDrains(s);
    RaiseBits(s.cp0, ExceptionCode.AdEL, EXCEPTION_VECTOR, EXCEPTION_VECTOR, 0);
    FetchLatched(DrainedMem(s), s.pc);
    if s.ifId.valid {
      HeldDecode(WriteBack(s.regs, s.memWb), s.ifId);
    }
    if !s.idEx.valid {
      FetchBeyond(s.mem, s.pc);
      hide Step, Fetch, MemoryAccess, Bit, InException, Raise;
      IdleCycle(s);
    } else {
      hide Step, Fetch, MemoryAccess, Bit, InException, Raise;
      FlushCycle(s);
    }
  }

  lemma {:induction false} LostForever(s: State, k: nat)
    requires Lost(s)
    ensures var n := Run(s, k);
            Lost(n) && n.regs == s.regs && n.mem == s.mem && n.cp0.epc == s.cp0.epc
  {
    hide Step, Lost;
    if k != 0 {
      LostForever(s, k - 1);
      LostStep(Run(s, k - 1));
    }
  }

  lemma {:induction false} MemorySizeKept(s: State, n: nat)
    ensures |Run(s, n).mem| == |s.mem|
  {
    hide Step, MemoryAccess;
    if n != 0 {
      MemorySizeKept(s, n - 1);
      NextMemWb(Run(s, n - 1));
      AccessKeepsSize(Run(s, n - 1).mem, Run(s, n - 1).exMem);
    }
  }

  lemma AccessKeepsSize(mem: Bytes, x: ExMem)
    ensures |MemoryAccess(mem, x).mem| == |mem|
  {
  }

  /** From one cycle after its first trap, the pipeline only ever raises AdEL at the
      vector: EPC, registers and memory are frozen for the rest of the run. */
  lemma UnmappedVectorAbsorbs(s: State, n: nat, k: nat)
    requires Drained(s) && NoHandler(s.mem)
    requires Step(Run(s, n)).result == Exception
    ensures var first := Run(s, n + 2); var later := Run(first, k);
            && first.cp0 == Run(s, n + 1).cp0
            && later.regs == first.regs && later.mem == first.mem && later.cp0.epc == first.cp0.epc
            && Step(later).result == (if later.idEx.valid then Exception else Ok)
            && (later.idEx.valid ==> later.idEx.pc == EXCEPTION_VECTOR)
            && (Step(later).result == Exception ==>
                  Step(later).state.cp0 == Raise(later.cp0, ExceptionCode.AdEL, EXCEPTION_VECTOR, EXCEPTION_VECTOR))
  {
    EmptyPipeline(s);
    RunKeeps(s, n);
    var t := Run(s, n);
    MemorySizeKept(s, n);
    TrapThenLost(t);
    assert Run(s, n + 2) == Step(Step(t).state).state;
    LostForever(Run(s, n + 2), k);
    LostStep(Run(Run(s, n + 2), k));
    hide Step, Inv, Drained;
  }

  /** The cycle after a trap completes what MEM/WB held and fetches the vector in vain. */
  lemma TrapThenLost(s: State)
    requires Inv(s) && NoHandler(s.mem) && Step(s).result == Exception
    ensures Lost(Step(Step(s).state).state)
    ensures Step(Step(s).state).state.cp0 == Step(s).state.cp0
  {
    var n := Step(s).state;
    StepKeeps(s);
    StepKeeps(n);
    ExceptionCycle(s);
    NextMemWb(s);
    AccessKeepsSize(s.mem, s.exMem);
    TrapEnters(s);
    BubbleDrains(n);
    FetchBeyond(n.mem, n.pc);
    FetchLatched(n.mem, n.pc);
    hide Step, Fetch, MemoryAccess, InException, WriteBack;
    IdleCycle(n);
  }

  lemma TrapEnters(s: State)
    requires Step(s).result == Exception
    ensures InException(Step(s).state.cp0)
  {
    ResultCases(s);
    RaiseEnters(s);
    hide Fetch, DecodeStage, MemoryAccess, ExecuteStage, LoadUseHazard, InException, Raise, WriteBack;
  }

  lemma RaiseEnters(s: State)
    ensures forall c: Cp0State, code, pc: Word, bad: Word :: InException(Raise(c, code, pc, bad))
  {
    hide InException, Raise;
    forall c: Cp0State, code, pc: Word, bad: Word ensures InException(Raise(c, code, pc, bad)) {
      RaiseBits(c, code, pc, bad, 0);
    }
  }
}
