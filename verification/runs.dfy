/** Whole runs: every run of the pipeline refines a run of the single-cycle CPU, and
    both take the same exceptions in the same states. */
module Runs {
  import opened Cp0
  import opened Control
  import opened PipelineUnits
  import opened Pipeline
  import opened ExecAgreement
  import opened Refinement
  import opened Invariance
  import Isa

  /** Instructions executed in the first `n` cycles. */
  function CommitCount(s: State, n: nat): nat {
    if n == 0 then 0 else CommitCount(s, n - 1) + if Commits(Run(s, n - 1)) then 1 else 0
  }

  /** None of the first `k` instructions changes one of the next two words to be executed. */
  predicate StoresClear(a: Isa.Arch, k: nat) {
    forall i: nat | i < k :: !Overtakes(Isa.Run(a, i))
  }

  lemma {:induction false} RunKeeps(s: State, n: nat)
    requires Inv(s)
    ensures Inv(Run(s, n))
  {
    hide Inv, Step;
    if n != 0 {
      RunKeeps(s, n - 1);
      StepKeeps(Run(s, n - 1));
    }
  }

  lemma {:induction false} RunRefinesFrom(s: State, n: nat)
    requires Inv(s) && Coherent(s)
    requires StoresClear(Abs(s), CommitCount(s, n))
    ensures Inv(Run(s, n)) && Coherent(Run(s, n))
    ensures Abs(Run(s, n)) == Isa.Run(Abs(s), CommitCount(s, n))
  {
    hide Step, Isa.Step, Inv, Coherent, Abs, Commits, Overtakes, StaleFetch;
    if n != 0 {
      var t := Run(s, n - 1);
      RunRefinesFrom(s, n - 1);
      StepKeeps(t);
      StepRefines(t);
      CoherenceKept(t);
      StaleExactly(t);
    }
  }

  /** Every run of every program: `n` cycles of the pipeline, started empty, have done
      exactly the first `CommitCount(s, n)` steps of the single-cycle CPU. */
  lemma RunRefines(s: State, n: nat)
    requires Drained(s)
    requires StoresClear(Isa.Arch(s.regs, s.mem, s.cp0, s.pc), CommitCount(s, n))
    ensures Abs(Run(s, n)) == Isa.Run(Isa.Arch(s.regs, s.mem, s.cp0, s.pc), CommitCount(s, n))
    ensures Inv(Run(s, n)) && Coherent(Run(s, n))
  {
    EmptyPipeline(s);
    RunRefinesFrom(s, n);
  }

  // ---- Exactly when the words in flight stay right ----

  /** The words in flight that are going to be executed match memory for `n` cycles. */
  predicate AllCoherent(s: State, n: nat) {
    forall i: nat | i <= n :: Coherent(Run(s, i))
  }

  /** No store in EX overtakes a fetch in the first `n` cycles. */
  predicate NeverStale(s: State, n: nat) {
    forall i: nat | i < n :: !StaleFetch(Run(s, i))
  }

  lemma OneCycleMore(s: State, n: nat)
    ensures AllCoherent(s, n + 1) <==> AllCoherent(s, n) && Coherent(Run(s, n + 1))
    ensures NeverStale(s, n + 1) <==> NeverStale(s, n) && !StaleFetch(Run(s, n))
    ensures AllCoherent(s, n) ==> Coherent(Run(s, n))
    ensures AllCoherent(s, 0) <==> Coherent(s)
  {
    hide Coherent, StaleFetch, Run;
    assert Run(s, 0) == s by {
      RunsFrom(s);
    }
  }

  lemma RunsFrom(s: State)
    ensures Run(s, 0) == s
  {
  }

  /** In terms of the pipeline: no cycle has a store overtaking a fetch. */
  lemma {:induction false} CoherentExactly(s: State, n: nat)
    requires Inv(s) && Coherent(s)
    ensures AllCoherent(s, n) <==> NeverStale(s, n)
  {
    hide Step, Inv, Coherent, StaleFetch, AllCoherent, NeverStale;
    if n == 0 {
      OneCycleMore(s, 0);
      assert NeverStale(s, 0) by {
        NothingStaleYet(s);
      }
    } else {
      CoherentExactly(s, n - 1);
      OneCycleMore(s, n - 1);
      RunKeeps(s, n - 1);
      if AllCoherent(s, n - 1) {
        CoherenceKept(Run(s, n - 1));
      }
    }
  }

  lemma NothingStaleYet(s: State)
    ensures NeverStale(s, 0)
  {
  }

  /** In terms of the program alone: none of the instructions executed changes one of the
      next two words to be executed. */
  lemma {:induction false} StoresClearExactly(s: State, n: nat)
    requires Inv(s) && Coherent(s)
    ensures NeverStale(s, n) <==> StoresClear(Abs(s), CommitCount(s, n))
  {
    hide Step, Isa.Step, Inv, Coherent, Abs, Commits, Overtakes, StaleFetch, NeverStale, StoresClear;
    if n == 0 {
      NothingStaleYet(s);
      NothingStoredYet(Abs(s));
    } else {
      var t := Run(s, n - 1);
      var k := CommitCount(s, n - 1);
      StoresClearExactly(s, n - 1);
      OneCycleMore(s, n - 1);
      OneStoreMore(Abs(s), k);
      if StoresClear(Abs(s), k) {
        RunRefinesFrom(s, n - 1);
        StaleExactly(t);
      }
    }
  }

  lemma NothingStoredYet(a: Isa.Arch)
    ensures StoresClear(a, 0)
  {
  }

  lemma OneStoreMore(a: Isa.Arch, k: nat)
    ensures StoresClear(a, k + 1) <==> StoresClear(a, k) && !Overtakes(Isa.Run(a, k))
  {
    hide Overtakes, Isa.Run;
  }

  /** The exact condition on the program for the words in flight to match memory throughout
      a run from an empty pipeline; under it the run is a run of the single-cycle CPU. */
  lemma ProgramExactly(s: State, n: nat)
    requires Drained(s)
    ensures var a := Isa.Arch(s.regs, s.mem, s.cp0, s.pc);
            && (AllCoherent(s, n) <==> StoresClear(a, CommitCount(s, n)))
            && (AllCoherent(s, n) ==> Abs(Run(s, n)) == Isa.Run(a, CommitCount(s, n)))
  {
    hide Step, Isa.Step, Inv, Coherent, AllCoherent, NeverStale, StoresClear, Drained, Abs;
    EmptyPipeline(s);
    CoherentExactly(s, n);
    StoresClearExactly(s, n);
    if AllCoherent(s, n) {
      RunRefines(s, n);
    }
  }

  /** The refinement under the condition on the pipeline. */
  lemma RunRefinesUnlessStale(s: State, n: nat)
    requires Drained(s) && NeverStale(s, n)
    ensures Abs(Run(s, n)) == Isa.Run(Isa.Arch(s.regs, s.mem, s.cp0, s.pc), CommitCount(s, n))
  {
    hide Step, Isa.Step, Inv, Coherent, NeverStale, StoresClear, Drained, Abs;
    EmptyPipeline(s);
    StoresClearExactly(s, n);
    RunRefines(s, n);
  }

  // ---- Precise exceptions ----

  /** The states in which the first `n` single-cycle steps trapped. */
  function IsaTraps(a: Isa.Arch, n: nat): seq<Isa.Arch> {
    if n == 0 then []
    else IsaTraps(a, n - 1) + if Isa.Step(Isa.Run(a, n - 1)).1 == Exception then [Isa.Run(a, n)] else []
  }

  /** What is left in the machine one cycle after it reported an exception, with the
      PC and CP0 it reported. */
  function LeftBehind(n: State): Isa.Arch {
    var after := Step(n).state;
    Isa.Arch(after.regs, after.mem, n.cp0, n.pc)
  }

  function PipelineTraps(s: State, n: nat): seq<Isa.Arch> {
    if n == 0 then []
    else PipelineTraps(s, n - 1) + if Step(Run(s, n - 1)).result == Exception then [LeftBehind(Run(s, n))] else []
  }

  function Pending(s: State): seq<Isa.Arch> {
    if PendingTrap(s).Some? then [Abs(s)] else []
  }

  /** When a cycle reports an exception, every younger instruction is gone, only
      MEM/WB can hold an older one, and it completes in the next cycle. */
  lemma ExceptionCycle(s: State)
    requires Inv(s) && Step(s).result == Exception
    ensures var n := Step(s).state;
            && !n.ifId.valid && !n.idEx.valid && !n.exMem.valid && n.pc == EXCEPTION_VECTOR
            && LeftBehind(n) == Abs(n)
            && Step(n).state.cp0 == n.cp0 && Drained(Step(n).state.(ifId := IF_BUBBLE))
  {
    var n := Step(s).state;
    StepKeeps(s);
    ResultCases(s);
    if PendingTrap(s).Some? {
      MemTrapCycle(s);
    } else {
      FlushCycle(s);
      TrapLeavesBubble(s);
    }
    AfterFlush(n);
  }

  lemma ResultCases(s: State)
    ensures Step(s).result == Exception <==> PendingTrap(s).Some? || ExOf(s).trap.Some?
    ensures PendingTrap(s).None? && ExOf(s).trap.Some? ==> Commits(s)
  {
    hide Fetch, DecodeStage, MemoryAccess, ExecuteDecoded, LoadUseHazard;
  }

  lemma AfterFlush(n: State)
    requires Inv(n) && n.ifId == IF_BUBBLE && n.idEx == ID_BUBBLE && n.exMem == EX_BUBBLE
    ensures LeftBehind(n) == Abs(n)
    ensures Step(n).state.cp0 == n.cp0 && Drained(Step(n).state.(ifId := IF_BUBBLE))
  {
    hide Step, Fetch, WriteBack, Inv;
    BubbleDrains(n);
    IdleCycle(n);
  }

  /** The trap a committing cycle leaves pending, or takes at once, is the single-cycle one. */
  lemma TrapAgrees(s: State)
    requires Inv(s) && Coherent(s) && Commits(s)
    ensures Isa.Step(Abs(s)).1 == Exception <==> ExOf(s).trap.Some? || PendingTrap(Step(s).state).Some?
    ensures !(ExOf(s).trap.Some? && PendingTrap(Step(s).state).Some?)
  {
    CommitRefines(s);
    NextExMem(s);
    StepCoherentWith(s);
    TrapLeavesBubble(s);
    BubbleDrains(s.(exMem := EX_BUBBLE));
    hide Step, Inv, Coherent, Isa.Step, ExecuteStage, MemoryAccess, CoherentWith, Cp0After;
  }

  lemma NoTrapWithoutCommit(s: State)
    requires Inv(s) && !Commits(s)
    ensures PendingTrap(Step(s).state).None?
  {
    if PendingTrap(s).Some? {
      MemTrapCycle(s);
    } else {
      hide Step, Fetch, DecodeStage, MemoryAccess, WriteBack, Inv;
      IdleCycle(s);
      BubbleDrains(Step(s).state);
    }
  }

  lemma {:induction false} TrapsFrom(s: State, n: nat)
    requires Inv(s) && Coherent(s) && PendingTrap(s).None?
    requires StoresClear(Abs(s), CommitCount(s, n))
    ensures PipelineTraps(s, n) + Pending(Run(s, n)) == IsaTraps(Abs(s), CommitCount(s, n))
  {
    hide Step, Isa.Step, Inv, Coherent, Abs, Commits, Overtakes, LeftBehind, PendingTrap, ExOf;
    if n != 0 {
      var t := Run(s, n - 1);
      TrapsFrom(s, n - 1);
      RunRefinesFrom(s, n - 1);
      StepRefines(t);
      ResultCases(t);
      if Step(t).result == Exception {
        ExceptionCycle(t);
      }
      if Commits(t) {
        TrapAgrees(t);
        CommitNotPending(t);
      } else {
        NoTrapWithoutCommit(t);
        if PendingTrap(t).None? {
          NotCommittedNoTrap(t);
        }
      }
    }
  }

  /** Both CPUs trap in the same states, in the same order: registers, memory, Status,
      Cause, EPC, BadVAddr and PC alike. At most the last trap is still on its way
      through MEM. */
  lemma PreciseExceptions(s: State, n: nat)
    requires Drained(s)
    requires StoresClear(Isa.Arch(s.regs, s.mem, s.cp0, s.pc), CommitCount(s, n))
    ensures PipelineTraps(s, n) + Pending(Run(s, n)) == IsaTraps(Isa.Arch(s.regs, s.mem, s.cp0, s.pc), CommitCount(s, n))
  {
    EmptyPipeline(s);
    BubbleDrains(s);
    hide Step, Isa.Step, MemoryAccess;
    TrapsFrom(s, n);
  }

  lemma CommitNotPending(s: State)
    requires Commits(s)
    ensures PendingTrap(s).None?
  {
  }

  lemma NotCommittedNoTrap(s: State)
    requires !Commits(s) && PendingTrap(s).None?
    ensures ExOf(s).trap.None?
  {
  }
}
