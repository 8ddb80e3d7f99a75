/** How fast the pipeline goes: bounded progress, reaching the halt, and exact cycle
    accounting. */
module Progress {
  import opened Words
  import opened Decoder
  import opened Memory
  import opened Control
  import opened PipelineUnits
  import opened Pipeline
  import opened Refinement
  import opened Invariance
  import opened Runs
  import opened Halting
  import Alu
  import Isa

  // ---- Bounded progress ----

  /** A load-use stall puts a bubble into EX, so it never lasts two cycles. */
  lemma StallOnce(s: State)
    requires Inv(s) && LoadUseHazard(s.idEx, s.ifId)
    ensures !LoadUseHazard(Step(s).state.idEx, Step(s).state.ifId)
    ensures PendingTrap(s).None? ==> Step(s).state.ifId == s.ifId && Step(s).state.pc == s.pc && Commits(s)
  {
    if PendingTrap(s).Some? {
      MemTrapCycle(s);
    } else {
      LoadFlows(s);
      FallThroughCycle(s);
    }
  }

  /** A load in EX neither traps there nor redirects. */
  lemma LoadFlows(s: State)
    requires Inv(s) && s.idEx.valid && s.idEx.ctrl.memRead
    ensures ExOf(s).trap.None? && ExOf(s).redirect.None?
  {
    hide ForwardOperands, Alu.Value, Chained, NoLoadUse;
    DecodeWellFormed(s.idEx.decoded.raw);
  }

  /** A cycle without an ISA step brings the next instruction one stage closer. */
  lemma IdleAdvances(s: State)
    requires Inv(s) && !Commits(s)
    ensures var n := Step(s).state;
            && Inv(n) && PendingTrap(n).None?
            && (PendingTrap(s).None? ==> n.ifId.valid || n.idEx.valid)
            && (PendingTrap(s).None? && s.ifId.valid ==> n.idEx.valid)
  {
    StepKeeps(s);
    NoTrapWithoutCommit(s);
    if PendingTrap(s).None? {
      FetchLatched(DrainedMem(s), s.pc);
      if s.ifId.valid {
        HeldDecode(WriteBack(s.regs, s.memWb), s.ifId);
      }
      hide Step, Fetch, DecodeStage, MemoryAccess, WriteBack, Inv;
      IdleCycle(s);
    }
  }

  /** At most three consecutive cycles pass without an ISA step, two if no trap is pending. */
  lemma ProgressWithin(s: State) returns (i: nat)
    requires Inv(s)
    ensures i <= 3 && (PendingTrap(s).None? ==> i <= 2)
    ensures Commits(Run(s, i)) && CommitCount(s, i) == 0
    ensures forall j: nat | j < i :: !Commits(Run(s, j))
  {
    hide Step, Inv;
    i := 0;
    if !Commits(s) {
      IdleAdvances(s);
      i := 1;
      var t := Run(s, 1);
      assert t == Step(Run(s, 0)).state;
      if !Commits(t) {
        IdleAdvances(t);
        i := 2;
        var u := Run(s, 2);
        assert u == Step(t).state;
        if !Commits(u) {
          IdleAdvances(u);
          i := 3;
          assert Run(s, 3) == Step(u).state;
        }
      }
    }
  }

  lemma {:induction false} RunSplits(s: State, m: nat, n: nat)
    ensures Run(Run(s, m), n) == Run(s, m + n)
    ensures CommitCount(s, m + n) == CommitCount(s, m) + CommitCount(Run(s, m), n)
  {
    hide Step, Commits;
    if n != 0 {
      RunSplits(s, m, n - 1);
    }
  }

  /** The k-th instruction executes within 4k + 3 cycles. */
  lemma {:induction false} CommitWithin(s: State, k: nat) returns (j: nat)
    requires Inv(s)
    ensures j <= 4 * k + 3
    ensures CommitCount(s, j) == k && Commits(Run(s, j))
  {
    hide Step, Inv, Commits;
    if k == 0 {
      j := ProgressWithin(s);
    } else {
      var j0 := CommitWithin(s, k - 1);
      RunKeeps(s, j0 + 1);
      var t := Run(s, j0 + 1);
      var i := ProgressWithin(t);
      RunSplits(s, j0 + 1, i);
      j := j0 + 1 + i;
    }
  }

  /** Once on a self-jump, the single-cycle run stays there. */
  lemma {:induction false} StaysAtSelfJump(a: Isa.Arch, k: nat, i: nat)
    requires AtSelfJump(Isa.Run(a, k)) && k <= i
    ensures AtSelfJump(Isa.Run(a, i)) && !Overtakes(Isa.Run(a, i))
  {
    hide Isa.Step, AtSelfJump, Overtakes;
    if k < i {
      StaysAtSelfJump(a, k, i - 1);
      SelfJumpStays(Isa.Run(a, i - 1));
    }
    NoStoreAtSelfJump(Isa.Run(a, i));
  }

  lemma SelfJumpStays(a: Isa.Arch)
    requires AtSelfJump(a)
    ensures AtSelfJump(Isa.Step(a).0)
  {
    hide Isa.Step, SelfJump, ReadWord;
    SelfJumpSpins(a);
  }

  lemma NoStoreAtSelfJump(a: Isa.Arch)
    ensures AtSelfJump(a) ==> !Overtakes(a)
  {
    if AtSelfJump(a) {
      SelfJumpDecodes(ReadWord(a.mem, a.pc).value, a.pc);
    }
  }

  /** A program whose single-cycle run reaches a J or JAL to itself after k steps makes
      the pipeline report Halt by cycle 4k + 5. */
  lemma HaltReached(s: State, k: nat)
    requires Drained(s) && StoresClear(Abs(s), k)
    requires AtSelfJump(Isa.Run(Abs(s), k))
    ensures exists m: nat :: m <= 4 * k + 5 && Step(Run(s, m)).result == Halt
  {
    hide Step, Inv, Coherent, Commits, Overtakes, HaltFlags, AtSelfJump, Isa.Step, Drained, Abs;
    EmptyPipeline(s);
    var j := CommitWithin(s, k);
    var a := Abs(s);
    forall i: nat | i < CommitCount(s, j + 2)
      ensures !Overtakes(Isa.Run(a, i))
    {
      if k <= i {
        StaysAtSelfJump(a, k, i);
      }
    }
    assert CommitCount(s, j) <= CommitCount(s, j + 1) <= CommitCount(s, j + 2);
    RunRefinesFrom(s, j);
    RunRefinesFrom(s, j + 1);
    JumpReachesWb(Run(s, j));
    HaltFlagsAlways(s, j + 2);
    assert Run(s, j + 2) == Step(Run(s, j + 1)).state;
    HaltCycle(Run(s, j + 2));
    assert j + 2 <= 4 * k + 5;
  }

  lemma JumpReachesWb(s: State)
    requires Inv(s) && Coherent(s) && Commits(s) && AtSelfJump(Abs(s))
    ensures Step(Step(s).state).state.memWb.isHalt
  {
    var n := Step(s).state;
    HaltInIdEx(s);
    var word := ReadWord(Abs(s).mem, s.idEx.pc).value;
    SelfJumpInEx(s, word);
    NextExMem(s);
    NextMemWb(n);
    hide Step, Inv, Coherent, ExecuteStage, MemoryAccess, Abs;
    CommitNotPending(s);
    JumpInMemPasses(n.mem, n.exMem, s.idEx.pc, OpField(word) == 0x03);
  }

  /** The pipeline reports Halt exactly when the single-cycle run comes to stand on a J
      or JAL to itself. (That CPU also reports Halt on a branch or register jump to
      itself; the pipeline keeps executing those.) */
  lemma HaltsIffSelfJump(s: State)
    requires Drained(s) && forall k: nat :: StoresClear(Abs(s), k)
    ensures (exists m: nat :: Step(Run(s, m)).result == Halt) <==> (exists k: nat :: AtSelfJump(Isa.Run(Abs(s), k)))
  {
    hide Step, AtSelfJump, StoresClear, Isa.Step, Abs, Drained;
    if m: nat :| Step(Run(s, m)).result == Halt {
      HaltIsFinal(s, m, 0);
      assert AtSelfJump(Isa.Run(Abs(s), CommitCount(s, m)));
    }
    if k: nat :| AtSelfJump(Isa.Run(Abs(s), k)) {
      HaltReached(s, k);
    }
  }

  // ---- Cycle accounting ----

  function One(b: bool): nat {
    if b then 1 else 0
  }

  /** What the front ends can count from the snapshots, and the jumps resolved in ID,
      which no snapshot flag reports. */
  datatype Tally = Tally(retired: nat, stalls: nat, flushes: nat, jumps: nat)

  /** The tally after one more cycle, from `s`. */
  function Counted(t: Tally, s: State): Tally {
    var ps := Step(s).ps;
    Tally(t.retired + One(ps.retired), t.stalls + One(ps.loadStall), t.flushes + One(ps.branchFlush), t.jumps + One(JumpsInId(s)))
  }

  function TallyOf(s: State, n: nat): Tally {
    if n == 0 then Tally(0, 0, 0, 0) else Counted(TallyOf(s, n - 1), Run(s, n - 1))
  }

  predicate JumpsInId(s: State) {
    RunStages(s).id.jump.Some?
  }

  /** Instructions in the three back stages. */
  function InFlight(s: State): nat {
    One(s.idEx.valid) + One(s.exMem.valid) + One(s.memWb.valid)
  }

  /** An instruction that does not trap in EX goes on to MEM. */
  lemma EveryInstructionFlows(s: State)
    requires ExOf(s).trap.None?
    ensures ExOf(s).next.valid == s.idEx.valid
  {
    hide ForwardOperands, Alu.Value;
  }

  lemma JumpSeen(s: State)
    ensures JumpsInId(s) <==>
              !LoadUseHazard(s.idEx, s.ifId) && PendingTrap(s).None? && ExOf(s).trap.None? && ExOf(s).redirect.None? &&
              s.ifId.valid && DecodeStage(WriteBack(s.regs, s.memWb), s.ifId).jump.Some?
    ensures var ps := Step(s).ps;
            && ps.retired == s.memWb.valid
            && ps.loadStall == LoadUseHazard(s.idEx, s.ifId)
            && (ps.branchFlush <==> PendingTrap(s).Some? || ExOf(s).trap.Some? || ExOf(s).redirect.Some?)
  {
    hide Fetch, DecodeStage, MemoryAccess, ExecuteDecoded, LoadUseHazard, WriteBack;
  }

  /** One trap-free cycle balances. */
  lemma CycleBalances(s: State)
    requires Inv(s) && Step(s).result != Exception
    ensures var n := Step(s).state; var ps := Step(s).ps;
            1 + InFlight(s) + One(!n.ifId.valid) ==
              One(ps.retired) + InFlight(n) + One(ps.loadStall) + 2 * One(ps.branchFlush) + One(JumpsInId(s)) + One(!s.ifId.valid)
  {
    ResultCases(s);
    JumpSeen(s);
    NextMemWb(s);
    NextExMem(s);
    EmptyExMem(s);
    FetchLatched(DrainedMem(s), s.pc);
    if s.idEx.valid && s.idEx.ctrl.memRead {
      LoadFlows(s);
    }
    if s.ifId.valid {
      HeldDecode(WriteBack(s.regs, s.memWb), s.ifId);
    }
    assert LoadUseHazard(s.idEx, s.ifId) ==> s.idEx.valid && s.idEx.ctrl.memRead && s.ifId.valid;
    EveryInstructionFlows(s);
    MemValid(s.mem, s.exMem);
    RedirectsFromChain(s);
    hide Step, Fetch, Latched, Held, DecodeStage, MemoryAccess, WriteBack, ExecuteStage, LoadUseHazard, JumpsInId;
    if !s.idEx.valid {
      IdleCycle(s);
    } else if ExOf(s).redirect.Some? {
      FlushCycle(s);
    } else {
      FallThroughCycle(s);
    }
  }

  lemma MemValid(mem: Bytes, x: ExMem)
    ensures MemoryAccess(mem, x).trap.None? ==> MemoryAccess(mem, x).next.valid == x.valid
  {
  }

  /** A redirect from EX always finds a wrong-path word in IF/ID. */
  lemma RedirectsFromChain(s: State)
    requires Inv(s)
    ensures ExOf(s).redirect.Some? ==> s.ifId.valid
  {
    hide ForwardOperands, Alu.Value, Latched, DecodeStage, NoLoadUse;
  }

  predicate TrapFree(s: State, n: nat) {
    forall k: nat | k < n :: Step(Run(s, k)).result != Exception
  }

  /** After `n` cycles every one of them is accounted for: an instruction retired or
      still in the back stages, a load-use stall, two slots per flush from EX, one per
      jump resolved in ID, and the cycle that fills IF/ID. */
  predicate Accounted(e: State, t: Tally, n: nat) {
    n + One(!e.ifId.valid) == t.retired + InFlight(e) + t.stalls + 2 * t.flushes + t.jumps + 1
  }

  lemma CycleAccounted(s: State, t: Tally, n: nat)
    requires Inv(s) && Step(s).result != Exception && Accounted(s, t, n)
    ensures Accounted(Step(s).state, Counted(t, s), n + 1)
  {
    CycleBalances(s);
    hide Step, Inv, JumpsInId, InFlight;
  }

  lemma StartAccounted(s: State)
    requires Drained(s)
    ensures Accounted(s, Tally(0, 0, 0, 0), 0)
  {
  }

  lemma {:induction false} CyclesAccounted(s: State, n: nat)
    requires Drained(s) && TrapFree(s, n)
    ensures Accounted(Run(s, n), TallyOf(s, n), n)
  {
    if n == 0 {
      StartAccounted(s);
    } else {
      hide Step, Inv, Accounted, Counted, Drained;
      CyclesAccounted(s, n - 1);
      EmptyPipeline(s);
      RunKeeps(s, n - 1);
      assert Step(Run(s, n - 1)).result != Exception;
      CycleAccounted(Run(s, n - 1), TallyOf(s, n - 1), n - 1);
    }
  }
}
