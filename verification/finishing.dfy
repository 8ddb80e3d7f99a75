/** Running both CPUs to the end with `run`: a program that finishes leaves the same state. */
module Finishing {
  import opened Decoder
  import opened Memory
  import opened Control
  import opened Pipeline
  import opened Refinement
  import opened Invariance
  import opened Runs
  import opened Halting
  import opened Progress
  import Alu
  import Isa

  lemma {:induction false} IsaRunShifts(a: Isa.Arch, n: nat)
    ensures Isa.Run(Isa.Step(a).0, n) == Isa.Run(a, n + 1)
  {
    hide Isa.Step;
    if n != 0 {
      IsaRunShifts(a, n - 1);
    }
  }

  /** Where the single-cycle `run` stops, in terms of steps: `j` steps report Ok, then one does not. */
  lemma {:induction false} IsaStopsAt(a: Isa.Arch, maxSteps: nat) returns (j: nat)
    requires Isa.RunUntil(a, maxSteps).1 != Ok
    ensures j < maxSteps && Isa.RunUntil(a, maxSteps) == (Isa.Run(a, j + 1), Isa.Step(Isa.Run(a, j)).1)
    ensures forall i: nat | i < j :: Isa.Step(Isa.Run(a, i)).1 == Ok
    decreases maxSteps
  {
    hide Isa.Step;
    if Isa.Step(a).1 != Ok {
      j := 0;
      assert Isa.Run(a, 0) == a;
    } else {
      var b := Isa.Step(a).0;
      var j' := IsaStopsAt(b, maxSteps - 1);
      j := j' + 1;
      IsaRunShifts(a, j');
      IsaRunShifts(a, j);
      forall i: nat | i < j ensures Isa.Step(Isa.Run(a, i)).1 == Ok {
        if i > 0 {
          IsaRunShifts(a, i - 1);
          assert Isa.Step(Isa.Run(b, i - 1)).1 == Ok;
        }
      }
    }
  }

  /** The pipeline's `run` stops with the first result that is not Ok. */
  lemma {:induction false} PipelineStopsAt(s: State, maxSteps: nat, n: nat)
    requires n < maxSteps && Step(Run(s, n)).result != Ok
    requires forall i: nat | i < n :: Step(Run(s, i)).result == Ok
    ensures RunUntil(s, maxSteps) == (Run(s, n + 1), Step(Run(s, n)).result)
    decreases n
  {
    hide Step;
    if n == 0 {
      assert Run(s, 0) == s;
    } else {
      assert Step(Run(s, 0)).result == Ok;
      var t := Step(s).state;
      assert t == Run(s, 1);
      RunSplits(s, 1, n - 1);
      RunSplits(s, 1, n);
      forall i: nat | i < n - 1 ensures Step(Run(t, i)).result == Ok {
        RunSplits(s, 1, i);
      }
      PipelineStopsAt(t, maxSteps - 1, n - 1);
    }
  }

  /** An instruction that leaves the PC in place does not write memory. */
  lemma HaltKeepsMemory(a: Isa.Arch)
    ensures Isa.Step(a).1 == Halt ==> Isa.Step(a).0.mem == a.mem && Isa.Step(a).0.pc == a.pc
  {
    hide Decode, ReadWord, Alu.Execute, LoadData, StoreData, BranchTarget, JumpTarget;
  }

  /** From the first self-jump on, every step reports Halt and, after one, changes nothing. */
  lemma {:induction false} SettledAtSelfJump(a: Isa.Arch, j: nat, i: nat)
    requires AtSelfJump(Isa.Run(a, j)) && j <= i
    ensures Isa.Step(Isa.Run(a, i)).1 == Halt
    ensures i > j ==> Isa.Run(a, i) == Isa.Run(a, j + 1)
  {
    hide Isa.Step, AtSelfJump;
    StaysAtSelfJump(a, j, i);
    HaltsAtSelfJump(Isa.Run(a, i));
    if i > j + 1 {
      SettledAtSelfJump(a, j, i - 1);
      HaltsAtSelfJump(Isa.Run(a, j));
    }
  }

  /** A self-jump reports Halt, and executing it twice is executing it once. */
  lemma HaltsAtSelfJump(a: Isa.Arch)
    requires AtSelfJump(a)
    ensures Isa.Step(a).1 == Halt
    ensures Isa.Step(Isa.Step(a).0).0 == Isa.Step(a).0
  {
    hide Isa.Step, SelfJump;
    SelfJumpSpins(a);
    SpinIsFixed(Isa.Step(a).0, a.pc, OpField(ReadWord(a.mem, a.pc).value) == 0x03);
  }

  lemma {:induction false} NoIsaTraps(a: Isa.Arch, j: nat, n: nat)
    requires AtSelfJump(Isa.Run(a, j))
    requires forall i: nat | i < j :: Isa.Step(Isa.Run(a, i)).1 == Ok
    ensures IsaTraps(a, n) == []
  {
    hide Isa.Step, AtSelfJump;
    if n != 0 {
      NoIsaTraps(a, j, n - 1);
      if j <= n - 1 {
        SettledAtSelfJump(a, j, n - 1);
      }
    }
  }

  /** A trap of the pipeline is in its list of traps. */
  lemma {:induction false} NoTrapsNoExceptions(s: State, n: nat)
    requires PipelineTraps(s, n) == []
    ensures forall i: nat | i < n :: Step(Run(s, i)).result != Exception
  {
    hide Step;
    if n != 0 {
      NoTrapsNoExceptions(s, n - 1);
    }
  }

  lemma NeverFault(s: State)
    ensures Step(s).result != Fault
  {
  }

  lemma {:induction false} FirstNotOk(s: State, m: nat) returns (n: nat)
    requires Step(Run(s, m)).result != Ok
    ensures n <= m && Step(Run(s, n)).result != Ok
    ensures forall i: nat | i < n :: Step(Run(s, i)).result == Ok
    decreases m
  {
    hide Step;
    if i: nat :| i < m && Step(Run(s, i)).result != Ok {
      n := FirstNotOk(s, i);
    } else {
      n := m;
    }
  }

  lemma ClearForever(a: Isa.Arch, j: nat, n: nat)
    requires AtSelfJump(Isa.Run(a, j)) && StoresClear(a, j)
    ensures StoresClear(a, n)
  {
    hide AtSelfJump, Overtakes, Isa.Step;
    forall i: nat | i < n ensures !Overtakes(Isa.Run(a, i)) {
      if j <= i {
        StaysAtSelfJump(a, j, i);
      }
    }
  }

  /** When the single-cycle `run` ends within k + 1 steps on a J or JAL to itself, the
      pipeline's `run` ends too, within 4k + 6 cycles, with the same result and the same
      registers, memory and CP0. */
  lemma FinishTogether(s: State, k: nat)
    requires Drained(s) && StoresClear(Abs(s), k)
    requires Isa.RunUntil(Abs(s), k + 1).1 == Halt && AtSelfJump(Isa.RunUntil(Abs(s), k + 1).0)
    ensures var (a, _) := Isa.RunUntil(Abs(s), k + 1);
            var (e, result) := RunUntil(s, 4 * k + 6);
            result == Halt && Isa.Arch(e.regs, e.mem, e.cp0, a.pc) == a
  {
    hide Step, Isa.Step, Abs, Drained, AtSelfJump, StoresClear, RunUntil, Isa.RunUntil;
    var a := Abs(s);
    var j := IsaStopsAt(a, k + 1);
    HaltKeepsMemory(Isa.Run(a, j));
    assert AtSelfJump(Isa.Run(a, j)) by {
      SamePlace(Isa.Run(a, j), Isa.Run(a, j + 1));
    }
    ClearUpTo(a, k, j);
    HaltReached(s, j);
    var m: nat :| m <= 4 * j + 5 && Step(Run(s, m)).result == Halt;
    var n := FirstNotOk(s, m);
    NoPipelineTrap(s, j, n);
    NeverFault(Run(s, n));
    ClearForever(a, j, CommitCount(s, n));
    HaltIsFinal(s, n, 0);
    PipelineStopsAt(s, 4 * k + 6, n);
    StoppedWhere(a, j, CommitCount(s, n));
  }

  lemma SamePlace(a: Isa.Arch, b: Isa.Arch)
    requires AtSelfJump(b) && a.mem == b.mem && a.pc == b.pc
    ensures AtSelfJump(a)
  {
  }

  lemma ClearUpTo(a: Isa.Arch, k: nat, j: nat)
    requires StoresClear(a, k) && j <= k
    ensures StoresClear(a, j)
  {
    hide Overtakes;
  }

  lemma NoPipelineTrap(s: State, j: nat, n: nat)
    requires Drained(s) && StoresClear(Abs(s), j) && AtSelfJump(Isa.Run(Abs(s), j))
    requires forall i: nat | i < j :: Isa.Step(Isa.Run(Abs(s), i)).1 == Ok
    ensures Step(Run(s, n)).result != Exception
  {
    hide Step, Isa.Step, Drained, AtSelfJump, StoresClear, PipelineTraps;
    EmptyPipeline(s);
    ClearForever(Abs(s), j, CommitCount(s, n + 1));
    PreciseExceptions(s, n + 1);
    NoIsaTraps(Abs(s), j, CommitCount(s, n + 1));
    NoTrapsNoExceptions(s, n + 1);
  }

  /** A later state on a self-jump that no longer changes is the one `run` stopped in. */
  lemma StoppedWhere(a: Isa.Arch, j: nat, c: nat)
    requires AtSelfJump(Isa.Run(a, j)) && AtSelfJump(Isa.Run(a, c))
    requires forall i: nat | i < j :: Isa.Step(Isa.Run(a, i)).1 == Ok
    requires Isa.Step(Isa.Run(a, c)) == (Isa.Run(a, c), Halt)
    ensures Isa.Run(a, c) == Isa.Run(a, j + 1)
  {
    hide Isa.Step, AtSelfJump;
    if c > j {
      SettledAtSelfJump(a, j, c);
    }
  }
}
