/** Whole runs of the pipeline, as the manual describes them. */
module ManualRuns {
  import opened Control
  import opened Manual
  import opened Pipeline
  import opened Refinement
  import opened Runs
  import Isa
  import ManualProof

  /** Each state follows from the one before by one step as the manual has it. */
  ghost predicate Followed(states: seq<Isa.Arch>) {
    forall k :: 0 <= k < |states| - 1 ==> Follows(states[k], states[k + 1])
  }

  ghost predicate Follows(a: Isa.Arch, b: Isa.Arch) {
    exists res: StepResult :: StepEffect(a, b, res)
  }

  /** In `n` cycles from an empty pipeline the machine goes from its architectural state to
      the drained one by as many steps of the manual as instructions have executed. */
  lemma PipelineFollowsManual(s: State, n: nat) returns (states: seq<Isa.Arch>)
    requires Drained(s) && StoresClear(Isa.Arch(s.regs, s.mem, s.cp0, s.pc), CommitCount(s, n))
    ensures |states| == CommitCount(s, n) + 1 && Followed(states)
    ensures states[0] == Isa.Arch(s.regs, s.mem, s.cp0, s.pc)
    ensures states[|states| - 1] == Abs(Run(s, n))
  {
    hide Step, Isa.Step, Abs, StepEffect, Drained, Commits, StoresClear;
    var a := Isa.Arch(s.regs, s.mem, s.cp0, s.pc);
    RunRefines(s, n);
    states := seq(CommitCount(s, n) + 1, k requires 0 <= k => Isa.Run(a, k));
    forall k | 0 <= k < |states| - 1 ensures Follows(states[k], states[k + 1]) {
      ManualProof.StepMeans(Isa.Run(a, k));
      assert StepEffect(states[k], states[k + 1], Isa.Step(states[k]).1);
    }
  }
}
