/** Why runs must not store just ahead: a two-instruction program on which the CPUs differ. */
module SelfModifying {
  import opened Words
  import opened Decoder
  import opened Memory
  import opened Registers
  import opened Cp0
  import opened Control
  import opened PipelineUnits
  import opened Pipeline
  import opened ExecAgreement
  import opened Refinement
  import opened Invariance
  import opened Runs
  import Alu
  import Isa

  const SW_ZERO_TO_4: Word := 0xAC00_0004   // sw $zero, 4($zero)
  const SET_T0: Word := 0x2408_0001         // addiu $t0, $zero, 1
  const T0: RegIndex := 8

  predicate Overwrites(s: State) {
    && Drained(s) && s.pc == 0
    && ReadWord(s.mem, 0) == Some(SW_ZERO_TO_4)
    && ReadWord(s.mem, 4) == Some(SET_T0)
    && ReadReg(s.regs, T0) == 0
  }

  function Example(): State {
    State(ZERO_REGS, LoadWords(seq(16, _ => 0), 0, [SW_ZERO_TO_4, SET_T0]),
          Cp0State(0, 0, 0, 0, ExceptionCode.RI), 0, IF_BUBBLE, ID_BUBBLE, EX_BUBBLE, MEM_BUBBLE, 0)
  }

  lemma ExampleOverwrites()
    ensures Overwrites(Example())
  {
    hide LoadWords, ReadWord;
    var words := [SW_ZERO_TO_4, SET_T0];
    LoadedImage(seq(16, _ => 0), 0, words);
    var m := LoadWords(seq(16, _ => 0), 0, words);
    assert ReadWord(m, Wrapped(0 + 4 * 0)) == Some(words[0]);
    assert ReadWord(m, Wrapped(0 + 4 * 1)) == Some(words[1]);
  }

  lemma DecodedWords()
    ensures Decode(SW_ZERO_TO_4) == Some(Instr(SW_ZERO_TO_4, Opcode.SW, IForm(0, 0, 4)))
    ensures Decode(SET_T0) == Some(Instr(SET_T0, Opcode.ADDIU, IForm(0, T0, 1)))
    ensures Decode(0) == Some(Instr(0, Opcode.SPECIAL, RForm(0, 0, 0, 0, Funct.SLL)))
  {
  }

  lemma StepsOverStore(a: Isa.Arch)
    requires a.pc == 0 && ReadWord(a.mem, 0) == Some(SW_ZERO_TO_4) && WordAt(a.mem, 4)
    ensures Isa.Step(a).0 == a.(mem := PutWord(a.mem, 4, 0), pc := 4)
  {
    DecodedWords();
    hide Decode, ReadWord, PutWord;
    assert Alu.Control(Instr(SW_ZERO_TO_4, Opcode.SW, IForm(0, 0, 4))) == Some(Alu.AluOp.ADDU);
  }

  lemma StoreOvertakes(a: Isa.Arch)
    requires a.pc == 0 && ReadWord(a.mem, 0) == Some(SW_ZERO_TO_4) && ReadWord(a.mem, 4) == Some(SET_T0)
    ensures Overtakes(a) && WordAt(a.mem, 4)
  {
    DecodedWords();
    ReadWordAligned(a.mem, 4);
    hide Decode, ReadWord, Isa.Step, FallsThrough;
  }

  lemma StepsOverNop(a: Isa.Arch)
    requires ReadWord(a.mem, a.pc) == Some(0)
    ensures Isa.Step(a).0.regs == a.regs
  {
    DecodedWords();
    hide Decode, ReadWord, Alu.Value;
  }

  /** The single-cycle CPU stores, then executes the word it stored: nothing. */
  lemma SingleCycleSide(a: Isa.Arch)
    requires a.pc == 0 && ReadWord(a.mem, 0) == Some(SW_ZERO_TO_4) && ReadWord(a.mem, 4) == Some(SET_T0)
    ensures Overtakes(a)
    ensures Isa.Run(a, 2).regs == a.regs
  {
    ReadWordAligned(a.mem, 4);
    StoreOvertakes(a);
    ReadAfterPut(a.mem, 4, 0, 4);
    StepsOverStore(a);
    StepsOverNop(Isa.Step(a).0);
    hide Isa.Step, Overtakes, PutWord;
    assert Isa.Run(a, 1) == Isa.Step(Isa.Run(a, 0)).0;
    assert Isa.Run(a, 2) == Isa.Step(Isa.Run(a, 1)).0;
  }

  lemma ReadWordAligned(m: Bytes, addr: Word)
    ensures ReadWord(m, addr).Some? <==> WordAt(m, addr)
  {
  }

  /** The pipeline while it fills: nothing committed, `older` in ID/EX and `younger` in IF/ID. */
  predicate Filling(t: State, s: State, older: IdEx, younger: IfId) {
    && t.regs == s.regs && t.mem == s.mem && t.exMem == EX_BUBBLE && t.memWb == MEM_BUBBLE
    && t.idEx == older && t.ifId == younger
  }

  lemma FirstCycle(s: State)
    requires Overwrites(s)
    ensures var t := Step(s).state;
            !Commits(s) && Inv(t) && t.pc == 4 && Filling(t, s, ID_BUBBLE, FetchedWord(0, Some(SW_ZERO_TO_4)))
  {
    EmptyPipeline(s);
    EmptyDrains(s);
    IdleCycle(s);
    StepKeeps(s);
    FetchBoth(s);
    hide Step, Inv, MemoryAccess, WriteBack, Fetch, DecodeStage;
  }

  lemma SecondCycle(s: State, s1: State)
    requires Overwrites(s) && Inv(s1) && s1.pc == 4
    requires Filling(s1, s, ID_BUBBLE, FetchedWord(0, Some(SW_ZERO_TO_4)))
    ensures var t := Step(s1).state;
            && !Commits(s1) && Inv(t)
            && Filling(t, s, DecodeStage(s.regs, FetchedWord(0, Some(SW_ZERO_TO_4))).next, FetchedWord(4, Some(SET_T0)))
  {
    EmptyDrains(s1);
    IdleCycle(s1);
    StepKeeps(s1);
    FetchBoth(s);
    hide Step, Inv, MemoryAccess, WriteBack, Fetch, DecodeStage;
  }

  lemma ThirdCycle(s: State, s2: State)
    requires Overwrites(s) && Inv(s2)
    requires Filling(s2, s, DecodeStage(s.regs, FetchedWord(0, Some(SW_ZERO_TO_4))).next, FetchedWord(4, Some(SET_T0)))
    ensures var t := Step(s2).state;
            && Commits(s2) && Inv(t) && PendingTrap(t).None?
            && t.idEx == DecodeStage(s.regs, FetchedWord(4, Some(SET_T0))).next
  {
    ReadWordAligned(s.mem, 4);
    StoreCycle(s2);
    StepKeeps(s2);
  }

  /** Four cycles one by one. */
  lemma FourCycles(s: State)
    ensures var s1 := Step(s).state; var s2 := Step(s1).state; var s3 := Step(s2).state;
            && Run(s, 4) == Step(s3).state
            && (!Commits(s) && !Commits(s1) && Commits(s2) && Commits(s3) ==> CommitCount(s, 4) == 2)
  {
    hide Step, Commits;
    var s1 := Step(s).state;
    var s2 := Step(s1).state;
    var s3 := Step(s2).state;
    assert Run(s, 0) == s && CommitCount(s, 0) == 0;
    assert Run(s, 1) == s1 && Run(s, 2) == s2 && Run(s, 3) == s3;
    if !Commits(s) && !Commits(s1) && Commits(s2) && Commits(s3) {
      assert CommitCount(s, 1) == 0 && CommitCount(s, 2) == 0 && CommitCount(s, 3) == 1;
    }
  }

  /** The pipeline has the old word in flight, and executes it. */
  lemma PipelineSide(s: State)
    requires Overwrites(s)
    ensures CommitCount(s, 4) == 2
    ensures ReadReg(Abs(Run(s, 4)).regs, T0) == 1
  {
    hide Step, Inv, Abs, Run, CommitCount, Commits, PendingTrap, DecodeStage, Overwrites, ReadReg;
    var s1 := Step(s).state;
    var s2 := Step(s1).state;
    FirstCycle(s);
    SecondCycle(s, s1);
    ThirdCycle(s, s2);
    AddCycle(Step(s2).state);
    FourCycles(s);
  }

  lemma EmptyDrains(s: State)
    ensures s.exMem == EX_BUBBLE ==> MemoryAccess(s.mem, s.exMem) == MemOutcome(s.mem, MEM_BUBBLE, None)
    ensures s.memWb == MEM_BUBBLE ==> WriteBack(s.regs, s.memWb) == s.regs
  {
  }

  lemma FetchBoth(s: State)
    requires Overwrites(s)
    ensures Fetch(s.mem, 0) == FetchedWord(0, Some(SW_ZERO_TO_4))
    ensures Fetch(s.mem, 4) == FetchedWord(4, Some(SET_T0))
    ensures DecodeStage(s.regs, Fetch(s.mem, 0)).jump.None? && DecodeStage(s.regs, Fetch(s.mem, 4)).jump.None?
  {
    hide SelfJump, ReadWord;
    DecodedWords();
  }

  lemma StoreCycle(s: State)
    requires Inv(s) && s.exMem == EX_BUBBLE && s.memWb == MEM_BUBBLE
    requires s.ifId == FetchedWord(4, Some(SET_T0))
    requires s.idEx == DecodeStage(s.regs, FetchedWord(0, Some(SW_ZERO_TO_4))).next
    requires WordAt(s.mem, 4)
    ensures Commits(s) && PendingTrap(Step(s).state).None?
    ensures Step(s).state.idEx == DecodeStage(s.regs, FetchedWord(4, Some(SET_T0))).next
  {
    DecodedWords();
    EmptyDrains(s);
    hide SelfJump, Decode, MemoryAccess, WriteBack;
    assert s.idEx.decoded == Instr(SW_ZERO_TO_4, Opcode.SW, IForm(0, 0, 4));
    StoreInEx(s.idEx, s.exMem, s.memWb, s.cp0);
    OperandsCorrect(s);
    NextExMem(s);
    StoreReady(s);
    hide ExecuteStage, Step, FetchedWord, DecodeStage;
    FallThroughCycle(s);
  }

  lemma StoreReady(s: State)
    requires Inv(s) && Commits(s) && s.exMem == EX_BUBBLE && s.memWb == MEM_BUBBLE
    requires s.idEx.earlyTrap.None? && s.idEx.decoded == Instr(SW_ZERO_TO_4, Opcode.SW, IForm(0, 0, 4))
    requires WordAt(s.mem, 4)
    ensures MemoryAccess(s.mem, ExOf(s).next).trap.None?
    ensures !LoadUseHazard(s.idEx, s.ifId)
  {
    ControlInEx(s);
    StoreInEx(s.idEx, s.exMem, s.memWb, s.cp0);
    hide Inv, ExecuteDecoded, Chained, NoLoadUse, Decode;
    assert ExOf(s).next.alu.value == 4;
  }

  lemma AddCycle(s: State)
    requires Inv(s) && PendingTrap(s).None?
    requires exists regs :: s.idEx == DecodeStage(regs, FetchedWord(4, Some(SET_T0))).next
    ensures Commits(s) && ReadReg(Abs(Step(s).state).regs, T0) == 1
  {
    DecodedWords();
    hide SelfJump, Decode, MemoryAccess, NoLoadUse, Chained;
    assert s.idEx.decoded == Instr(SET_T0, Opcode.ADDIU, IForm(0, T0, 1));
    CommitSettles(s);
    OperandsCorrect(s);
    AddInEx(s);
  }

  lemma AddInEx(s: State)
    requires Inv(s) && Commits(s) && s.idEx.earlyTrap.None?
    requires s.idEx.decoded == Instr(SET_T0, Opcode.ADDIU, IForm(0, T0, 1))
    requires ForwardOperands(s.idEx, s.exMem, s.memWb).a == 0
    ensures ReadReg(Settle(Abs(s), ExOf(s), FallThrough(s.idEx)).0.regs, T0) == 1
  {
    hide ForwardOperands, Abs, Chained, NoLoadUse, Decode, LoadData, StoreData, WriteCp0, Eret, Raise, ExecuteCop0;
    assert Alu.Control(s.idEx.decoded) == Some(Alu.AluOp.ADDU);
    assert s.idEx.ctrl == DeriveControl(s.idEx.decoded);
  }

  /** Without the condition on stores the refinement is false: there is a program, started
      on an empty pipeline, after whose first two instructions the CPUs disagree. */
  lemma StoreAheadDiverges()
    ensures exists s: State, n: nat ::
              Drained(s) && Overtakes(Abs(s)) && Abs(Run(s, n)) != Isa.Run(Abs(s), CommitCount(s, n))
  {
    var s := Example();
    ExampleOverwrites();
    EmptyPipeline(s);
    SingleCycleSide(Abs(s));
    PipelineSide(s);
    hide Step, Isa.Step, Abs, Overtakes, Example, CommitCount, Run, Isa.Run;
    assert Abs(Run(s, 4)).regs != Isa.Run(Abs(s), 2).regs;
  }
}
