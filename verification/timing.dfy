/** When things happen, read off the program alone: which words make the pipeline stall,
    and the cycle in which each instruction executes. */
module Timing {
  import opened Words
  import opened Decoder
  import opened Memory
  import opened Control
  import opened Manual
  import opened PipelineUnits
  import opened Pipeline
  import opened ExecAgreement
  import opened Refinement
  import opened Invariance
  import opened Runs
  import opened Halting
  import opened Progress
  import ManualProof
  import Isa

  // ---- The hazard unit, off the words ----

  /** The word takes register `r` as an operand, by format: shifts by a constant take rt,
      register jumps rs, MTC0 rt, branches and stores both, the other immediates rs. */
  predicate Reads(w: Word, r: RegIndex) {
    match Op(w)
    case 0x00 =>
      if Fn(w) in {0x00, 0x02, 0x03} then r == Rt(w)
      else if Fn(w) in {0x08, 0x09} then r == Rs(w)
      else Fn(w) in {0x04, 0x06, 0x0C, 0x0D, 0x20, 0x21, 0x22, 0x23, 0x24, 0x25, 0x26, 0x27, 0x2A, 0x2B} && (r == Rs(w) || r == Rt(w))
    case 0x10 => Rs(w) == 4 && r == Rt(w)
    case _ =>
      if Op(w) in {0x04, 0x05, 0x2B} then r == Rs(w) || r == Rt(w)
      else Op(w) in {0x08, 0x09, 0x0A, 0x0B, 0x0C, 0x0D, 0x0E, 0x23, 0x24, 0x25} && r == Rs(w)
  }

  predicate IsLoad(w: Word) {
    Op(w) == 0x23 || Op(w) == 0x24 || Op(w) == 0x25
  }

  lemma ReadsExactly(w: Word, r: RegIndex)
    ensures match Decode(w)
            case None => !Reads(w, r)
            case Some(d) => Reads(w, r) <==> Sources(d).a == r || Sources(d).b == r
  {
    hide Op, Rs, Rt, Rd, Shamt, Imm, Decode;
    if Op(w) == 0 {
      ManualProof.SpecialDecodes(w);
    } else if Op(w) == 0x10 {
      ManualProof.Cop0Decodes(w);
    } else if Op(w) == 2 || Op(w) == 3 {
      ManualProof.JumpDecodes(w);
    } else if OpcodeOf(Op(w)).Some? {
      ManualProof.ImmediateDecodes(w);
    } else {
      ManualProof.UnknownDecodes(w);
    }
  }

  lemma LoadsExactly(d: Instr)
    requires Decode(d.raw) == Some(d)
    ensures DeriveControl(d).memRead <==> IsLoad(d.raw)
    ensures DeriveControl(d).memWrite <==> Op(d.raw) == 0x2B
    ensures DeriveControl(d).memRead || DeriveControl(d).memWrite ==> d.fields.IForm? && d.fields.rt == Rt(d.raw)
  {
    hide FunctOf;
  }

  /** The nine control signals of an instruction, off its word. */
  lemma ControlExactly(d: Instr)
    requires Decode(d.raw) == Some(d)
    ensures var c := DeriveControl(d); var op := Op(d.raw); var fn := Fn(d.raw);
            && (c.regWrite <==> (op == 0 && fn !in {0x08, 0x0C, 0x0D}) || op == 3 || 8 <= op <= 0x0F || 0x23 <= op <= 0x25)
            && (c.memRead <==> 0x23 <= op <= 0x25)
            && (c.memWrite <==> op == 0x2B)
            && (c.memToReg <==> 0x23 <= op <= 0x25)
            && (c.aluSrc <==> 8 <= op <= 0x0F || 0x23 <= op <= 0x25 || op == 0x2B)
            && (c.regDst <==> op == 0 && fn !in {0x08, 0x09, 0x0C, 0x0D})
            && (c.branch <==> op == 4 || op == 5)
            && (c.jump <==> op == 2 || op == 3)
            && (c.zeroExtend <==> 0x0C <= op <= 0x0F)
  {
    hide Op, Rs, Rt, Rd, Shamt, Imm, Decode;
    var w := d.raw;
    if Op(w) == 0 {
      ManualProof.SpecialDecodes(w);
    } else if Op(w) == 0x10 {
      ManualProof.Cop0Decodes(w);
    } else if Op(w) == 2 || Op(w) == 3 {
      ManualProof.JumpDecodes(w);
    } else if OpcodeOf(Op(w)).Some? {
      ManualProof.ImmediateDecodes(w);
    } else {
      ManualProof.UnknownDecodes(w);
    }
  }

  /** The register an instruction writes, off its word: rd for SPECIAL but JR, SYSCALL and
      BREAK, rt for MFC0, immediates and loads, $ra for JAL, otherwise none (-1). */
  lemma DestinationExactly(d: Instr)
    requires Decode(d.raw) == Some(d)
    ensures WellFormed(d)
    ensures DestinationRegister(d) ==
            (match Op(d.raw)
             case 0x00 => if Fn(d.raw) in {0x08, 0x0C, 0x0D} then -1 else Rd(d.raw)
             case 0x10 => if Rs(d.raw) == 0 then Rt(d.raw) else -1
             case 0x03 => 31
             case _ => if Op(d.raw) in {0x02, 0x04, 0x05, 0x2B} then -1 else Rt(d.raw))
  {
    hide Op, Rs, Rt, Rd, Shamt, Imm, Decode, WellFormed;
    var w := d.raw;
    DecodeWellFormed(w);
    if Op(w) == 0 {
      ManualProof.SpecialDecodes(w);
    } else if Op(w) == 0x10 {
      ManualProof.Cop0Decodes(w);
    } else if Op(w) == 2 || Op(w) == 3 {
      ManualProof.JumpDecodes(w);
    } else if OpcodeOf(Op(w)).Some? {
      ManualProof.ImmediateDecodes(w);
    } else {
      ManualProof.UnknownDecodes(w);
    }
  }

  /** The pipeline stalls exactly when a load in ID/EX writes a register, other than $zero,
      that the word in IF/ID takes as an operand. */
  lemma StallExactly(s: State)
    requires Inv(s)
    ensures var load := s.idEx.decoded.raw;
            Step(s).ps.loadStall <==>
              && s.idEx.valid && s.idEx.earlyTrap.None? && IsLoad(load) && Rt(load) != 0
              && s.ifId.valid && !s.ifId.fetchFault && Reads(s.ifId.instr, Rt(load))
  {
    JumpSeen(s);
    hide Step, Op, Reads, Rt, Chained, NoLoadUse, Decode, Sources, DeriveControl;
    if s.idEx.valid && s.idEx.earlyTrap.None? {
      LoadsExactly(s.idEx.decoded);
    }
    ReadsExactly(s.ifId.instr, s.idEx.rt);
  }

  // ---- The program at its next instruction ----

  function WordFound(a: Isa.Arch, addr: Word): Option<Word> {
    if addr % 4 == 0 && addr + 4 <= |a.mem| then Some(WordIn(a.mem, addr)) else None
  }

  /** The next instruction is a load or a store. */
  predicate Accesses(a: Isa.Arch) {
    match WordFound(a, a.pc)
    case None => false
    case Some(w) => IsLoad(w) || Op(w) == 0x2B
  }

  /** It is a J or JAL. */
  predicate Jumps(a: Isa.Arch) {
    match WordFound(a, a.pc)
    case None => false
    case Some(w) => Op(w) == 2 || Op(w) == 3
  }

  /** It is a taken branch, a register jump or ERET. */
  predicate Transfers(a: Isa.Arch) {
    match WordFound(a, a.pc)
    case None => false
    case Some(w) =>
      || (Op(w) == 4 && X(a, Rs(w)) == X(a, Rt(w)))
      || (Op(w) == 5 && X(a, Rs(w)) != X(a, Rt(w)))
      || (Op(w) == 0 && (Fn(w) == 8 || Fn(w) == 9))
      || (Op(w) == 0x10 && Rs(w) == 16 && Fn(w) == 0x18)
  }

  /** It is a load and the word after it takes the loaded register as an operand. */
  predicate LoadThenUse(a: Isa.Arch) {
    match (WordFound(a, a.pc), WordFound(a, Pc4(a)))
    case (Some(w), Some(next)) => IsLoad(w) && Rt(w) != 0 && Reads(next, Rt(w))
    case _ => false
  }

  /** The cycles from this instruction's turn in EX to the next one's. */
  function Gap(a: Isa.Arch): nat {
    if Isa.Step(a).1 == Exception then (if Accesses(a) then 4 else 3)
    else if Transfers(a) then 3
    else if Jumps(a) || LoadThenUse(a) then 2
    else 1
  }

  /** The cycle in which instruction `k` of the run executes. */
  function ExecutedAt(a: Isa.Arch, k: nat): nat {
    if k == 0 then 2 else ExecutedAt(a, k - 1) + Gap(Isa.Run(a, k - 1))
  }

  lemma FoundIsRead(a: Isa.Arch, addr: Word)
    ensures WordFound(a, addr) == ReadWord(a.mem, addr)
  {
    ManualProof.WordRead(a.mem, addr);
  }

  /** The instruction in EX is the word at the PC. */
  lemma WordInEx(s: State)
    requires Inv(s) && FreshInEx(s) && Commits(s)
    ensures var x := s.idEx; var a := Abs(s);
            && a.pc == x.pc && a.mem == DrainedMem(s) && a.regs == DrainedRegs(s)
            && match WordFound(a, a.pc)
               case None => x.earlyTrap.Some?
               case Some(w) => x.decoded.raw == w && (x.earlyTrap.None? <==> Decode(w).Some?) &&
                               (x.earlyTrap.None? ==> Decode(w) == Some(x.decoded) && x.ctrl == DeriveControl(x.decoded))
  {
    FoundIsRead(Abs(s), Abs(s).pc);
    hide WordFound, MemoryAccess, WriteBack, Decode, ReadWord, SelfJump, NoLoadUse, DeriveControl;
  }

  lemma AccessInEx(s: State)
    requires Inv(s) && FreshInEx(s) && Commits(s)
    ensures Accesses(Abs(s)) <==> s.idEx.ctrl.memRead || s.idEx.ctrl.memWrite
  {
    WordInEx(s);
    hide Abs, Op, Decode, WordFound, DeriveControl, FreshInEx, Chained, NoLoadUse;
    if s.idEx.earlyTrap.None? {
      LoadsExactly(s.idEx.decoded);
    } else {
      EarlyIsInert(s);
      if Accesses(Abs(s)) {
        ManualProof.ImmediateDecodes(s.idEx.decoded.raw);
      }
    }
  }

  lemma EarlyIsInert(s: State)
    requires Inv(s) && s.idEx.valid && s.idEx.earlyTrap.Some?
    ensures s.idEx.ctrl == NO_CONTROL
  {
    hide Decode, DeriveControl, Chained, NoLoadUse, SelfJump;
  }

  /** EX hands an access to MEM only if the instruction is one, and then neither traps nor
      redirects. */
  lemma AccessPasses(s: State)
    requires Inv(s) && FreshInEx(s) && Commits(s)
    ensures var y := ExOf(s).next.ctrl; y.memRead || y.memWrite ==> Accesses(Abs(s))
    ensures Accesses(Abs(s)) ==> ExOf(s).trap.None? && ExOf(s).redirect.None?
  {
    hide Inv, FreshInEx, Abs, ExecuteStage, Accesses, StoreOf;
    AccessInEx(s);
    ExShape(s);
    StoreFromEx(s);
    StoreControl(s);
    if s.idEx.ctrl.memRead {
      LoadFlows(s);
    }
  }

  lemma StoreControl(s: State)
    requires Inv(s) && FreshInEx(s) && Commits(s)
    ensures StoreOf(Abs(s)).Some? <==> s.idEx.ctrl.memWrite
  {
    ProgramInEx(s);
    hide Abs, ReadWord, Decode, FreshInEx, Chained, NoLoadUse, SignExtend, Add;
    if s.idEx.earlyTrap.None? {
      ControlInEx(s);
    } else {
      EarlyIsInert(s);
    }
  }

  lemma NoAccessNoTrap(mem: Bytes, x: ExMem)
    ensures MemoryAccess(mem, x).trap.Some? ==> x.ctrl.memRead || x.ctrl.memWrite
  {
  }

  /** A load or a store traps in MEM, everything else in EX. */
  lemma TrapPlace(s: State)
    requires Inv(s) && Coherent(s) && Commits(s)
    ensures Isa.Step(Abs(s)).1 == Exception <==> ExOf(s).trap.Some? || PendingTrap(Step(s).state).Some?
    ensures ExOf(s).trap.Some? ==> !Accesses(Abs(s))
    ensures PendingTrap(Step(s).state).Some? ==> Accesses(Abs(s))
    ensures Accesses(Abs(s)) ==> ExOf(s).trap.None? && ExOf(s).redirect.None?
  {
    hide Step, Isa.Step, Inv, Abs, ExecuteStage, Accesses, MemoryAccess, FreshInEx;
    TrapAgrees(s);
    AccessPasses(s);
    NextExMem(s);
    NoAccessNoTrap(Step(s).state.mem, Step(s).state.exMem);
  }

  /** EX redirects exactly for the control transfers that ID has not resolved. */
  lemma TransferInEx(s: State)
    requires Inv(s) && Coherent(s) && Commits(s) && Isa.Step(Abs(s)).1 != Exception
    ensures ExOf(s).redirect.Some? <==> Transfers(Abs(s))
    ensures s.idEx.decoded.fields.JForm? <==> Jumps(Abs(s))
  {
    WordInEx(s);
    TrapPlace(s);
    FreshIssues(s);
    RedirectExactly(Abs(s), s.idEx, ForwardOperands(s.idEx, s.exMem, s.memWb));
    var w := WordFound(Abs(s), Abs(s).pc).value;
    RedirectsMeans(Abs(s), w);
  }

  lemma RedirectsMeans(a: Isa.Arch, w: Word)
    requires WordFound(a, a.pc) == Some(w) && Decode(w).Some?
    ensures var d := Decode(w).value;
            && (d.fields.JForm? <==> Jumps(a))
            && (Redirects(a, d) <==> Transfers(a) || Jumps(a))
            && !(Transfers(a) && Jumps(a))
  {
    hide Op, Rs, Rt, Rd, Shamt, Imm, Decode, WordFound;
    ManualProof.FunctNumber(Fn(w));
    if Op(w) == 0 {
      ManualProof.SpecialDecodes(w);
    } else if Op(w) == 0x10 {
      ManualProof.Cop0Decodes(w);
    } else if Op(w) == 2 || Op(w) == 3 {
      ManualProof.JumpDecodes(w);
    } else if OpcodeOf(Op(w)).Some? {
      ManualProof.ImmediateDecodes(w);
    } else {
      ManualProof.UnknownDecodes(w);
    }
  }

  /** Behind an instruction that is not diverted, IF/ID holds the word after it. */
  lemma WordBehind(s: State)
    requires Inv(s) && Coherent(s) && Commits(s) && !Diverts(s) && !s.idEx.decoded.fields.JForm?
    ensures var a := Abs(s); var f := s.ifId;
            && f.valid && (f.fetchFault <==> WordFound(a, Pc4(a)).None?)
            && (!f.fetchFault ==> WordFound(a, Pc4(a)) == Some(f.instr))
  {
    var a := Abs(s);
    WordInEx(s);
    HeldPlace(s);
    ManualProof.Pc4Means(a);
    FoundIsRead(a, Pc4(a));
    hide WordFound, MemoryAccess, WriteBack, Decode, ReadWord, SelfJump, NoLoadUse, DeriveControl, Diverts,
         DecodeStage, Pc4, Add, Latched, Held, FreshInEx;
  }

  lemma HeldPlace(s: State)
    requires Inv(s) && s.idEx.valid
    ensures s.idEx.pc4 == Add(s.idEx.pc, 4)
  {
    HeldFields(Held(s.idEx));
    hide Latched, DecodeStage, Chained, NoLoadUse;
  }

  /** On the program: a cycle stalls exactly when it executes a load whose result the next
      word takes. */
  lemma StallOnProgram(s: State)
    requires Inv(s) && Coherent(s) && Commits(s) && Isa.Step(Abs(s)).1 != Exception
    ensures Step(s).ps.loadStall <==> LoadThenUse(Abs(s))
  {
    StallExactly(s);
    WordInEx(s);
    TrapPlace(s);
    NextExMem(s);
    StepCoherentWith(s);
    hide Step, Isa.Step, Abs, ExecuteStage, Inv, Coherent, FreshInEx, MemoryAccess, WordFound, Reads, Op, Rt, Decode;
    assert Coherent(s) ==> FreshInEx(s) by {
      FreshIfCoherent(s);
    }
    var x := s.idEx;
    if x.earlyTrap.None? && IsLoad(x.decoded.raw) {
      LoadNotJump(x.decoded);
      assert Accesses(Abs(s));
      WordBehind(s);
    }
  }

  lemma LoadNotJump(d: Instr)
    requires Decode(d.raw) == Some(d) && IsLoad(d.raw)
    ensures d.fields.IForm?
  {
    LoadsExactly(d);
  }

  lemma FreshIfCoherent(s: State)
    ensures Coherent(s) && Commits(s) ==> FreshInEx(s)
  {
    hide FreshInEx;
  }

  // ---- From one turn in EX to the next ----

  /** Filling up: with EX empty, what IF/ID holds moves on and a fetch follows it. */
  lemma Fills(s: State)
    requires Inv(s) && PendingTrap(s).None? && !s.idEx.valid
    ensures var n := Step(s).state;
            && Inv(n) && PendingTrap(n).None?
            && (n.idEx.valid <==> s.ifId.valid)
            && (n.ifId.valid || n.idEx.valid)
  {
    IdleAdvances(s);
    IdleCycle(s);
    hide Step, Inv, Fetch, DecodeStage, WriteBack, MemoryAccess;
  }

  /** `g` is the distance to the next instruction executed. */
  predicate NextAfter(s: State, g: nat) {
    g > 0 && Commits(Run(s, g)) && forall i: nat | 0 < i < g :: !Commits(Run(s, i))
  }

  lemma FillsOnce(s: State, k: nat)
    requires Inv(Run(s, k)) && PendingTrap(Run(s, k)).None? && !Run(s, k).idEx.valid && Run(s, k).ifId.valid
    requires forall i: nat | 0 < i < k :: !Commits(Run(s, i))
    ensures NextAfter(s, k + 1)
  {
    hide Step, Inv, PendingTrap;
    Fills(Run(s, k));
    assert Run(s, k + 1) == Step(Run(s, k)).state;
  }

  lemma FillsTwice(s: State, k: nat)
    requires Inv(Run(s, k)) && PendingTrap(Run(s, k)).None? && !Run(s, k).idEx.valid && !Run(s, k).ifId.valid
    requires forall i: nat | 0 < i < k :: !Commits(Run(s, i))
    ensures NextAfter(s, k + 2)
  {
    hide Step, Inv, PendingTrap, Run;
    Fills(Run(s, k));
    RunOneMore(s, k);
    FillsOnce(s, k + 1);
  }

  lemma RunOneMore(s: State, k: nat)
    ensures Run(s, k + 1) == Step(Run(s, k)).state && Run(s, 0) == s
  {
  }

  lemma FlushEmpties(s: State)
    requires Inv(s) && Commits(s) && (ExOf(s).trap.Some? || ExOf(s).redirect.Some?)
    ensures !Step(s).state.ifId.valid && !Step(s).state.idEx.valid
  {
    hide Step, Inv, ExecuteStage, MemoryAccess, WriteBack, Cp0After;
    FlushCycle(s);
  }

  lemma FlushGap(s: State)
    requires Inv(s) && Coherent(s) && Commits(s) && (ExOf(s).trap.Some? || ExOf(s).redirect.Some?)
    ensures NextAfter(s, 3)
  {
    hide Step, Isa.Step, Inv, Coherent, Abs, ExOf, PendingTrap, Run, NextAfter, Accesses;
    TrapPlace(s);
    StepKeeps(s);
    FlushEmpties(s);
    RunOneMore(s, 0);
    FillsTwice(s, 1);
  }

  lemma MemTrapEmpties(s: State)
    requires PendingTrap(s).Some?
    ensures var n := Step(s).state; !n.ifId.valid && !n.idEx.valid && PendingTrap(n).None?
  {
    hide Step, WriteBack;
    MemTrapCycle(s);
    BubbleDrains(Step(s).state);
  }

  lemma MemTrapGap(s: State)
    requires Inv(s) && Commits(s) && PendingTrap(Step(s).state).Some?
    ensures NextAfter(s, 4)
  {
    hide Step, Inv, PendingTrap, Run, NextAfter;
    StepKeeps(s);
    StepKeeps(Step(s).state);
    RunOneMore(s, 0);
    RunOneMore(s, 1);
    MemTrapEmpties(Step(s).state);
    FillsTwice(s, 2);
  }

  lemma FallThroughGap(s: State)
    requires Inv(s) && Commits(s) && ExOf(s).trap.None? && ExOf(s).redirect.None?
    requires PendingTrap(Step(s).state).None?
    ensures NextAfter(s, if s.idEx.decoded.fields.JForm? || LoadUseHazard(s.idEx, s.ifId) then 2 else 1)
  {
    var n := Step(s).state;
    StepKeeps(s);
    FallThroughCycle(s);
    FetchLatched(DrainedMem(s), s.pc);
    if s.ifId.valid {
      HeldDecode(WriteBack(s.regs, s.memWb), s.ifId);
    }
    RunOneMore(s, 0);
    hide Step, ExecuteStage, MemoryAccess, WriteBack, Run, LoadUseHazard, DecodeStage, Fetch, Latched, Held;
    if s.idEx.decoded.fields.JForm? || LoadUseHazard(s.idEx, s.ifId) {
      StallHasWord(s);
      hide Inv;
      FillsOnce(s, 1);
    }
  }

  /** The next instruction executes `Gap` cycles after this one, a distance that depends
      on the program alone. */
  lemma GapExactly(s: State)
    requires Inv(s) && Coherent(s) && Commits(s)
    ensures NextAfter(s, Gap(Abs(s)))
  {
    hide Step, Isa.Step, Inv, Coherent, Abs, ExOf, PendingTrap, Commits, Accesses, Jumps, Transfers,
         LoadThenUse, LoadUseHazard, NextAfter;
    TrapPlace(s);
    JumpSeen(s);
    if ExOf(s).trap.Some? {
      FlushGap(s);
    } else if PendingTrap(Step(s).state).Some? {
      MemTrapGap(s);
    } else {
      TransferInEx(s);
      StallOnProgram(s);
      if ExOf(s).redirect.Some? {
        FlushGap(s);
      } else {
        FallThroughGap(s);
      }
    }
  }

  lemma {:induction false} NoneCommitted(s: State, i: nat, g: nat)
    requires NextAfter(s, g) && Commits(s) && 0 < i <= g
    ensures CommitCount(s, i) == 1
  {
    hide Step, Commits;
    RunOneMore(s, 0);
    if i > 1 {
      NoneCommitted(s, i - 1, g);
    }
  }

  lemma FirstTurn(s: State)
    requires Drained(s)
    ensures Commits(Run(s, 2)) && CommitCount(s, 2) == 0
  {
    hide Step, Inv, Drained, PendingTrap;
    EmptyPipeline(s);
    StartsEmpty(s);
    RunOneMore(s, 0);
    RunOneMore(s, 1);
    Fills(s);
    Fills(Run(s, 1));
    assert !Commits(Run(s, 0)) && CommitCount(s, 1) == 0;
    assert !Commits(Run(s, 1));
  }

  lemma StartsEmpty(s: State)
    requires Drained(s)
    ensures PendingTrap(s).None? && !s.idEx.valid && !s.ifId.valid
  {
  }

  /** The schedule: in every run from an empty pipeline instruction `k` executes in cycle
      `ExecutedAt`, a number computed from the program alone, on the state the first `k`
      instructions leave. */
  lemma {:induction false} Scheduled(s: State, k: nat)
    requires Drained(s) && StoresClear(Abs(s), k)
    ensures var n := ExecutedAt(Abs(s), k);
            Commits(Run(s, n)) && CommitCount(s, n) == k && Abs(Run(s, n)) == Isa.Run(Abs(s), k)
  {
    hide Step, Isa.Step, Inv, Coherent, Abs, Commits, Overtakes, Gap, NextAfter, Drained;
    EmptyPipeline(s);
    if k == 0 {
      FirstTurn(s);
      RunRefinesFrom(s, 2);
    } else {
      Scheduled(s, k - 1);
      var m := ExecutedAt(Abs(s), k - 1);
      var t := Run(s, m);
      RunRefinesFrom(s, m);
      GapExactly(t);
      var g := Gap(Abs(t));
      GapCommits(t, g);
      RunSplits(s, m, g);
      RunRefinesFrom(s, m + g);
    }
  }

  lemma GapCommits(s: State, g: nat)
    requires NextAfter(s, g) && Commits(s)
    ensures Commits(Run(s, g)) && CommitCount(s, g) == 1
  {
    hide Commits, Run;
    NoneCommitted(s, g, g);
  }

  // ---- When it halts ----

  lemma HaltFlagComes(s: State)
    requires Inv(s)
    ensures Step(s).state.memWb.isHalt ==> s.exMem.isHalt
    ensures Step(s).state.exMem.isHalt ==> s.idEx.isHalt && Commits(s)
  {
    NextMemWb(s);
    NextExMem(s);
    ExShape(s);
    BubbleCarriesNoHalt(s.mem, s.exMem);
    hide Step, Inv, MemoryAccess, ExecuteStage;
  }

  lemma {:induction false} CountGrows(s: State, m: nat, n: nat)
    requires m <= n
    ensures CommitCount(s, m) <= CommitCount(s, n)
  {
    hide Commits, Step;
    if m < n {
      CountGrows(s, m, n - 1);
    }
  }

  /** A run reports Halt for the first time two cycles after the first self-jump of the
      program executes, so the cycle is known from the program alone. */
  lemma HaltsInCycle(s: State, k: nat, m: nat)
    requires Drained(s) && StoresClear(Abs(s), k)
    requires AtSelfJump(Isa.Run(Abs(s), k)) && forall i: nat | i < k :: !AtSelfJump(Isa.Run(Abs(s), i))
    requires m <= ExecutedAt(Abs(s), k) + 2
    ensures Step(Run(s, m)).result == Halt <==> m == ExecutedAt(Abs(s), k) + 2
  {
    hide Step, Inv, Coherent, Commits, Overtakes, HaltFlags, AtSelfJump, Isa.Step, Drained, Abs, Gap;
    var n := ExecutedAt(Abs(s), k);
    EmptyPipeline(s);
    Scheduled(s, k);
    if m == n + 2 {
      HaltsThen(s, k, n);
    } else if Step(Run(s, m)).result == Halt {
      HaltedJump(s, k, n, m);
    }
  }

  lemma HaltsThen(s: State, k: nat, n: nat)
    requires Drained(s) && StoresClear(Abs(s), k) && AtSelfJump(Isa.Run(Abs(s), k))
    requires Commits(Run(s, n)) && CommitCount(s, n) == k
    ensures Step(Run(s, n + 2)).result == Halt
  {
    hide Step, Inv, Coherent, Commits, Overtakes, HaltFlags, AtSelfJump, Isa.Step, Drained, Abs;
    EmptyPipeline(s);
    forall i: nat | i < CommitCount(s, n + 2)
      ensures !Overtakes(Isa.Run(Abs(s), i))
    {
      if k <= i {
        StaysAtSelfJump(Abs(s), k, i);
      }
    }
    CountGrows(s, n, n + 2);
    RunRefinesFrom(s, n);
    JumpReachesWb(Run(s, n));
    HaltFlagsAlways(s, n + 2);
    assert Run(s, n + 2) == Step(Run(s, n + 1)).state;
    HaltCycle(Run(s, n + 2));
  }

  /** An earlier Halt would need an earlier self-jump. */
  lemma HaltedJump(s: State, k: nat, n: nat, m: nat)
    requires Drained(s) && StoresClear(Abs(s), k)
    requires forall i: nat | i < k :: !AtSelfJump(Isa.Run(Abs(s), i))
    requires CommitCount(s, n) == k && m < n + 2
    ensures Step(Run(s, m)).result != Halt
  {
    hide Step, Inv, Coherent, Commits, Overtakes, AtSelfJump, Isa.Step, Drained, Abs;
    EmptyPipeline(s);
    HaltResult(Run(s, m));
    if Step(Run(s, m)).result == Halt {
      NoFlagAtStart(s);
      assert m > 0 && Run(s, m) == Step(Run(s, m - 1)).state;
      RunKeeps(s, m - 1);
      HaltFlagComes(Run(s, m - 1));
      assert m > 1 && Run(s, m - 1) == Step(Run(s, m - 2)).state;
      RunKeeps(s, m - 2);
      HaltFlagComes(Run(s, m - 2));
      CountGrows(s, m - 1, n);
      RunRefinesFrom(s, m - 2);
      HaltInIdEx(Run(s, m - 2));
      assert false;
    }
  }

  lemma NoFlagAtStart(s: State)
    requires Drained(s)
    ensures !s.memWb.isHalt && !s.exMem.isHalt
  {
  }

  // ---- Stalls and flushes, counted ----

  /** Loads among the first `k` instructions whose result the next word takes. */
  function LoadsThenUsed(a: Isa.Arch, k: nat): nat {
    if k == 0 then 0 else LoadsThenUsed(a, k - 1) + One(LoadThenUse(Isa.Run(a, k - 1)))
  }

  /** Taken branches, register jumps and ERETs among the first `k` instructions. */
  function Transferred(a: Isa.Arch, k: nat): nat {
    if k == 0 then 0 else Transferred(a, k - 1) + One(Transfers(Isa.Run(a, k - 1)))
  }

  /** While no instruction traps, the pipeline stalls once for each load whose result the
      next word takes and flushes once for each transfer of control EX resolves, and
      never otherwise. */
  lemma {:induction false} StallsCounted(s: State, n: nat)
    requires Drained(s) && StoresClear(Abs(s), CommitCount(s, n))
    requires forall i: nat | i < CommitCount(s, n) :: Isa.Step(Isa.Run(Abs(s), i)).1 != Exception
    ensures TallyOf(s, n).stalls == LoadsThenUsed(Abs(s), CommitCount(s, n))
    ensures TallyOf(s, n).flushes == Transferred(Abs(s), CommitCount(s, n))
  {
    hide Step, Isa.Step, Inv, Coherent, Abs, Commits, Overtakes, LoadThenUse, Transfers, Drained, PendingTrap,
         JumpsInId;
    if n > 0 {
      var t := Run(s, n - 1);
      StallsCounted(s, n - 1);
      EmptyPipeline(s);
      RunRefinesFrom(s, n - 1);
      TrapsPending(s, n - 1);
      FlagsOnProgram(t);
    }
  }

  lemma FlagsOnProgram(s: State)
    requires Inv(s) && Coherent(s) && PendingTrap(s).None?
    requires Commits(s) ==> Isa.Step(Abs(s)).1 != Exception
    ensures Step(s).ps.loadStall <==> Commits(s) && LoadThenUse(Abs(s))
    ensures Step(s).ps.branchFlush <==> Commits(s) && Transfers(Abs(s))
  {
    hide Step, Isa.Step, Inv, Coherent, Abs, ExecuteStage, LoadThenUse, Transfers, MemoryAccess;
    JumpSeen(s);
    if Commits(s) {
      StallOnProgram(s);
      TransferInEx(s);
      TrapPlace(s);
    } else {
      StallExactly(s);
      EmptyExMem(s);
    }
  }

  /** No trap is under way if no instruction executed so far trapped. */
  lemma TrapsPending(s: State, n: nat)
    requires Drained(s) && StoresClear(Abs(s), CommitCount(s, n))
    requires forall i: nat | i < CommitCount(s, n) :: Isa.Step(Isa.Run(Abs(s), i)).1 != Exception
    ensures PendingTrap(Run(s, n)).None?
  {
    hide Step, Isa.Step, Overtakes, Commits, PendingTrap;
    EmptyPipeline(s);
    PreciseExceptions(s, n);
    NoTraps(Abs(s), CommitCount(s, n));
  }

  lemma {:induction false} NoTraps(a: Isa.Arch, k: nat)
    requires forall i: nat | i < k :: Isa.Step(Isa.Run(a, i)).1 != Exception
    ensures IsaTraps(a, k) == []
  {
    hide Isa.Step;
    if k > 0 {
      NoTraps(a, k - 1);
    }
  }
}
