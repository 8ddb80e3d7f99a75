/** Where the code does less than its comments or its other half lead one to expect, and
    exactly when. */
module Differences {
  import opened Words
  import opened Decoder
  import opened Memory
  import opened Registers
  import opened Cp0
  import opened Control
  import opened Pipeline
  import opened PipelineUnits
  import opened ExecAgreement
  import opened Refinement
  import opened Invariance
  import opened Runs
  import opened Halting
  import opened Progress
  import Alu
  import Isa

  // ---- Halt ----

  /** The instruction at the PC is a branch or register jump to itself, or an ERET to itself. */
  predicate SelfTransfer(a: Isa.Arch) {
    match ReadWord(a.mem, a.pc)
    case None => false
    case Some(word) =>
      match Decode(word)
      case None => false
      case Some(d) =>
        match d.fields
        case IForm(_, _, imm) => Redirects(a, d) && imm == 0xFFFF
        case RForm(rs, _, _, _, _) =>
          Redirects(a, d) && a.pc == if d.opcode == Opcode.COP0 then a.cp0.epc else ReadReg(a.regs, rs)
        case _ => false
  }

  lemma SelfBranch(pc: Word, imm: Half)
    ensures BranchTarget(Add(pc, 4), imm) == pc <==> imm == 0xFFFF
  {
  }

  /** The single-cycle CPU reports Halt on exactly two kinds of instruction: the J and JAL
      to themselves that the pipeline knows, and other transfers to themselves. */
  lemma HaltExactly(a: Isa.Arch)
    ensures Isa.Step(a).1 == Halt <==> AtSelfJump(a) || SelfTransfer(a)
    ensures !(AtSelfJump(a) && SelfTransfer(a))
  {
    if ReadWord(a.mem, a.pc).Some? {
      var word := ReadWord(a.mem, a.pc).value;
      JumpWord(word, a.pc);
      if Decode(word).Some? {
        DecodeWellFormed(word);
        var d := Decode(word).value;
        match d.fields
        case JForm(_) => HaltJ(a, d);
        case RForm(_, _, _, _, _) => HaltR(a, d);
        case IForm(_, _, _) => HaltI(a, d);
      }
    }
  }

  /** A word is a self-jump exactly when it decodes to a jump to its own address. */
  lemma JumpWord(word: Word, pc: Word)
    ensures SelfJump(word, pc) <==>
              Decode(word).Some? && Decode(word).value.fields.JForm?
              && JumpTarget(Add(pc, 4), Decode(word).value.fields.target) == pc
  {
    hide JumpTarget;
  }

  lemma HaltJ(a: Isa.Arch, d: Instr)
    requires ReadWord(a.mem, a.pc).Some? && Decode(ReadWord(a.mem, a.pc).value) == Some(d) && d.fields.JForm?
    ensures Isa.Step(a).1 == Halt <==> JumpTarget(Add(a.pc, 4), d.fields.target) == a.pc
  {
    hide ReadWord, Decode, JumpTarget;
  }

  lemma HaltR(a: Isa.Arch, d: Instr)
    requires ReadWord(a.mem, a.pc).Some? && Decode(ReadWord(a.mem, a.pc).value) == Some(d) && d.fields.RForm? && WellFormed(d)
    ensures Isa.Step(a).1 == Halt <==> SelfTransfer(a)
  {
    hide ReadWord, Decode, Alu.Execute, Alu.Control;
  }

  lemma HaltI(a: Isa.Arch, d: Instr)
    requires ReadWord(a.mem, a.pc).Some? && Decode(ReadWord(a.mem, a.pc).value) == Some(d) && d.fields.IForm? && WellFormed(d)
    ensures Isa.Step(a).1 == Halt <==> SelfTransfer(a)
  {
    hide ReadWord, Decode, Alu.Value, LoadData, StoreData, BranchTarget;
    SelfBranch(a.pc, d.fields.imm);
    Alu.ZeroMeaning(ReadReg(a.regs, d.fields.rs), ReadReg(a.regs, d.fields.rt), 0);
  }

  lemma {:induction false} StandsStill(a: Isa.Arch, k: nat)
    requires Isa.Step(a).0 == a
    ensures Isa.Run(a, k) == a
  {
    hide Isa.Step;
    if k != 0 {
      StandsStill(a, k - 1);
    }
  }

  lemma StoreNoHalt(a: Isa.Arch)
    requires Overtakes(a)
    ensures Isa.Step(a).1 != Halt
  {
    HaltExactly(a);
    hide Isa.Step, FallsThrough;
  }

  /** A program that stands still on anything but a J or JAL: the single-cycle CPU reports
      Halt at once, the pipeline never. */
  lemma StandstillNeverHalts(s: State, m: nat)
    requires Drained(s) && Isa.Step(Abs(s)) == (Abs(s), Halt) && !AtSelfJump(Abs(s))
    ensures Step(Run(s, m)).result != Halt
  {
    var a := Abs(s);
    hide Step, Isa.Step, Abs, Drained, AtSelfJump, Overtakes;
    forall k: nat ensures StoresClear(a, k) && !AtSelfJump(Isa.Run(a, k)) {
      forall i: nat | i <= k ensures Isa.Run(a, i) == a {
        StandsStill(a, i);
      }
      if Overtakes(a) {
        StoreNoHalt(a);
      }
    }
    HaltsIffSelfJump(s);
  }

  const BEQ_SELF: Word := 0x1000_FFFF   // beq $zero, $zero, -1

  lemma BeqSelfStandsStill(a: Isa.Arch)
    requires ReadWord(a.mem, a.pc) == Some(BEQ_SELF)
    ensures Isa.Step(a) == (a, Halt) && !AtSelfJump(a)
  {
    BeqSelfDecodes();
    hide Decode, ReadWord, Alu.Value, BranchTarget;
    SelfBranch(a.pc, 0xFFFF);
    Alu.ZeroMeaning(0, 0, 0);
  }

  lemma BeqSelfDecodes()
    ensures Decode(BEQ_SELF) == Some(Instr(BEQ_SELF, Opcode.BEQ, IForm(0, 0, 0xFFFF)))
  {
  }

  function BranchExample(): State {
    State(ZERO_REGS, LoadWords(seq(4, _ => 0), 0, [BEQ_SELF]),
          Cp0State(0, 0, 0, 0, ExceptionCode.RI), 0, IF_BUBBLE, ID_BUBBLE, EX_BUBBLE, MEM_BUBBLE, 0)
  }

  /** The two CPUs do not agree on Halt: one branch to itself is enough. */
  lemma HaltResultsDiffer()
    ensures exists s: State ::
              Drained(s) && Isa.Step(Abs(s)).1 == Halt && forall m: nat :: Step(Run(s, m)).result != Halt
  {
    var s := BranchExample();
    LoadedImage(seq(4, _ => 0), 0, [BEQ_SELF]);
    assert ReadWord(s.mem, Wrapped(0 + 4 * 0)) == Some([BEQ_SELF][0]);
    EmptyPipeline(s);
    BeqSelfStandsStill(Abs(s));
    hide Step, Isa.Step, Abs, AtSelfJump, LoadWords, BranchExample;
    forall m: nat ensures Step(Run(s, m)).result != Halt {
      StandstillNeverHalts(s, m);
    }
  }

  /** They agree that a program halts, or that it does not, exactly if it comes to a J or JAL
      to itself, or never transfers to itself by other means. */
  lemma HaltsAgree(s: State)
    requires Drained(s) && forall k: nat :: StoresClear(Abs(s), k)
    ensures ((exists m: nat :: Step(Run(s, m)).result == Halt) <==> (exists k: nat :: Isa.Step(Isa.Run(Abs(s), k)).1 == Halt))
            <==>
            ((exists k: nat :: AtSelfJump(Isa.Run(Abs(s), k))) || (forall k: nat :: !SelfTransfer(Isa.Run(Abs(s), k))))
  {
    hide Step, Isa.Step, Abs, Drained, AtSelfJump, StoresClear, SelfTransfer;
    HaltsIffSelfJump(s);
    forall k: nat
      ensures Isa.Step(Isa.Run(Abs(s), k)).1 == Halt <==> AtSelfJump(Isa.Run(Abs(s), k)) || SelfTransfer(Isa.Run(Abs(s), k))
    {
      HaltExactly(Isa.Run(Abs(s), k));
    }
  }

  // ---- BadVAddr ----

  predicate AddressError(code: ExceptionCode) {
    code == ExceptionCode.AdEL || code == ExceptionCode.AdES
  }

  /** A trap of the single-cycle CPU that is not an address error leaves BadVAddr 0, so it
      keeps what was there, as the comment on `raise` has it, only if that was 0. */
  lemma TrapClearsBadVAddr(a: Isa.Arch)
    requires Isa.Step(a).1 == Exception && !AddressError(Isa.Step(a).0.cp0.last)
    ensures Isa.Step(a).0.cp0.badVAddr == 0
    ensures Isa.Step(a).0.cp0.badVAddr == a.cp0.badVAddr <==> a.cp0.badVAddr == 0
  {
    hide Decode, ReadWord, Alu.Execute, LoadData, StoreData, BranchTarget, JumpTarget;
  }

  const SYSCALL_WORD: Word := 0x0000_000C
  const LW_ODD: Word := 0x8C08_0001   // lw $t0, 1($zero)

  /** A SYSCALL loses whatever bad address there was. */
  lemma SyscallLosesBadVAddr(a: Isa.Arch)
    requires ReadWord(a.mem, a.pc) == Some(SYSCALL_WORD) && a.cp0.badVAddr != 0
    ensures Isa.Step(a).1 == Exception && Isa.Step(a).0.cp0.last == ExceptionCode.Sys
    ensures Isa.Step(a).0.cp0.badVAddr == 0 != a.cp0.badVAddr
    ensures Isa.Step(a).0.pc == EXCEPTION_VECTOR
  {
    SyscallDecodes();
    hide Decode, ReadWord, Isa.ExecIType, Isa.ExecJType, Isa.ExecCop0, Alu.Control;
  }

  lemma SyscallDecodes()
    ensures Decode(SYSCALL_WORD) == Some(Instr(SYSCALL_WORD, Opcode.SPECIAL, RForm(0, 0, 0, 0, Funct.SYSCALL)))
  {
  }

  lemma LwOddDecodes()
    ensures Decode(LW_ODD) == Some(Instr(LW_ODD, Opcode.LW, IForm(0, 8, 1)))
  {
  }

  /** A misaligned load at 0, in a program whose handler starts with SYSCALL. */
  predicate FaultsIntoSyscall(a: Isa.Arch) {
    a.pc == 0 && ReadWord(a.mem, 0) == Some(LW_ODD) && ReadWord(a.mem, EXCEPTION_VECTOR) == Some(SYSCALL_WORD)
  }

  lemma MisalignedLoadTraps(a: Isa.Arch)
    requires FaultsIntoSyscall(a)
    ensures Isa.Step(a) == (Isa.RaiseAt(a, ExceptionCode.AdEL, 1), Exception)
  {
    LwOddDecodes();
    assert ReadWord(a.mem, 1).None?;
    hide Decode, ReadWord, Isa.RaiseAt;
    assert Alu.Control(Instr(LW_ODD, Opcode.LW, IForm(0, 8, 1))) == Some(Alu.AluOp.ADDU);
  }

  /** Two steps of such a program: the load records its address, the SYSCALL wipes it out. */
  lemma BadVAddrLostInRun(a: Isa.Arch)
    requires FaultsIntoSyscall(a)
    ensures Isa.Run(a, 1).cp0.badVAddr == 1 && Isa.Run(a, 1).cp0.last == ExceptionCode.AdEL
    ensures Isa.Run(a, 2).cp0.badVAddr == 0 && Isa.Run(a, 2).cp0.last == ExceptionCode.Sys
  {
    MisalignedLoadTraps(a);
    var b := Isa.Step(a).0;
    SyscallLosesBadVAddr(b);
    hide Isa.Step;
    assert Isa.Run(a, 0) == a && Isa.Run(a, 1) == b;
    assert Isa.Run(a, 2) == Isa.Step(b).0;
  }

  /** There is such a program, in memory just large enough to hold its handler. */
  lemma SuchAProgram()
    ensures exists a: Isa.Arch :: FaultsIntoSyscall(a)
  {
    hide PutWord, ReadWord;
    var blank: Bytes := seq(EXCEPTION_VECTOR + 4, _ => 0);
    var handler := PutWord(blank, EXCEPTION_VECTOR, SYSCALL_WORD);
    ReadAfterPut(blank, EXCEPTION_VECTOR, SYSCALL_WORD, EXCEPTION_VECTOR);
    ReadAfterPut(handler, 0, LW_ODD, EXCEPTION_VECTOR);
    ReadAfterPut(handler, 0, LW_ODD, 0);
    assert FaultsIntoSyscall(Isa.Arch(ZERO_REGS, PutWord(handler, 0, LW_ODD), Cp0State(0, 0, 0, 0, ExceptionCode.RI), 0));
  }
}
