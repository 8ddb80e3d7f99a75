/** What every cycle keeps: the structural invariant always, coherence of the words
    in flight exactly when no store overtakes a fetch. */
module Invariance {
  import opened Words
  import opened Decoder
  import opened Memory
  import opened Registers
  import opened Cp0
  import opened Control
  import opened PipelineUnits
  import opened Pipeline
  import opened ExecAgreement
  import opened Refinement
  import Alu
  import Isa

  predicate ShapedLike(y: ExMem, x: IdEx) {
    && (y.valid || y == EX_BUBBLE)
    && y.ctrl.memToReg == y.ctrl.memRead
    && (y.valid ==> y.pc == x.pc && y.isHalt == x.isHalt && y.opcode == x.decoded.opcode)
    && (y.valid && y.ctrl.memRead ==> x.ctrl.memRead && y.writeReg == x.rt)
    && (y.ctrl.memWrite ==> y.valid && !y.ctrl.memRead && y.opcode == Opcode.SW && x.decoded.fields.IForm?)
  }

  lemma AluShape(x: IdEx, ops: ExOperands)
    requires WellFormed(x.decoded) && x.ctrl == DeriveControl(x.decoded)
    requires x.decoded.fields.IForm? ==> x.rt == x.decoded.fields.rt
    ensures ShapedLike(ExecuteAlu(x, ops).next, x)
  {
    hide Alu.Execute, Alu.Control, SignExtend;
  }

  lemma DecodedShape(x: IdEx, ops: ExOperands, cp0: Cp0State)
    requires WellFormed(x.decoded) && x.ctrl == DeriveControl(x.decoded)
    requires x.decoded.fields.IForm? ==> x.rt == x.decoded.fields.rt
    ensures ShapedLike(ExecuteDecoded(x, ops, cp0).next, x)
  {
    hide Alu.Execute, BranchTarget, ExecuteAlu;
    AluShape(x, ops);
  }

  /** What EX hands to MEM, as far as hazards, stores and halts are concerned. */
  lemma ExShape(s: State)
    requires Inv(s)
    ensures var x := s.idEx; var y := ExOf(s).next;
            && (y.valid || y == EX_BUBBLE)
            && y.ctrl.memToReg == y.ctrl.memRead
            && (y.valid ==> x.valid && x.earlyTrap.None? && y.pc == x.pc && y.isHalt == x.isHalt && y.opcode == x.decoded.opcode)
            && (y.valid && y.ctrl.memRead ==> x.ctrl.memRead && y.writeReg == x.rt)
            && (y.ctrl.memWrite ==> y.valid && !y.ctrl.memRead && y.opcode == Opcode.SW && x.decoded.fields.IForm?)
  {
    var x := s.idEx;
    if x.valid && x.earlyTrap.None? {
      DecodeWellFormed(x.decoded.raw);
      hide ForwardOperands, NoLoadUse, Chained, ExecuteDecoded, DeriveControl, Decode, SelfJump;
      DecodedShape(x, ForwardOperands(x, s.exMem, s.memWb), s.cp0);
    }
  }

  /** A latched word survives decoding. */
  lemma HeldDecode(regs: Regs, f: IfId)
    requires f.valid && Latched(f)
    ensures var id := DecodeStage(regs, f);
            && id.next.valid && Held(id.next) == f
            && (id.jump.Some? <==> id.next.decoded.fields.JForm?)
            && (id.jump.Some? ==> id.jump.value == FallThrough(id.next))
            && (id.next.earlyTrap.None? ==> Decode(f.instr) == Some(id.next.decoded))
  {
    DecodeWellFormed(f.instr);
    if Decode(f.instr).Some? && !Decode(f.instr).value.fields.JForm? {
      NoSelfJump(f.instr, f.pc);
    }
    if Decode(f.instr).None? {
      NoSelfJump(f.instr, f.pc);
    }
  }

  /** Only jumps are halts. */
  lemma NoSelfJump(word: Word, pc: Word)
    ensures SelfJump(word, pc) ==> Decode(word).Some? && Decode(word).value.fields.JForm?
  {
    hide JumpTarget;
  }

  lemma FetchLatched(mem: Bytes, pc: Word)
    ensures var f := Fetch(mem, pc); f.valid && Latched(f) && f.pc == pc && f.pc4 == Add(pc, 4)
  {
    hide SelfJump;
  }

  lemma IdleKeeps(s: State)
    requires Inv(s) && PendingTrap(s).None? && !s.idEx.valid
    ensures Inv(Step(s).state)
  {
    hide Step, Fetch, Latched, Held, DecodeStage, MemoryAccess, WriteBack;
    IdleCycle(s);
    FetchLatched(DrainedMem(s), s.pc);
    MemNextShape(s.mem, s.exMem);
    if s.ifId.valid {
      HeldDecode(WriteBack(s.regs, s.memWb), s.ifId);
      HeldFields(s.ifId);
    }
  }

  lemma HeldFields(f: IfId)
    ensures Latched(f) ==> f.pc4 == Add(f.pc, 4)
    ensures forall x: IdEx :: Held(x).pc == x.pc && Held(x).pc4 == x.pc4
  {
    hide SelfJump;
  }

  lemma MemNextShape(mem: Bytes, x: ExMem)
    ensures var m := MemoryAccess(mem, x); m.next.valid || m.next == MEM_BUBBLE
  {
  }

  lemma FallThroughKeeps(s: State)
    requires Inv(s) && Commits(s) && ExOf(s).trap.None? && ExOf(s).redirect.None?
    ensures Inv(Step(s).state)
  {
    hide Step, Fetch, Latched, Held, DecodeStage, MemoryAccess, WriteBack, ExecuteStage, Decode;
    FallThroughCycle(s);
    FetchLatched(DrainedMem(s), s.pc);
    MemNextShape(s.mem, s.exMem);
    ExShape(s);
    if s.ifId.valid {
      HeldDecode(WriteBack(s.regs, s.memWb), s.ifId);
      HeldFields(s.ifId);
      if s.idEx.ctrl.memRead && s.idEx.rt != 0 && !LoadUseHazard(s.idEx, s.ifId) {
        HazardClear(s);
      }
    }
  }

  /** The hazard unit stalls whenever the load in EX writes a register ID reads. */
  lemma HazardClear(s: State)
    requires s.ifId.valid && s.idEx.valid && s.idEx.ctrl.memRead && s.idEx.rt != 0
    requires !LoadUseHazard(s.idEx, s.ifId)
    ensures var id := DecodeStage(WriteBack(s.regs, s.memWb), s.ifId).next;
            id.earlyTrap.None? ==> Sources(id.decoded).a != s.idEx.rt && Sources(id.decoded).b != s.idEx.rt
  {
    hide Decode;
  }

  lemma FlushKeeps(s: State)
    requires Inv(s) && Commits(s) && (ExOf(s).trap.Some? || ExOf(s).redirect.Some?)
    ensures Inv(Step(s).state)
  {
    hide Step, Fetch, Latched, Held, DecodeStage, MemoryAccess, WriteBack, ExecuteStage;
    FlushCycle(s);
    MemNextShape(s.mem, s.exMem);
    ExShape(s);
  }

  /** Every cycle of every program keeps the structural invariant. */
  lemma StepKeeps(s: State)
    requires Inv(s)
    ensures Inv(Step(s).state)
  {
    if PendingTrap(s).Some? {
      MemTrapCycle(s);
    } else if !s.idEx.valid {
      IdleKeeps(s);
    } else if ExOf(s).trap.Some? || ExOf(s).redirect.Some? {
      FlushKeeps(s);
    } else {
      FallThroughKeeps(s);
    }
  }

  // ---- Words in flight against stores ----

  /** The store EX just computed changes a word that ID/EX or IF/ID already holds and that
      is going to be executed. */
  predicate StaleFetch(s: State) {
    var n := Step(s).state;
    var x := n.exMem;
    && x.ctrl.memWrite && PendingTrap(n).None?
    && ((n.idEx.valid && n.idEx.pc == x.alu.value) || (n.ifId.valid && n.ifId.pc == x.alu.value && !Diverts(n)))
    && ReadWord(n.mem, x.alu.value) != Some(x.rtVal)
  }

  /** In flight before the store in EX/MEM drains: what Coherent says of `mem`. */
  predicate CoherentWith(s: State, mem: Bytes) {
    && (s.ifId.valid ==> s.ifId == Fetch(mem, s.ifId.pc))
    && (s.idEx.valid ==> Held(s.idEx) == Fetch(mem, s.idEx.pc))
  }

  /** The words that enter or stay in flight match memory as the older store left it,
      unless the instruction that leaves EX is going to trap in MEM. */
  lemma StepCoherentWith(s: State)
    requires Inv(s) && Coherent(s)
    ensures Step(s).state.mem == DrainedMem(s)
    ensures PendingTrap(Step(s).state).None? ==> CoherentWith(Step(s).state, DrainedMem(s))
  {
    hide Step, Fetch, Latched, Held, DecodeStage, MemoryAccess, WriteBack, ExecuteStage, LoadUseHazard;
    FetchLatched(DrainedMem(s), s.pc);
    if s.ifId.valid {
      HeldDecode(WriteBack(s.regs, s.memWb), s.ifId);
      HeldFields(s.ifId);
    }
    if PendingTrap(s).Some? {
      MemTrapCycle(s);
      TrapDropsAccess(s.mem, s.exMem);
    } else if !s.idEx.valid {
      IdleCycle(s);
      NothingDiverts(s);
    } else if ExOf(s).trap.Some? || ExOf(s).redirect.Some? {
      FlushCycle(s);
    } else {
      FallThroughCycle(s);
    }
  }

  lemma NothingDiverts(s: State)
    requires Inv(s) && !s.idEx.valid
    ensures !Diverts(s)
  {
  }

  /** What the store in EX/MEM does to memory. */
  lemma StoreDrains(mem: Bytes, x: ExMem)
    requires x.ctrl.memWrite ==> x.valid && !x.ctrl.memRead && x.opcode == Opcode.SW
    ensures var m := MemoryAccess(mem, x);
            if x.ctrl.memWrite && m.trap.None?
            then WordAt(mem, x.alu.value) && m.mem == PutWord(mem, x.alu.value, x.rtVal)
            else m.mem == mem
  {
  }

  lemma FetchAfterPut(mem: Bytes, addr: Word, value: Word, pc: Word)
    requires WordAt(mem, addr)
    ensures Fetch(PutWord(mem, addr, value), pc) == Fetch(mem, pc)
            <==> (pc != addr || ReadWord(mem, addr) == Some(value))
  {
    hide PutWord, SelfJump;
    ReadAfterPut(mem, addr, value, pc);
  }

  /** Exactly when coherence survives a cycle: the store in EX must not overtake a fetch. */
  lemma CoherenceKept(s: State)
    requires Inv(s) && Coherent(s)
    ensures Coherent(Step(s).state) <==> !StaleFetch(s)
  {
    var n := Step(s).state;
    StepCoherentWith(s);
    NextExMem(s);
    StoreDrains(n.mem, n.exMem);
    hide Step, Fetch, Held, MemoryAccess, PutWord, ReadWord, Diverts;
    if n.exMem.ctrl.memWrite && PendingTrap(n).None? {
      FetchAfterPut(n.mem, n.exMem.alu.value, n.exMem.rtVal, n.idEx.pc);
      FetchAfterPut(n.mem, n.exMem.alu.value, n.exMem.rtVal, n.ifId.pc);
    }
  }

  lemma NextExMem(s: State)
    requires Inv(s)
    ensures Step(s).state.exMem == if PendingTrap(s).Some? then EX_BUBBLE else ExOf(s).next
    ensures Step(s).state.exMem.ctrl.memWrite ==>
              Step(s).state.exMem.valid && !Step(s).state.exMem.ctrl.memRead && Step(s).state.exMem.opcode == Opcode.SW
  {
    ExShape(s);
    hide Fetch, DecodeStage, MemoryAccess, WriteBack, ExecuteStage, LoadUseHazard, Inv;
  }

  // ---- The same condition, read off the program ----

  /** The instruction at the PC neither traps nor transfers control. */
  predicate FallsThrough(a: Isa.Arch) {
    match ReadWord(a.mem, a.pc)
    case None => false
    case Some(word) =>
      match Decode(word)
      case None => false
      case Some(d) => Isa.Step(a).1 != Exception && !Redirects(a, d)
  }

  /** Where the instruction at the PC stores, and what, if it is a store. */
  function StoreOf(a: Isa.Arch): Option<(Word, Word)> {
    match ReadWord(a.mem, a.pc)
    case None => None
    case Some(word) =>
      match Decode(word)
      case None => None
      case Some(d) =>
        if d.opcode == Opcode.SW
        then Some((Add(ReadReg(a.regs, d.fields.rs), SignExtend(d.fields.imm)), ReadReg(a.regs, d.fields.rt)))
        else None
  }

  /** The instruction at the PC is a store that changes one of the next two words to be
      executed: the word after it, or the one after that if the instruction between the
      two falls through. */
  predicate Overtakes(a: Isa.Arch) {
    StoreOf(a).Some? &&
    var (target, value) := StoreOf(a).value;
    && WordAt(a.mem, target)
    && ReadWord(a.mem, target) != Some(value)
    && (|| target == Add(a.pc, 4)
        || (target == Add(Add(a.pc, 4), 4) && FallsThrough(Isa.Step(a).0)))
  }

  /** EX diverts exactly when the instruction does not fall through, but for the jumps
      that ID has already resolved. */
  lemma DivertsExactly(s: State)
    requires Inv(s) && FreshInEx(s) && Commits(s)
    ensures FallsThrough(Abs(s)) <==> !Diverts(s) && !s.idEx.decoded.fields.JForm?
  {
    var a := Abs(s);
    var x := s.idEx;
    FreshRefines(s);
    hide Step, Isa.Step, MemoryAccess, WriteBack, Decode, ReadWord, ExecuteDecoded, ForwardOperands, NoLoadUse, Redirects;
    if x.earlyTrap.None? {
      OperandsCorrect(s);
      DecodeWellFormed(x.decoded.raw);
      RedirectExactly(a, x, ForwardOperands(x, s.exMem, s.memWb));
    }
  }

  /** In a fresh EX, the instruction there is the one the program is at. */
  lemma ProgramInEx(s: State)
    requires Inv(s) && FreshInEx(s) && Commits(s)
    ensures var a := Abs(s); var x := s.idEx;
            && a.pc == x.pc && a.mem == DrainedMem(s) && a.regs == DrainedRegs(s)
            && (if x.earlyTrap.None? then ReadWord(a.mem, a.pc) == Some(x.decoded.raw) && Decode(x.decoded.raw) == Some(x.decoded)
                else StoreOf(a).None?)
  {
    hide MemoryAccess, WriteBack, Decode, ReadWord, SelfJump, NoLoadUse, DeriveControl;
  }

  lemma ControlInEx(s: State)
    requires Inv(s) && s.idEx.valid && s.idEx.earlyTrap.None?
    ensures s.idEx.ctrl == DeriveControl(s.idEx.decoded) && WellFormed(s.idEx.decoded)
  {
    DecodeWellFormed(s.idEx.decoded.raw);
    hide Chained, NoLoadUse, Decode, DeriveControl, WellFormed;
  }

  /** The store that enters EX/MEM is the one the program makes. */
  lemma StoreFromEx(s: State)
    requires Inv(s) && FreshInEx(s) && Commits(s)
    ensures var y := ExOf(s).next;
            && (y.ctrl.memWrite <==> StoreOf(Abs(s)).Some?)
            && (y.ctrl.memWrite ==>
                  && StoreOf(Abs(s)) == Some((y.alu.value, y.rtVal))
                  && ExOf(s).trap.None? && ExOf(s).redirect.None?
                  && s.idEx.decoded.fields.IForm? && !s.idEx.ctrl.memRead)
  {
    var x := s.idEx;
    hide Inv, FreshInEx, Abs, Decode, ReadWord, ForwardOperands, DrainedRegs, DrainedMem, MemoryAccess, ExecuteDecoded;
    ProgramInEx(s);
    ExShape(s);
    if x.earlyTrap.None? {
      OperandsCorrect(s);
      ControlInEx(s);
      if x.decoded.opcode == Opcode.SW {
        StoreInEx(x, s.exMem, s.memWb, s.cp0);
      }
    }
  }

  /** Behind a store in EX the next two words are in flight, the second unless the first
      is a jump. */
  lemma BehindStore(s: State)
    requires Inv(s) && Commits(s) && ExOf(s).trap.None? && ExOf(s).redirect.None?
    requires s.idEx.decoded.fields.IForm? && !s.idEx.ctrl.memRead
    ensures var n := Step(s).state; var pc4 := Add(s.idEx.pc, 4);
            && n.idEx.valid && n.idEx.pc == pc4
            && (n.ifId.valid <==> !n.idEx.decoded.fields.JForm?)
            && (n.ifId.valid ==> n.ifId.pc == Add(pc4, 4))
  {
    hide Step, Fetch, DecodeStage, MemoryAccess, WriteBack, ExecuteStage, SelfJump;
    FallThroughCycle(s);
    FetchLatched(DrainedMem(s), s.pc);
    HeldDecode(WriteBack(s.regs, s.memWb), s.ifId);
    StepKeeps(s);
  }

  lemma EmptyEx(s: State)
    ensures !s.idEx.valid ==> ExOf(s).next == EX_BUBBLE
  {
  }

  lemma StoreTraps(mem: Bytes, x: ExMem)
    requires x.ctrl.memWrite && x.valid && !x.ctrl.memRead && x.opcode == Opcode.SW
    ensures MemoryAccess(mem, x).trap.None? <==> WordAt(mem, x.alu.value)
  {
  }

  /** A store overtakes a fetch exactly when the program stores into one of the next two
      words it executes. */
  lemma StaleExactly(s: State)
    requires Inv(s) && Coherent(s)
    ensures StaleFetch(s) <==> Commits(s) && Overtakes(Abs(s))
  {
    var n := Step(s).state;
    var y := n.exMem;
    NextExMem(s);
    StepCoherentWith(s);
    EmptyEx(s);
    if Commits(s) {
      StoreFromEx(s);
      ProgramInEx(s);
      CommitRefines(s);
      if y.ctrl.memWrite {
        StoreTraps(n.mem, y);
        StepKeeps(s);
        BehindStore(s);
        hide Step, Isa.Step, Inv, Coherent, ExOf, MemoryAccess, ReadWord, StoreOf, FallsThrough, Diverts, FreshInEx;
        if PendingTrap(n).None? && y.alu.value != n.idEx.pc {
          StoreDrains(n.mem, y);
          FetchAfterPut(n.mem, y.alu.value, y.rtVal, n.idEx.pc);
          DivertsExactly(n);
        }
      }
    }
  }

  lemma StoreInEx(x: IdEx, exMem: ExMem, memWb: MemWb, cp0: Cp0State)
    requires x.valid && x.earlyTrap.None? && x.decoded.fields.IForm? && x.decoded.opcode == Opcode.SW
    requires x.ctrl == DeriveControl(x.decoded)
    ensures var ex := ExecuteStage(x, exMem, memWb, cp0);
            && ex.trap.None? && ex.redirect.None? && ex.next.valid
            && ex.next.alu.value == Add(ForwardOperands(x, exMem, memWb).a, SignExtend(x.decoded.fields.imm))
            && ex.next.rtVal == ForwardOperands(x, exMem, memWb).b
            && ex.next.ctrl == x.ctrl && ex.next.opcode == Opcode.SW
  {
    hide ForwardOperands;
    assert Alu.Control(x.decoded) == Some(Alu.AluOp.ADDU);
  }
}
