/** The pipeline refines the instruction set: what every cycle keeps, and what one
    cycle does to the architectural state. */
module Refinement {
  import opened Words
  import opened Decoder
  import opened Memory
  import opened Registers
  import opened Cp0
  import opened Control
  import opened PipelineUnits
  import opened Pipeline
  import opened ExecAgreement
  import Alu
  import Isa

  // ---- The architectural state a pipeline state stands for ----

  /** Registers after the instructions in MEM/WB and then EX/MEM have drained. */
  function DrainedRegs(s: State): Regs {
    WriteBack(WriteBack(s.regs, s.memWb), MemoryAccess(s.mem, s.exMem).next)
  }

  /** Memory after the store in EX/MEM, if any. */
  function DrainedMem(s: State): Bytes {
    MemoryAccess(s.mem, s.exMem).mem
  }

  function PendingTrap(s: State): Option<Trap> {
    MemoryAccess(s.mem, s.exMem).trap
  }

  /** The next instruction of the program: the oldest one that has not reached EX/MEM. */
  function NextPc(s: State): Word {
    if s.idEx.valid then s.idEx.pc else if s.ifId.valid then s.ifId.pc else s.pc
  }

  function Abs(s: State): Isa.Arch {
    match PendingTrap(s)
    case Some(t) => Isa.Arch(DrainedRegs(s), DrainedMem(s), Raise(s.cp0, t.code, t.pc, t.badAddr), EXCEPTION_VECTOR)
    case None => Isa.Arch(DrainedRegs(s), DrainedMem(s), s.cp0, NextPc(s))
  }

  /** A cycle executes an instruction when EX holds one and MEM does not squash it. */
  predicate Commits(s: State) {
    s.idEx.valid && PendingTrap(s).None?
  }

  // ---- What every cycle keeps ----

  /** The IF/ID entry an ID/EX entry was decoded from. */
  function Held(x: IdEx): IfId {
    IfId(x.pc, x.pc4, x.decoded.raw, true, x.isHalt, x.earlyTrap == Some(ExceptionCode.AdEL))
  }

  predicate Latched(f: IfId) {
    f == FetchedWord(f.pc, if f.fetchFault then None else Some(f.instr))
  }

  /** Program order of the three youngest positions: sequential, except that a
      jump in ID/EX has already redirected fetch and emptied IF/ID. */
  predicate Chained(s: State) {
    && (s.ifId.valid ==> s.pc == s.ifId.pc4)
    && (s.idEx.valid && s.idEx.decoded.fields.JForm? ==> !s.ifId.valid && s.pc == FallThrough(s.idEx))
    && (s.idEx.valid && !s.idEx.decoded.fields.JForm? ==> s.ifId.valid && s.ifId.pc == s.idEx.pc4)
  }

  /** No load in EX/MEM writes a register that the instruction in ID/EX reads. */
  predicate NoLoadUse(s: State) {
    s.exMem.valid && s.exMem.ctrl.memRead && s.exMem.writeReg != 0 && s.idEx.valid && s.idEx.earlyTrap.None? ==>
      Sources(s.idEx.decoded).a != s.exMem.writeReg && Sources(s.idEx.decoded).b != s.exMem.writeReg
  }

  /** Kept by every cycle, whatever the program stores and wherever it jumps. */
  predicate Inv(s: State) {
    && (if s.ifId.valid then Latched(s.ifId) else s.ifId == IF_BUBBLE)
    && (if s.idEx.valid then Latched(Held(s.idEx)) && s.idEx == DecodeStage(s.regs, Held(s.idEx)).next
        else s.idEx == ID_BUBBLE)
    && (s.exMem.valid || s.exMem == EX_BUBBLE)
    && (s.memWb.valid || s.memWb == MEM_BUBBLE)
    && s.exMem.ctrl.memToReg == s.exMem.ctrl.memRead
    && Chained(s)
    && NoLoadUse(s)
  }

  function ExOf(s: State): ExOutcome {
    ExecuteStage(s.idEx, s.exMem, s.memWb, s.cp0)
  }

  /** The instruction in EX does not fall through: it traps, in EX or one cycle later in
      MEM, or redirects, and whatever IF/ID holds behind it is discarded. */
  predicate Diverts(s: State) {
    ExOf(s).trap.Some? || ExOf(s).redirect.Some? || MemoryAccess(DrainedMem(s), ExOf(s).next).trap.Some?
  }

  /** The word in EX is the one drained memory holds at its address. */
  predicate FreshInEx(s: State) {
    s.idEx.valid ==> Held(s.idEx) == Fetch(DrainedMem(s), s.idEx.pc)
  }

  /** So is every word in flight that is not about to be discarded. */
  predicate Coherent(s: State) {
    PendingTrap(s).None? ==>
      && FreshInEx(s)
      && (s.ifId.valid && !Diverts(s) ==> s.ifId == Fetch(DrainedMem(s), s.ifId.pc))
  }

  lemma EmptyPipeline(s: State)
    requires Drained(s)
    ensures Inv(s) && Coherent(s)
    ensures Abs(s) == Isa.Arch(s.regs, s.mem, s.cp0, s.pc)
  {
  }

  // ---- The stages of one cycle, case by case ----

  /** A trap in MEM squashes everything younger. */
  lemma MemTrapCycle(s: State)
    requires PendingTrap(s).Some?
    ensures var n := Step(s).state; var t := PendingTrap(s).value;
            n == State(WriteBack(s.regs, s.memWb), s.mem, Raise(s.cp0, t.code, t.pc, t.badAddr), EXCEPTION_VECTOR,
                       IF_BUBBLE, ID_BUBBLE, EX_BUBBLE, MEM_BUBBLE, s.cycle + 1)
  {
    hide LoadUseHazard, Fetch, DecodeStage, ExecuteStage;
  }

  /** Nothing in EX: the pipeline only fills up. */
  lemma IdleCycle(s: State)
    requires Inv(s) && PendingTrap(s).None? && !s.idEx.valid
    ensures var n := Step(s).state;
            var id := if s.ifId.valid then DecodeStage(WriteBack(s.regs, s.memWb), s.ifId) else NO_ID;
            n == State(WriteBack(s.regs, s.memWb), DrainedMem(s), s.cp0,
                       if id.jump.Some? then id.jump.value else Add(s.pc, 4),
                       if id.jump.Some? then IF_BUBBLE else Fetch(DrainedMem(s), s.pc),
                       id.next, EX_BUBBLE, MemoryAccess(s.mem, s.exMem).next, s.cycle + 1)
  {
    hide Fetch, DecodeStage, MemoryAccess, WriteBack;
  }

  /** EX traps or redirects: both younger stages are discarded. */
  lemma FlushCycle(s: State)
    requires Commits(s) && (ExOf(s).trap.Some? || ExOf(s).redirect.Some?)
    ensures var n := Step(s).state; var ex := ExOf(s);
            n == State(WriteBack(s.regs, s.memWb), DrainedMem(s), Cp0After(s.cp0, ex),
                       if ex.trap.Some? then EXCEPTION_VECTOR else ex.redirect.value,
                       IF_BUBBLE, ID_BUBBLE, ex.next, MemoryAccess(s.mem, s.exMem).next, s.cycle + 1)
  {
    hide Fetch, DecodeStage, MemoryAccess, WriteBack, ExecuteStage, LoadUseHazard;
  }

  /** The instruction in EX falls through: ID decodes, or waits for a load. */
  lemma FallThroughCycle(s: State)
    requires Inv(s) && Commits(s) && ExOf(s).trap.None? && ExOf(s).redirect.None?
    ensures var n := Step(s).state; var ex := ExOf(s);
            var stall := LoadUseHazard(s.idEx, s.ifId);
            var id := if stall || !s.ifId.valid then NO_ID else DecodeStage(WriteBack(s.regs, s.memWb), s.ifId);
            n == State(WriteBack(s.regs, s.memWb), DrainedMem(s), Cp0After(s.cp0, ex),
                       if id.jump.Some? then id.jump.value else if stall then s.pc else Add(s.pc, 4),
                       if id.jump.Some? then IF_BUBBLE else if stall then s.ifId else Fetch(DrainedMem(s), s.pc),
                       id.next, ex.next, MemoryAccess(s.mem, s.exMem).next, s.cycle + 1)
  {
    hide Fetch, DecodeStage, MemoryAccess, WriteBack, ExecuteStage, LoadUseHazard, Inv;
  }

  // ---- Forwarding ----

  /** Unless EX/MEM is about to trap, the forwarding unit delivers, for every register
      the instruction in EX reads, its value after MEM/WB and then EX/MEM drained. */
  lemma OperandsCorrect(s: State)
    requires Inv(s) && Commits(s) && s.idEx.earlyTrap.None?
    ensures var d := s.idEx.decoded; var ops := ForwardOperands(s.idEx, s.exMem, s.memWb);
            && Decode(d.raw) == Some(d)
            && (Sources(d).a >= 0 ==> ops.a == ReadReg(DrainedRegs(s), Sources(d).a))
            && (Sources(d).b >= 0 ==> ops.b == ReadReg(DrainedRegs(s), Sources(d).b))
  {
    DecodeWellFormed(s.idEx.decoded.raw);
    var d := s.idEx.decoded;
    assert Sources(d).a >= 0 ==> Sources(d).a == s.idEx.rs;
    assert Sources(d).b >= 0 ==> Sources(d).b == s.idEx.rt;
    Forwarded(s.regs, s.mem, s.idEx, s.exMem, s.memWb);
  }

  lemma Forwarded(regs: Regs, mem: Bytes, x: IdEx, exMem: ExMem, memWb: MemWb)
    requires x.rsVal == ReadReg(regs, x.rs) && x.rtVal == ReadReg(regs, x.rt)
    requires exMem.ctrl.memToReg == exMem.ctrl.memRead
    requires MemoryAccess(mem, exMem).trap.None?
    ensures var load := exMem.valid && exMem.ctrl.memRead && exMem.writeReg != 0;
            var ops := ForwardOperands(x, exMem, memWb);
            var drained := WriteBack(WriteBack(regs, memWb), MemoryAccess(mem, exMem).next);
            && (!(load && exMem.writeReg == x.rs) ==> ops.a == ReadReg(drained, x.rs))
            && (!(load && exMem.writeReg == x.rt) ==> ops.b == ReadReg(drained, x.rt))
  {
    hide LoadData, StoreData;
  }

  /** What the snapshot reports of forwarding: for an instruction EX really executes, an
      operand comes from EX/MEM if that holds the result for its register, else from
      MEM/WB if that does. */
  lemma ForwardingShown(s: State)
    ensures var p := Step(s).ps.forwarded; var x := s.idEx;
            var runs := x.valid && x.earlyTrap.None? && PendingTrap(s).None?;
            var fromEx := s.exMem.valid && s.exMem.ctrl.regWrite && !s.exMem.ctrl.memRead;
            var fromWb := s.memWb.valid && s.memWb.ctrl.regWrite;
            && (p.exMemA <==> runs && fromEx && x.rs == s.exMem.writeReg != 0)
            && (p.exMemB <==> runs && fromEx && x.rt == s.exMem.writeReg != 0)
            && (p.memWbA <==> runs && fromWb && x.rs == s.memWb.writeReg != 0 && !p.exMemA)
            && (p.memWbB <==> runs && fromWb && x.rt == s.memWb.writeReg != 0 && !p.exMemB)
  {
    PathsKept(s);
    hide Step, ExecuteStage, MemoryAccess;
  }

  /** What the snapshot reports of the stages: IF as flushed exactly when it leaves IF/ID
      empty, ID as flushed exactly when EX or MEM discards it, both as stalled together, and
      the word of each stage as its register held it at the start of the cycle (IF: holds
      at the end). A failed fetch shows as no instruction until EX has raised it. */
  lemma StagesShown(s: State)
    ensures var ps := Step(s).ps; var n := Step(s).state; var st := ps.stages;
            var discards := PendingTrap(s).Some? || ExOf(s).trap.Some? || ExOf(s).redirect.Some?;
            && |st| == 5 && ps.cycle == s.cycle + 1
            && (st[0].flushed <==> !n.ifId.valid) && (st[1].flushed <==> discards)
            && (st[0].stalled <==> ps.loadStall) && (st[1].stalled <==> ps.loadStall)
            && (forall i :: 2 <= i < 5 ==> !st[i].stalled && !st[i].flushed)
            && (st[0].valid <==> n.ifId.valid && !n.ifId.fetchFault)
            && (st[1].valid <==> s.ifId.valid && !s.ifId.fetchFault)
            && (st[2].valid <==> s.idEx.valid && s.idEx.earlyTrap != Some(ExceptionCode.AdEL))
            && (st[3].valid <==> s.exMem.valid) && (st[4].valid <==> s.memWb.valid)
            && (st[0].pc, st[0].raw) == (n.ifId.pc, n.ifId.instr) && (st[1].pc, st[1].raw) == (s.ifId.pc, s.ifId.instr)
            && (st[2].pc, st[2].raw) == (s.idEx.pc, s.idEx.decoded.raw)
            && (st[3].pc, st[3].raw) == (s.exMem.pc, s.exMem.raw) && (st[4].pc, st[4].raw) == (s.memWb.pc, s.memWb.raw)
  {
    hide DecodeStage, MemoryAccess, WriteBack, ExecuteDecoded, SelfJump, Decode, NextCp0;
    FetchesValid(DrainedMem(s), s.pc);
    StallHasWord(s);
  }

  lemma FetchesValid(mem: Bytes, pc: Word)
    ensures Fetch(mem, pc).valid
  {
    hide SelfJump;
  }

  lemma StallHasWord(s: State)
    ensures LoadUseHazard(s.idEx, s.ifId) ==> s.ifId.valid
  {
  }

  lemma PathsKept(s: State)
    ensures Step(s).ps.forwarded ==
            if PendingTrap(s).Some? || !s.idEx.valid || s.idEx.earlyTrap.Some? then NO_PATHS
            else ForwardOperands(s.idEx, s.exMem, s.memWb).paths
  {
    hide Fetch, DecodeStage, MemoryAccess, WriteBack, ForwardOperands, Alu.Execute, LoadUseHazard, Alu.Control,
         BranchTarget, SignExtend, ReadCp0;
  }

  // ---- One cycle, seen architecturally ----

  lemma StallStutters(s: State)
    requires Inv(s) && !Commits(s)
    ensures Abs(Step(s).state) == Abs(s)
  {
    if PendingTrap(s).Some? {
      MemTrapCycle(s);
    } else {
      hide MemoryAccess, WriteBack, Step, Fetch;
      IdleCycle(s);
      BubbleDrains(Step(s).state);
    }
  }

  lemma BubbleDrains(s: State)
    requires s.exMem == EX_BUBBLE
    ensures MemoryAccess(s.mem, s.exMem) == MemOutcome(s.mem, MEM_BUBBLE, None)
    ensures DrainedRegs(s) == WriteBack(s.regs, s.memWb)
  {
  }

  lemma TrapDropsAccess(mem: Bytes, x: ExMem)
    ensures MemoryAccess(mem, x).trap.Some? ==> MemoryAccess(mem, x) == MemoryAccess(mem, x).(mem := mem, next := MEM_BUBBLE)
  {
  }

  /** After a committing cycle the pipeline stands for EX's outcome carried through. */
  lemma CommitSettles(s: State)
    requires Inv(s) && Commits(s)
    ensures Abs(Step(s).state) == Settle(Abs(s), ExOf(s), FallThrough(s.idEx)).0
  {
    hide ExecuteStage, Step, ReadWord, Decode, SelfJump, MemoryAccess, LoadUseHazard;
    var n := Step(s).state;
    TrapDropsAccess(n.mem, n.exMem);
    TrapDropsAccess(s.mem, s.exMem);
    if ExOf(s).trap.Some? || ExOf(s).redirect.Some? {
      FlushCycle(s);
      if ExOf(s).trap.Some? {
        TrapLeavesBubble(s);
        BubbleDrains(n);
      }
    } else {
      FallThroughCycle(s);
      assert NextPc(n) == FallThrough(s.idEx);
    }
  }

  lemma TrapLeavesBubble(s: State)
    ensures ExOf(s).trap.Some? ==> ExOf(s).next == EX_BUBBLE
  {
    hide Alu.Execute, ForwardOperands;
  }

  predicate RefinesOneStep(s: State) {
    && Abs(Step(s).state) == Isa.Step(Abs(s)).0
    && (Settle(Abs(s), ExOf(s), FallThrough(s.idEx)).1 <==> Isa.Step(Abs(s)).1 == Exception)
    && Isa.Step(Abs(s)).1 != Fault
  }

  lemma EarlyTrapRefines(s: State)
    requires Inv(s) && FreshInEx(s) && Commits(s) && s.idEx.earlyTrap.Some?
    ensures RefinesOneStep(s)
  {
    CommitSettles(s);
    hide Step, MemoryAccess, WriteBack, Decode, ReadWord, Isa.Execute, NoLoadUse, Raise, SelfJump, DeriveControl;
  }

  /** A fresh instruction in EX is the one the program is at, ready to execute. */
  lemma FreshIssues(s: State)
    requires Inv(s) && FreshInEx(s) && Commits(s) && s.idEx.earlyTrap.None?
    ensures var a, x := Abs(s), s.idEx;
            && ReadWord(a.mem, a.pc) == Some(x.decoded.raw) && Decode(x.decoded.raw) == Some(x.decoded)
            && Issued(a, x, ForwardOperands(x, s.exMem, s.memWb)) && a.cp0 == s.cp0
            && ExOf(s) == ExecuteDecoded(x, ForwardOperands(x, s.exMem, s.memWb), s.cp0)
  {
    OperandsCorrect(s);
    DecodeWellFormed(s.idEx.decoded.raw);
    hide MemoryAccess, WriteBack, Decode, ReadWord, ExecuteDecoded, ForwardOperands, NoLoadUse, Raise, SelfJump,
         DeriveControl, WellFormed, Sources;
  }

  lemma DecodedRefines(s: State)
    requires Inv(s) && FreshInEx(s) && Commits(s) && s.idEx.earlyTrap.None?
    ensures RefinesOneStep(s)
  {
    hide Step, Inv, FreshInEx, Abs, ExOf, Decode, ReadWord, Isa.Execute, ExecuteDecoded, ForwardOperands,
         Issued, FallThrough, Settle, Commits;
    CommitSettles(s);
    FreshIssues(s);
    InstructionsAgree(Abs(s), s.idEx, ForwardOperands(s.idEx, s.exMem, s.memWb));
  }

  /** A committing cycle is one step of the single-cycle CPU, if the word in EX is fresh. */
  lemma FreshRefines(s: State)
    requires Inv(s) && FreshInEx(s) && Commits(s)
    ensures RefinesOneStep(s)
  {
    hide RefinesOneStep, Inv, FreshInEx;
    if s.idEx.earlyTrap.Some? {
      EarlyTrapRefines(s);
    } else {
      DecodedRefines(s);
    }
  }

  lemma CommitRefines(s: State)
    requires Inv(s) && Coherent(s) && Commits(s)
    ensures Abs(Step(s).state) == Isa.Step(Abs(s)).0
    ensures Settle(Abs(s), ExOf(s), FallThrough(s.idEx)).1 <==> Isa.Step(Abs(s)).1 == Exception
    ensures Isa.Step(Abs(s)).1 != Fault
  {
    hide Step, Inv, FreshInEx, Abs, Isa.Step, ExOf, Settle;
    FreshRefines(s);
  }

  /** Burch-Dill: one cycle of the pipeline is one step of the single-cycle CPU,
      or none, on the architectural state. */
  lemma StepRefines(s: State)
    requires Inv(s) && Coherent(s)
    ensures Abs(Step(s).state) == if Commits(s) then Isa.Step(Abs(s)).0 else Abs(s)
  {
    if Commits(s) {
      CommitRefines(s);
    } else {
      StallStutters(s);
    }
  }
}
