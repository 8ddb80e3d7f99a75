/** The five-stage pipelined CPU (`PipelinedCpu`): one function per stage, the
    cycle that runs them oldest first, and the mutable CPU proved against it. */
module Pipeline {
  import opened Words
  import opened Decoder
  import opened Memory
  import opened Registers
  import opened Cp0
  import opened Control
  import opened PipelineUnits
  import Alu

  datatype Trap = Trap(code: ExceptionCode, pc: Word, badAddr: Word)

  datatype MemOutcome = MemOutcome(mem: Bytes, next: MemWb, trap: Option<Trap>)

  datatype Mtc0Write = Mtc0Write(reg: RegIndex, value: Word)

  datatype ExOutcome = ExOutcome(
    next: ExMem, trap: Option<Trap>, redirect: Option<Word>, eret: bool,
    mtc0: Option<Mtc0Write>, forwarded: ForwardingPaths)

  datatype IdOutcome = IdOutcome(next: IdEx, jump: Option<Word>)

  const NO_EX := ExOutcome(EX_BUBBLE, None, None, false, None, NO_PATHS)
  const NO_ID := IdOutcome(ID_BUBBLE, None)

  datatype StageSnapshot = StageSnapshot(valid: bool, stalled: bool, flushed: bool, pc: Word, raw: Word)

  datatype PipelineState = PipelineState(
    stages: seq<StageSnapshot>, forwarded: ForwardingPaths,
    loadStall: bool, branchFlush: bool, retired: bool, cycle: nat)

  const NO_SNAPSHOT := StageSnapshot(false, false, false, 0, 0)
  const NO_PIPELINE_STATE := PipelineState(seq(5, _ => NO_SNAPSHOT), NO_PATHS, false, false, false, 0)

  datatype State = State(
    regs: Regs, mem: Bytes, cp0: Cp0State, pc: Word,
    ifId: IfId, idEx: IdEx, exMem: ExMem, memWb: MemWb, cycle: nat)

  /** What one clock cycle produces. */
  datatype Cycle = Cycle(state: State, result: StepResult, ps: PipelineState)

  // ---- WB ----

  function WriteBack(regs: Regs, w: MemWb): Regs {
    if w.valid && w.ctrl.regWrite && w.writeReg != 0 then WriteReg(regs, w.writeReg, WbValue(w)) else regs
  }

  // ---- MEM ----

  function Carried(x: ExMem, memVal: Word): MemWb {
    MemWb(x.pc, x.raw, x.ctrl, x.alu.value, memVal, x.writeReg, true, x.isHalt)
  }

  function MemoryAccess(mem: Bytes, x: ExMem): MemOutcome {
    if !x.valid then MemOutcome(mem, MEM_BUBBLE, None)
    else
      var addr := x.alu.value;
      var loaded := if x.ctrl.memRead then LoadData(mem, x.opcode, addr) else Some(0);
      if loaded.None? then MemOutcome(mem, MEM_BUBBLE, Some(Trap(ExceptionCode.AdEL, x.pc, addr)))
      else
        var stored := if x.ctrl.memWrite then StoreData(mem, x.opcode, addr, x.rtVal) else (mem, true);
        if !stored.1 then MemOutcome(mem, MEM_BUBBLE, Some(Trap(ExceptionCode.AdES, x.pc, addr)))
        else MemOutcome(stored.0, Carried(x, loaded.value), None)
  }

  // ---- EX ----

  /** The fields every instruction that does not trap hands to MEM. */
  function ToMem(x: IdEx, rtVal: Word): ExMem {
    ExMem(x.pc, x.decoded.raw, x.ctrl, Alu.NO_RESULT, rtVal, 0, x.decoded.opcode, true, x.isHalt)
  }

  function Flows(next: ExMem, forwarded: ForwardingPaths): ExOutcome {
    NO_EX.(next := next, forwarded := forwarded)
  }

  function Traps(code: ExceptionCode, pc: Word, badAddr: Word, forwarded: ForwardingPaths): ExOutcome {
    NO_EX.(trap := Some(Trap(code, pc, badAddr)), forwarded := forwarded)
  }

  function Linked(next: ExMem, pc4: Word, reg: RegIndex): ExMem {
    next.(alu := Alu.NO_RESULT.(value := pc4), writeReg := reg)
  }

  function ExecuteCop0(x: IdEx, ops: ExOperands, cp0: Cp0State): ExOutcome
    requires x.decoded.fields.RForm?
  {
    var r := x.decoded.fields;
    var next := ToMem(x, ops.b);
    var out := Flows(next, ops.paths);
    if r.rs == 0x00 then
      out.(next := next.(ctrl := x.ctrl.(regWrite := true),
                         alu := Alu.NO_RESULT.(value := ReadCp0(cp0, r.rd)),
                         writeReg := r.rt))
    else if r.rs == 0x04 then out.(mtc0 := Some(Mtc0Write(r.rd, ops.b)))
    else if r.rs == 0x10 && r.funct == Funct.ERET then out.(eret := true, redirect := Some(cp0.epc))
    else out
  }

  function ExecuteAlu(x: IdEx, ops: ExOperands): ExOutcome {
    var d := x.decoded;
    var op := Alu.Control(d);
    if op.None? then Traps(ExceptionCode.RI, x.pc, 0, ops.paths)
    else
      var r := d.fields.RForm?;
      var shamt :=
        if !r then 0
        else if d.fields.funct == Funct.SLLV || d.fields.funct == Funct.SRLV then ops.a % 32
        else d.fields.shamt;
      var b: Word :=
        if x.ctrl.aluSrc && d.fields.IForm? then
          (if x.ctrl.zeroExtend then d.fields.imm else SignExtend(d.fields.imm))
        else ops.b;
      var res := Alu.Execute(op.value, ops.a, b, shamt);
      var signedOp :=
        (r && (d.fields.funct == Funct.ADD || d.fields.funct == Funct.SUB)) || d.opcode == Opcode.ADDI;
      if res.overflow && signedOp then Traps(ExceptionCode.Ov, x.pc, 0, ops.paths)
      else
        var writeReg :=
          if x.ctrl.regDst && r then d.fields.rd
          else if d.fields.IForm? then d.fields.rt
          else 0;
        Flows(ToMem(x, ops.b).(alu := res, writeReg := writeReg), ops.paths)
  }

  function ExecuteDecoded(x: IdEx, ops: ExOperands, cp0: Cp0State): ExOutcome {
    var d := x.decoded;
    var next := ToMem(x, ops.b);
    var out := Flows(next, ops.paths);
    if d.fields.JForm? then
      (if d.opcode == Opcode.JAL then out.(next := Linked(next, x.pc4, 31)) else out)
    else if d.fields.IForm? && (d.opcode == Opcode.BEQ || d.opcode == Opcode.BNE) then
      var zero := Alu.Execute(Alu.AluOp.SUBU, ops.a, ops.b, 0).zero;
      var taken := if d.opcode == Opcode.BEQ then zero else !zero;
      if taken then out.(redirect := Some(BranchTarget(x.pc4, d.fields.imm))) else out
    else if d.fields.RForm? && d.opcode == Opcode.SPECIAL && d.fields.funct == Funct.JR then
      out.(redirect := Some(ops.a))
    else if d.fields.RForm? && d.opcode == Opcode.SPECIAL && d.fields.funct == Funct.JALR then
      out.(redirect := Some(ops.a), next := Linked(next, x.pc4, d.fields.rd))
    else if d.fields.RForm? && d.opcode == Opcode.SPECIAL && d.fields.funct == Funct.SYSCALL then
      Traps(ExceptionCode.Sys, x.pc, 0, ops.paths)
    else if d.fields.RForm? && d.opcode == Opcode.SPECIAL && d.fields.funct == Funct.BREAK then
      Traps(ExceptionCode.Bp, x.pc, 0, ops.paths)
    else if d.fields.RForm? && d.opcode == Opcode.COP0 then ExecuteCop0(x, ops, cp0)
    else ExecuteAlu(x, ops)
  }

  function ExecuteStage(x: IdEx, exMem: ExMem, memWb: MemWb, cp0: Cp0State): ExOutcome {
    if !x.valid then NO_EX
    else
      match x.earlyTrap
      case Some(code) => Traps(code, x.pc, if code == ExceptionCode.AdEL then x.pc else 0, NO_PATHS)
      case None => ExecuteDecoded(x, ForwardOperands(x, exMem, memWb), cp0)
  }

  // ---- ID ----

  function DecodeStage(regs: Regs, x: IfId): IdOutcome {
    var base := ID_BUBBLE.(valid := true, pc := x.pc, pc4 := x.pc4);
    if x.fetchFault then IdOutcome(base.(earlyTrap := Some(ExceptionCode.AdEL)), None)
    else
      match Decode(x.instr)
      case None =>
        IdOutcome(base.(earlyTrap := Some(ExceptionCode.RI), decoded := NO_INSTR.(raw := x.instr)), None)
      case Some(d) =>
        var rs := if d.fields.RForm? || d.fields.IForm? then d.fields.rs else 0;
        var rt := if d.fields.RForm? || d.fields.IForm? then d.fields.rt else 0;
        IdOutcome(
          base.(ctrl := DeriveControl(d), decoded := d, rsVal := ReadReg(regs, rs), rtVal := ReadReg(regs, rt),
                rs := rs, rt := rt, isHalt := x.isHalt),
          if d.fields.JForm? then Some(JumpTarget(x.pc4, d.fields.target)) else None)
  }

  // ---- IF ----

  /** A J or JAL word whose target is its own address: the spin-in-place idiom. */
  predicate SelfJump(word: Word, pc: Word) {
    && (OpField(word) == 0x02 || OpField(word) == 0x03)
    && JumpTarget(Add(pc, 4), TargetField(word)) == pc
  }

  /** The IF/ID entry for the word found at `pc`, or for a failed fetch. */
  function FetchedWord(pc: Word, word: Option<Word>): IfId {
    var base := IF_BUBBLE.(valid := true, pc := pc, pc4 := Add(pc, 4));
    match word
    case None => base.(fetchFault := true)
    case Some(w) => base.(instr := w, isHalt := SelfJump(w, pc))
  }

  function Fetch(mem: Bytes, pc: Word): IfId {
    FetchedWord(pc, ReadWord(mem, pc))
  }

  // ---- One clock cycle ----

  /** The stages of one cycle, oldest first. */
  datatype Stages = Stages(mem: MemOutcome, ex: ExOutcome, stall: bool, exFlushes: bool, id: IdOutcome, fetched: IfId)

  function RunStages(s: State): Stages {
    var regs := WriteBack(s.regs, s.memWb);
    var mem := MemoryAccess(s.mem, s.exMem);
    var ex := if mem.trap.Some? then NO_EX else ExecuteStage(s.idEx, s.exMem, s.memWb, s.cp0);
    var stall := LoadUseHazard(s.idEx, s.ifId);
    var exFlushes := mem.trap.Some? || ex.trap.Some? || ex.redirect.Some?;
    var id := if stall || exFlushes || !s.ifId.valid then NO_ID else DecodeStage(regs, s.ifId);
    var fetched := if stall || exFlushes then IF_BUBBLE else Fetch(mem.mem, s.pc);
    Stages(mem, ex, stall, exFlushes, id, fetched)
  }

  function TrapOf(g: Stages): Option<Trap> {
    if g.mem.trap.Some? then g.mem.trap else g.ex.trap
  }

  /** The CP0 effects of EX, applied only when no stage trapped; else the trap's. */
  function NextCp0(cp0: Cp0State, g: Stages): Cp0State {
    match TrapOf(g)
    case Some(t) => Raise(cp0, t.code, t.pc, t.badAddr)
    case None =>
      var c := if g.ex.mtc0.Some? then WriteCp0(cp0, g.ex.mtc0.value.reg, g.ex.mtc0.value.value) else cp0;
      if g.ex.eret then Eret(c) else c
  }

  function FlushTarget(g: Stages): Option<Word> {
    if TrapOf(g).Some? then Some(EXCEPTION_VECTOR) else g.ex.redirect
  }

  function NextState(s: State, g: Stages): State {
    var flush := FlushTarget(g);
    State(
      WriteBack(s.regs, s.memWb),
      g.mem.mem,
      NextCp0(s.cp0, g),
      if flush.Some? then flush.value else if g.id.jump.Some? then g.id.jump.value
      else if g.stall then s.pc else Add(s.pc, 4),
      if flush.Some? || g.id.jump.Some? then IF_BUBBLE else if g.stall then s.ifId else g.fetched,
      if flush.Some? then ID_BUBBLE else if g.id.jump.None? && g.stall then ID_BUBBLE else g.id.next,
      g.ex.next,
      g.mem.next,
      s.cycle + 1)
  }

  function ResultOf(s: State, g: Stages): StepResult {
    if TrapOf(g).Some? then Exception
    else if s.memWb.valid && s.memWb.isHalt then Halt
    else Ok
  }

  /** What each stage was doing this cycle. A failed fetch shows as a bubble until EX raises it. */
  function SnapshotOf(s: State, g: Stages): PipelineState {
    var next := NextState(s, g);
    var fromEx := FlushTarget(g).Some?;
    var fromId := g.id.jump.Some?;
    PipelineState(
      [ StageSnapshot(next.ifId.valid && !next.ifId.fetchFault, g.stall, fromEx || fromId, next.ifId.pc, next.ifId.instr),
        StageSnapshot(s.ifId.valid && !s.ifId.fetchFault, g.stall, fromEx, s.ifId.pc, s.ifId.instr),
        StageSnapshot(s.idEx.valid && s.idEx.earlyTrap != Some(ExceptionCode.AdEL), false, false, s.idEx.pc, s.idEx.decoded.raw),
        StageSnapshot(s.exMem.valid, false, false, s.exMem.pc, s.exMem.raw),
        StageSnapshot(s.memWb.valid, false, false, s.memWb.pc, s.memWb.raw) ],
      g.ex.forwarded, g.stall, fromEx, s.memWb.valid, s.cycle + 1)
  }

  /** One clock cycle of the pipelined CPU. */
  function Step(s: State): Cycle {
    var g := RunStages(s);
    Cycle(NextState(s, g), ResultOf(s, g), SnapshotOf(s, g))
  }

  /** The state after `n` cycles. */
  function Run(s: State, n: nat): State {
    if n == 0 then s else Step(Run(s, n - 1)).state
  }

  /** `run`: step until a result other than Ok, or until the budget is spent. */
  function RunUntil(s: State, maxSteps: nat): (State, StepResult)
    decreases maxSteps
  {
    if maxSteps == 0 then (s, Ok)
    else
      var c := Step(s);
      if c.result != Ok then (c.state, c.result) else RunUntil(c.state, maxSteps - 1)
  }

  /** Empty inter-stage registers, as `reset` leaves them; memory, registers, CP0 and PC are arbitrary. */
  predicate Drained(s: State) {
    s.ifId == IF_BUBBLE && s.idEx == ID_BUBBLE && s.exMem == EX_BUBBLE && s.memWb == MEM_BUBBLE
  }

  class PipelinedCpu {
    const regs: RegisterFile
    const mem: MemoryUnit
    const cp0: Cp0Unit
    var pc: Word
    var cycle: nat
    var ps: PipelineState
    var ifId: IfId
    var idEx: IdEx
    var exMem: ExMem
    var memWb: MemWb

    constructor (memBytes: nat)
      ensures Valid() && fresh(regs.regs) && fresh(mem.data) && fresh(cp0)
      ensures View() == State(ZERO_REGS, seq(memBytes, _ => 0), Cp0State(0, 0, 0, 0, ExceptionCode.RI), 0,
                              IF_BUBBLE, ID_BUBBLE, EX_BUBBLE, MEM_BUBBLE, 0)
    {
      var r := new RegisterFile();
      var m := new MemoryUnit(memBytes);
      var c := new Cp0Unit();
      regs, mem, cp0 := r, m, c;
      pc, cycle, ps := 0, 0, NO_PIPELINE_STATE;
      ifId, idEx, exMem, memWb := IF_BUBBLE, ID_BUBBLE, EX_BUBBLE, MEM_BUBBLE;
    }

    ghost predicate Valid()
      reads this
    {
      regs.Valid() && regs.regs as object != mem.data as object
    }

    ghost function View(): State
      requires Valid()
      reads this, regs.regs, mem, mem.data, cp0
    {
      State(regs.Contents(), mem.Contents(), cp0.State(), pc, ifId, idEx, exMem, memWb, cycle)
    }

    method WriteBackStage(w: MemWb) returns (halted: bool)
      requires Valid()
      modifies regs.regs
      ensures regs.Contents() == WriteBack(old(regs.Contents()), w)
      ensures halted == (w.valid && w.isHalt)
    {
      if !w.valid {
        return false;
      }
      if w.ctrl.regWrite && w.writeReg != 0 {
        regs.Write(w.writeReg, if w.ctrl.memToReg then w.memVal else w.aluVal);
      }
      return w.isHalt;
    }

    method MemoryStage(x: ExMem) returns (next: MemWb, trap: Option<Trap>)
      requires Valid()
      modifies mem.data
      ensures MemOutcome(mem.Contents(), next, trap) == MemoryAccess(old(mem.Contents()), x)
    {
      next, trap := MEM_BUBBLE, None;
      if !x.valid {
        return;
      }
      var addr := x.alu.value;
      var memVal := 0;
      if x.ctrl.memRead {
        var loaded := LoadDataFrom(mem, x.opcode, addr);
        if loaded.None? {
          trap := Some(Trap(ExceptionCode.AdEL, x.pc, addr));
          return;
        }
        memVal := loaded.value;
      }
      if x.ctrl.memWrite {
        var stored := StoreDataTo(mem, x.opcode, addr, x.rtVal);
        if !stored {
          trap := Some(Trap(ExceptionCode.AdES, x.pc, addr));
          return;
        }
      }
      next := MemWb(x.pc, x.raw, x.ctrl, addr, memVal, x.writeReg, true, x.isHalt);
    }

    method ExecuteOrSquash(squash: bool, x: IdEx, curEx: ExMem, curMem: MemWb) returns (ex: ExOutcome)
      ensures ex == if squash then NO_EX else ExecuteStage(x, curEx, curMem, cp0.State())
    {
      if squash {
        return NO_EX;
      }
      var c := Cp0State(cp0.status, cp0.cause, cp0.epc, cp0.badVAddr, cp0.last);
      return ExecuteStage(x, curEx, curMem, c);
    }

    method DecodeRegister(x: IfId) returns (id: IdOutcome)
      requires Valid()
      ensures id == DecodeStage(regs.Contents(), x)
    {
      var next := ID_BUBBLE.(valid := true, pc := x.pc, pc4 := x.pc4);
      if x.fetchFault {
        return IdOutcome(next.(earlyTrap := Some(ExceptionCode.AdEL)), None);
      }
      var decoded := Decode(x.instr);
      if decoded.None? {
        return IdOutcome(next.(earlyTrap := Some(ExceptionCode.RI), decoded := NO_INSTR.(raw := x.instr)), None);
      }
      var d := decoded.value;
      var rs, rt: RegIndex := 0, 0;
      if d.fields.RForm? || d.fields.IForm? {
        rs, rt := d.fields.rs, d.fields.rt;
      }
      var rsVal := regs.Read(rs);
      var rtVal := regs.Read(rt);
      next := next.(ctrl := DeriveControl(d), decoded := d, rsVal := rsVal, rtVal := rtVal,
                    rs := rs, rt := rt, isHalt := x.isHalt);
      id := IdOutcome(next, if d.fields.JForm? then Some(JumpTarget(x.pc4, d.fields.target)) else None);
    }

    method FetchWord() returns (next: IfId)
      requires Valid()
      ensures next == Fetch(mem.Contents(), pc)
    {
      next := IF_BUBBLE.(valid := true, pc := pc, pc4 := Add(pc, 4));
      var word := mem.ReadWordAt(pc);
      if word.None? {
        return next.(fetchFault := true);
      }
      next := next.(instr := word.value);
      if OpField(word.value) == 0x02 || OpField(word.value) == 0x03 {
        if JumpTarget(Add(pc, 4), TargetField(word.value)) == pc {
          next := next.(isHalt := true);
        }
      }
    }

    /** Run the stages of one cycle: WB and MEM commit their own effects, EX, ID and IF only report. */
    method RunAllStages() returns (g: Stages, halted: bool)
      requires Valid()
      modifies regs.regs, mem.data
      ensures g == RunStages(old(View()))
      ensures regs.Contents() == WriteBack(old(regs.Contents()), memWb)
      ensures mem.Contents() == g.mem.mem
      ensures halted == (memWb.valid && memWb.isHalt)
    {
      hide ExecuteStage, DecodeStage, Fetch, MemoryAccess, LoadUseHazard, WriteBack;
      halted := WriteBackStage(memWb);
      var memNext, memTrap := MemoryStage(exMem);
      ghost var memOut := MemoryAccess(old(mem.Contents()), exMem);
      var ex := ExecuteOrSquash(memTrap.Some?, idEx, exMem, memWb);
      var stall := LoadUseHazard(idEx, ifId);
      var exFlushes := memTrap.Some? || ex.trap.Some? || ex.redirect.Some?;
      var id := NO_ID;
      if !(stall || exFlushes || !ifId.valid) {
        id := DecodeRegister(ifId);
      }
      var fetched := IF_BUBBLE;
      if !(stall || exFlushes) {
        fetched := FetchWord();
      }
      g := Stages(MemOutcome(mem.data[..], memNext, memTrap), ex, stall, exFlushes, id, fetched);
      assert g.mem == memOut;
    }

    /** The oldest stage that traps or redirects wins; EX's CP0 access applies only if nothing trapped. */
    method Resolve(g: Stages) returns (flush: Option<Word>)
      modifies cp0
      ensures cp0.State() == NextCp0(old(cp0.State()), g)
      ensures flush == FlushTarget(g)
    {
      var trap := if g.mem.trap.Some? then g.mem.trap else g.ex.trap;
      if trap.Some? {
        var vector := cp0.RaiseTrap(trap.value.code, trap.value.pc, trap.value.badAddr);
        return Some(vector);
      }
      if g.ex.mtc0.Some? {
        cp0.Write(g.ex.mtc0.value.reg, g.ex.mtc0.value.value);
      }
      if g.ex.eret {
        var _ := cp0.ReturnFromTrap();
      }
      return g.ex.redirect;
    }

    /** Latch the inter-stage registers for the next cycle, and the next PC. */
    method Latch(g: Stages, flush: Option<Word>)
      requires Valid() && flush == FlushTarget(g)
      modifies this`pc, this`ifId, this`idEx, this`exMem, this`memWb, this`cycle, this`ps
      ensures View() == NextState(old(View()), g).(
                regs := old(regs.Contents()), mem := old(mem.Contents()), cp0 := old(cp0.State()))
      ensures ps == SnapshotOf(old(View()), g)
    {
      hide WriteBack, NextCp0, FlushTarget;
      cycle := cycle + 1;
      var newIf, newId, nextPc := g.fetched, g.id.next, Add(pc, 4);
      if flush.Some? {
        nextPc, newIf, newId := flush.value, IF_BUBBLE, ID_BUBBLE;
      } else if g.id.jump.Some? {
        nextPc, newIf := g.id.jump.value, IF_BUBBLE;
      } else if g.stall {
        nextPc, newIf, newId := pc, ifId, ID_BUBBLE;
      }
      ps := Snapshot(g, newIf, flush.Some?);
      memWb, exMem, idEx, ifId, pc := g.mem.next, g.ex.next, newId, newIf, nextPc;
    }

    method StepOnce() returns (result: StepResult)
      requires Valid()
      modifies this, regs.regs, mem.data, cp0
      ensures Valid()
      ensures Cycle(View(), result, ps) == Step(old(View()))
    {
      hide RunStages, WriteBack, NextCp0, FlushTarget;
      ghost var before := View();
      var g, halted := RunAllStages();
      var flush := Resolve(g);
      ghost var resolved := View();
      Latch(g, flush);
      result := if g.mem.trap.Some? || g.ex.trap.Some? then Exception else if halted then Halt else Ok;
      assert ps == SnapshotOf(before, g) by {
        assert NextState(before, g).ifId == NextState(resolved, g).ifId;
      }
    }

    method RunCycles(maxSteps: nat) returns (result: StepResult)
      requires Valid()
      modifies this, regs.regs, mem.data, cp0
      ensures Valid()
      ensures (View(), result) == RunUntil(old(View()), maxSteps)
    {
      hide Step;
      for i := 0 to maxSteps
        invariant Valid()
        invariant RunUntil(View(), maxSteps - i) == RunUntil(old(View()), maxSteps)
      {
        result := StepOnce();
        if result != Ok {
          return;
        }
      }
      return Ok;
    }

    /** What the front ends are shown: what each stage was doing this cycle. */
    function Snapshot(g: Stages, newIf: IfId, flushFromEx: bool): PipelineState
      reads this
    {
      PipelineState(
        [ StageSnapshot(newIf.valid && !newIf.fetchFault, g.stall, flushFromEx || g.id.jump.Some?, newIf.pc, newIf.instr),
          StageSnapshot(ifId.valid && !ifId.fetchFault, g.stall, flushFromEx, ifId.pc, ifId.instr),
          StageSnapshot(idEx.valid && idEx.earlyTrap != Some(ExceptionCode.AdEL), false, false, idEx.pc, idEx.decoded.raw),
          StageSnapshot(exMem.valid, false, false, exMem.pc, exMem.raw),
          StageSnapshot(memWb.valid, false, false, memWb.pc, memWb.raw) ],
        g.ex.forwarded, g.stall, flushFromEx, memWb.valid, cycle)
    }

    method LoadProgram(words: seq<Word>, addr: Word) returns (ok: bool)
      requires Valid() && addr % 4 == 0
      modifies this`pc, mem.data
      ensures ok == (addr + 4 * |words| <= |old(View()).mem|)
      ensures View() == if ok then old(View()).(mem := LoadWords(old(View()).mem, addr, words), pc := addr) else old(View())
    {
      ok := mem.Load(addr, words);
      if !ok {
        return;
      }
      pc := addr;
    }

    method Reset(clearMemory: bool)
      requires Valid()
      modifies this, regs.regs, mem.data, cp0
      ensures Valid() && Drained(View())
      ensures View() == State(ZERO_REGS,
                              if clearMemory then seq(|old(View()).mem|, _ => 0) else old(View()).mem,
                              Cp0State(0, 0, 0, 0, old(View()).cp0.last), 0,
                              IF_BUBBLE, ID_BUBBLE, EX_BUBBLE, MEM_BUBBLE, 0)
    {
      regs.Reset();
      cp0.Reset();
      pc, cycle, ps := 0, 0, NO_PIPELINE_STATE;
      ifId, idEx, exMem, memWb := IF_BUBBLE, ID_BUBBLE, EX_BUBBLE, MEM_BUBBLE;
      if clearMemory {
        mem.Reset();
      }
    }
  }
}
