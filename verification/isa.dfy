/** The single-cycle CPU (`SingleCycleCpu`): the instruction-set semantics. */
module Isa {
  import opened Words
  import opened Decoder
  import opened Memory
  import opened Registers
  import opened Cp0
  import opened Control
  import Alu

  /** The architectural state. */
  datatype Arch = Arch(regs: Regs, mem: Bytes, cp0: Cp0State, pc: Word)

  // What executing one decoded instruction leads to. Broken is the internal
  // error the source reports as Fault.
  datatype Exec =
    | Next(arch: Arch, nextPc: Word)
    | Trapped(arch: Arch)
    | Broken

  function RaiseAt(a: Arch, code: ExceptionCode, badAddr: Word): Arch {
    a.(cp0 := Raise(a.cp0, code, a.pc, badAddr), pc := EXCEPTION_VECTOR)
  }

  function SetReg(a: Arch, idx: RegIndex, value: Word): Arch {
    a.(regs := WriteReg(a.regs, idx, value))
  }

  function ExecCop0(a: Arch, d: Instr): Exec
    requires d.fields.RForm?
  {
    var r := d.fields;
    var pc4 := Add(a.pc, 4);
    if r.rs == 0x00 then Next(SetReg(a, r.rt, ReadCp0(a.cp0, r.rd)), pc4)
    else if r.rs == 0x04 then Next(a.(cp0 := WriteCp0(a.cp0, r.rd, ReadReg(a.regs, r.rt))), pc4)
    else if r.rs == 0x10 && r.funct == Funct.ERET then Next(a.(cp0 := Eret(a.cp0)), a.cp0.epc)
    else Next(a, pc4)
  }

  function ExecRType(a: Arch, d: Instr): Exec
    requires d.fields.RForm?
  {
    var r := d.fields;
    var f := r.funct;
    var pc4 := Add(a.pc, 4);
    if d.opcode == Opcode.COP0 then ExecCop0(a, d)
    else if f == Funct.SYSCALL then Trapped(RaiseAt(a, ExceptionCode.Sys, 0))
    else if f == Funct.BREAK then Trapped(RaiseAt(a, ExceptionCode.Bp, 0))
    else if f == Funct.JR then Next(a, ReadReg(a.regs, r.rs))
    else if f == Funct.JALR then Next(SetReg(a, r.rd, pc4), ReadReg(a.regs, r.rs))
    else
      var op := Alu.Control(d);
      if op.None? then Broken
      else
        var x, y := ReadReg(a.regs, r.rs), ReadReg(a.regs, r.rt);
        var shamt := if f == Funct.SLLV || f == Funct.SRLV then x % 32 else r.shamt;
        var res := Alu.Execute(op.value, x, y, shamt);
        if res.overflow && (f == Funct.ADD || f == Funct.SUB) then Trapped(RaiseAt(a, ExceptionCode.Ov, 0))
        else Next(SetReg(a, r.rd, res.value), pc4)
  }

  function ExecIType(a: Arch, d: Instr): Exec
    requires d.fields.IForm?
  {
    var i := d.fields;
    var op := d.opcode;
    var pc4 := Add(a.pc, 4);
    var x, y := ReadReg(a.regs, i.rs), ReadReg(a.regs, i.rt);
    var aluOp := Alu.Control(d);
    if aluOp.None? then Broken
    else if op == Opcode.BEQ || op == Opcode.BNE then
      var zero := Alu.Execute(aluOp.value, x, y, 0).zero;
      var taken := if op == Opcode.BEQ then zero else !zero;
      Next(a, if taken then BranchTarget(pc4, i.imm) else pc4)
    else
      var ctrl := DeriveControl(d);
      var imm: Word := if ctrl.zeroExtend then i.imm else SignExtend(i.imm);
      var res := Alu.Execute(aluOp.value, x, imm, 0);
      if res.overflow && op == Opcode.ADDI then Trapped(RaiseAt(a, ExceptionCode.Ov, 0))
      else if ctrl.memRead then
        var loaded := LoadData(a.mem, op, res.value);
        if loaded.None? then Trapped(RaiseAt(a, ExceptionCode.AdEL, res.value))
        else Next(SetReg(a, i.rt, loaded.value), pc4)
      else if ctrl.memWrite then
        var stored := StoreData(a.mem, op, res.value, y);
        if !stored.1 then Trapped(RaiseAt(a, ExceptionCode.AdES, res.value))
        else Next(a.(mem := stored.0), pc4)
      else Next(SetReg(a, i.rt, res.value), pc4)
  }

  function ExecJType(a: Arch, d: Instr): Exec
    requires d.fields.JForm?
  {
    var pc4 := Add(a.pc, 4);
    var linked := if d.opcode == Opcode.JAL then SetReg(a, 31, pc4) else a;
    Next(linked, JumpTarget(pc4, d.fields.target))
  }

  function Execute(a: Arch, d: Instr): Exec
  {
    match d.fields
    case JForm(_) => ExecJType(a, d)
    case RForm(_, _, _, _, _) => ExecRType(a, d)
    case IForm(_, _, _) => ExecIType(a, d)
    case NoForm => Trapped(RaiseAt(a, ExceptionCode.RI, 0))
  }

  /** One step of the single-cycle CPU. */
  function Step(a: Arch): (Arch, StepResult) {
    match ReadWord(a.mem, a.pc)
    case None => (RaiseAt(a, ExceptionCode.AdEL, a.pc), Exception)
    case Some(word) =>
      match Decode(word)
      case None => (RaiseAt(a, ExceptionCode.RI, 0), Exception)
      case Some(d) =>
        match Execute(a, d)
        case Next(b, nextPc) => (b.(pc := nextPc), if nextPc == a.pc then Halt else Ok)
        case Trapped(b) => (b, Exception)
        case Broken => (a, Fault)
  }

  /** The state after `n` steps. */
  function Run(a: Arch, n: nat): Arch {
    if n == 0 then a else Step(Run(a, n - 1)).0
  }

  /** `run`: step until a result other than Ok, or until the budget is spent. */
  function RunUntil(a: Arch, maxSteps: nat): (Arch, StepResult)
    decreases maxSteps
  {
    if maxSteps == 0 then (a, Ok)
    else
      var (b, r) := Step(a);
      if r != Ok then (b, r) else RunUntil(b, maxSteps - 1)
  }

  class SingleCycleCpu {
    const regs: RegisterFile
    const mem: MemoryUnit
    const cp0: Cp0Unit
    var pc: Word
    var ctrl: ControlWord
    var cycle: nat

    constructor (memBytes: nat)
      ensures Valid() && fresh(regs.regs) && fresh(mem.data) && fresh(cp0)
      ensures View() == Arch(ZERO_REGS, seq(memBytes, _ => 0), Cp0State(0, 0, 0, 0, ExceptionCode.RI), 0)
      ensures cycle == 0
    {
      var r := new RegisterFile();
      var m := new MemoryUnit(memBytes);
      var c := new Cp0Unit();
      regs, mem, cp0 := r, m, c;
      pc, ctrl, cycle := 0, NO_CONTROL, 0;
    }

    ghost predicate Valid()
      reads this
    {
      regs.Valid() && regs.regs as object != mem.data as object
    }

    ghost function View(): Arch
      requires Valid()
      reads this, regs.regs, mem, mem.data, cp0
    {
      Arch(regs.Contents(), mem.Contents(), cp0.State(), pc)
    }

    method RaiseTrap(code: ExceptionCode, faultingPc: Word, badAddr: Word) returns (result: StepResult)
      requires Valid() && faultingPc == pc
      modifies this`pc, cp0
      ensures View() == RaiseAt(old(View()), code, badAddr)
      ensures result == Exception
    {
      pc := cp0.RaiseTrap(code, faultingPc, badAddr);
      return Exception;
    }

    /** What `exec_rtype` and `exec_itype` report: `ok` is false for an internal error. */
    twostate predicate Executed(e: Exec, ok: bool, nextPc: Word, exc: StepResult)
      requires Valid()
      reads this, regs.regs, mem, mem.data, cp0
    {
      match e
      case Next(b, n) => ok && exc == Ok && View() == b && nextPc == n
      case Trapped(b) => ok && exc == Exception && View() == b
      case Broken => !ok
    }

    method ExecR(d: Instr, pc4: Word) returns (ok: bool, nextPc: Word, exc: StepResult)
      requires Valid() && d.fields.RForm? && pc4 == Add(pc, 4)
      modifies this`pc, regs.regs, cp0
      ensures Executed(ExecRType(old(View()), d), ok, nextPc, exc)
      ensures !ok ==> View() == old(View())
    {
      var r := d.fields;
      var f := r.funct;
      ok, nextPc, exc := true, pc4, Ok;
      if d.opcode == Opcode.COP0 {
        if r.rs == 0x00 {
          var v := cp0.Read(r.rd);
          regs.Write(r.rt, v);
        } else if r.rs == 0x04 {
          var v := regs.Read(r.rt);
          cp0.Write(r.rd, v);
        } else if r.rs == 0x10 && f == Funct.ERET {
          nextPc := cp0.ReturnFromTrap();
        }
        return;
      }
      if f == Funct.SYSCALL {
        exc := RaiseTrap(ExceptionCode.Sys, Sub(pc4, 4), 0);
        return;
      }
      if f == Funct.BREAK {
        exc := RaiseTrap(ExceptionCode.Bp, Sub(pc4, 4), 0);
        return;
      }
      if f == Funct.JR {
        nextPc := regs.Read(r.rs);
        return;
      }
      if f == Funct.JALR {
        var target := regs.Read(r.rs);
        regs.Write(r.rd, pc4);
        nextPc := target;
        return;
      }
      var op := Alu.Control(d);
      if op.None? {
        ok := false;
        return;
      }
      var a := regs.Read(r.rs);
      var b := regs.Read(r.rt);
      var shamt := r.shamt;
      if f == Funct.SLLV || f == Funct.SRLV {
        shamt := a % 32;
      }
      var res := Alu.Execute(op.value, a, b, shamt);
      if res.overflow && (f == Funct.ADD || f == Funct.SUB) {
        exc := RaiseTrap(ExceptionCode.Ov, Sub(pc4, 4), 0);
        return;
      }
      regs.Write(r.rd, res.value);
    }

    method ExecI(d: Instr, pc4: Word) returns (ok: bool, nextPc: Word, exc: StepResult)
      requires Valid() && d.fields.IForm? && pc4 == Add(pc, 4) && ctrl == DeriveControl(d)
      modifies this`pc, regs.regs, mem.data, cp0
      ensures Executed(ExecIType(old(View()), d), ok, nextPc, exc)
      ensures !ok ==> View() == old(View())
    {
      var i := d.fields;
      var op := d.opcode;
      ok, nextPc, exc := true, pc4, Ok;
      var rsVal := regs.Read(i.rs);
      var rtVal := regs.Read(i.rt);
      var aluOp := Alu.Control(d);
      if aluOp.None? {
        ok := false;
        return;
      }
      if op == Opcode.BEQ || op == Opcode.BNE {
        var cmp := Alu.Execute(aluOp.value, rsVal, rtVal, 0);
        var taken := if op == Opcode.BEQ then cmp.zero else !cmp.zero;
        if taken {
          nextPc := BranchTarget(pc4, i.imm);
        }
        return;
      }
      var imm: Word := if ctrl.zeroExtend then i.imm else SignExtend(i.imm);
      var res := Alu.Execute(aluOp.value, rsVal, imm, 0);
      if res.overflow && op == Opcode.ADDI {
        exc := RaiseTrap(ExceptionCode.Ov, Sub(pc4, 4), 0);
        return;
      }
      if ctrl.memRead {
        var loaded := LoadDataFrom(mem, op, res.value);
        if loaded.None? {
          exc := RaiseTrap(ExceptionCode.AdEL, Sub(pc4, 4), res.value);
          return;
        }
        regs.Write(i.rt, loaded.value);
        return;
      }
      if ctrl.memWrite {
        var stored := StoreDataTo(mem, op, res.value, rtVal);
        if !stored {
          exc := RaiseTrap(ExceptionCode.AdES, Sub(pc4, 4), res.value);
        }
        return;
      }
      regs.Write(i.rt, res.value);
    }

    /** The format switch of `step`. */
    method Dispatch(d: Instr, pc4: Word) returns (ok: bool, nextPc: Word, exc: StepResult)
      requires Valid() && pc4 == Add(pc, 4) && ctrl == DeriveControl(d)
      modifies this`pc, regs.regs, mem.data, cp0
      ensures Executed(Execute(old(View()), d), ok, nextPc, exc)
      ensures !ok ==> View() == old(View())
    {
      hide ExecRType, ExecIType;
      ok, nextPc, exc := true, pc4, Ok;
      match d.fields
      case JForm(target) =>
        if d.opcode == Opcode.JAL {
          regs.Write(31, pc4);
        }
        nextPc := JumpTarget(pc4, target);
      case RForm(_, _, _, _, _) =>
        ok, nextPc, exc := ExecR(d, pc4);
      case IForm(_, _, _) =>
        ok, nextPc, exc := ExecI(d, pc4);
      case NoForm =>
        exc := RaiseTrap(ExceptionCode.RI, pc, 0);
    }

    method StepOnce() returns (result: StepResult)
      requires Valid()
      modifies this, regs.regs, mem.data, cp0
      ensures Valid()
      ensures (View(), result) == Step(old(View()))
      ensures cycle == old(cycle) + 1
    {
      hide Execute, Decode, ReadWord, DeriveControl;
      cycle := cycle + 1;
      var curPc := pc;
      var fetched := mem.ReadWordAt(curPc);
      if fetched.None? {
        result := RaiseTrap(ExceptionCode.AdEL, curPc, curPc);
        return;
      }
      var pc4 := Add(curPc, 4);
      var decoded := Decode(fetched.value);
      if decoded.None? {
        result := RaiseTrap(ExceptionCode.RI, curPc, 0);
        return;
      }
      var d := decoded.value;
      ctrl := DeriveControl(d);
      var ok, nextPc, exc := Dispatch(d, pc4);
      if !ok {
        return Fault;
      }
      if exc == Exception {
        return exc;
      }
      pc := nextPc;
      result := if nextPc == curPc then Halt else Ok;
    }

    method RunSteps(maxSteps: nat) returns (result: StepResult)
      requires Valid()
      modifies this, regs.regs, mem.data, cp0
      ensures Valid()
      ensures (View(), result) == RunUntil(old(View()), maxSteps)
    {
      hide Step;
      for i := 0 to maxSteps
        invariant Valid()
        invariant RunUntil(View(), maxSteps - i) == RunUntil(old(View()), maxSteps)
      {
        result := StepOnce();
        if result != Ok {
          return;
        }
      }
      return Ok;
    }

    method LoadProgram(words: seq<Word>, addr: Word) returns (ok: bool)
      requires Valid() && addr % 4 == 0
      modifies this, mem.data
      ensures Valid()
      ensures ok == (addr + 4 * |words| <= |old(View()).mem|)
      ensures View() == if ok then old(View()).(mem := LoadWords(old(View()).mem, addr, words), pc := addr) else old(View())
    {
      ok := mem.Load(addr, words);
      if !ok {
        return;
      }
      pc := addr;
    }

    method Reset(clearMemory: bool)
      requires Valid()
      modifies this, regs.regs, mem.data, cp0
      ensures Valid()
      ensures View() == Arch(ZERO_REGS,
                             if clearMemory then seq(|old(View()).mem|, _ => 0) else old(View()).mem,
                             Cp0State(0, 0, 0, 0, old(View()).cp0.last), 0)
      ensures cycle == 0
    {
      regs.Reset();
      cp0.Reset();
      pc, ctrl, cycle := 0, NO_CONTROL, 0;
      if clearMemory {
        mem.Reset();
      }
    }
  }
}
