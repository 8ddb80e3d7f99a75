/** EX, MEM and WB of one instruction, taken together, do what the single-cycle
    CPU does, provided the operands it really reads are right. */
module ExecAgreement {
  import opened Words
  import opened Decoder
  import opened Registers
  import opened Cp0
  import opened Control
  import opened PipelineUnits
  import opened Pipeline
  import Alu
  import Isa

  /** The address after the instruction when EX does not redirect. */
  function FallThrough(x: IdEx): Word {
    if x.decoded.fields.JForm? then JumpTarget(x.pc4, x.decoded.fields.target) else x.pc4
  }

  /** CP0 once EX's access has been applied, or its trap raised. */
  function Cp0After(cp0: Cp0State, ex: ExOutcome): Cp0State {
    match ex.trap
    case Some(t) => Raise(cp0, t.code, t.pc, t.badAddr)
    case None =>
      var c := if ex.mtc0.Some? then WriteCp0(cp0, ex.mtc0.value.reg, ex.mtc0.value.value) else cp0;
      if ex.eret then Eret(c) else c
  }

  /** The architectural state once the outcome of EX has gone through MEM and WB;
      the flag tells whether it trapped on the way. */
  function Settle(a: Isa.Arch, ex: ExOutcome, fallThrough: Word): (Isa.Arch, bool) {
    var cp0 := Cp0After(a.cp0, ex);
    if ex.trap.Some? then (a.(cp0 := cp0, pc := EXCEPTION_VECTOR), true)
    else
      var m := MemoryAccess(a.mem, ex.next);
      match m.trap
      case Some(t) => (Isa.Arch(a.regs, m.mem, Raise(cp0, t.code, t.pc, t.badAddr), EXCEPTION_VECTOR), true)
      case None =>
        (Isa.Arch(WriteBack(a.regs, m.next), m.mem, cp0, if ex.redirect.Some? then ex.redirect.value else fallThrough), false)
  }

  /** The same for the single-cycle CPU. */
  function Settled(a: Isa.Arch, e: Isa.Exec): (Isa.Arch, bool) {
    match e
    case Next(b, nextPc) => (b.(pc := nextPc), false)
    case Trapped(b) => (b, true)
    case Broken => (a, false)
  }

  /** An ID/EX entry for a decoded instruction at the state's PC, whose operands
      are right wherever the instruction reads them. */
  predicate Issued(a: Isa.Arch, x: IdEx, ops: ExOperands) {
    var d := x.decoded;
    && WellFormed(d)
    && x.ctrl == DeriveControl(d)
    && x.pc == a.pc && x.pc4 == Add(a.pc, 4)
    && (Sources(d).a >= 0 ==> ops.a == ReadReg(a.regs, Sources(d).a))
    && (Sources(d).b >= 0 ==> ops.b == ReadReg(a.regs, Sources(d).b))
  }

  predicate Agree(a: Isa.Arch, x: IdEx, ops: ExOperands) {
    && Settle(a, ExecuteDecoded(x, ops, a.cp0), FallThrough(x)) == Settled(a, Isa.Execute(a, x.decoded))
    && !Isa.Execute(a, x.decoded).Broken?
  }

  lemma JumpsAgree(a: Isa.Arch, x: IdEx, ops: ExOperands)
    requires Issued(a, x, ops) && x.decoded.fields.JForm?
    ensures Agree(a, x, ops)
  {
  }

  lemma BranchesAgree(a: Isa.Arch, x: IdEx, ops: ExOperands)
    requires Issued(a, x, ops) && x.decoded.fields.IForm?
    requires x.decoded.opcode == Opcode.BEQ || x.decoded.opcode == Opcode.BNE
    ensures Agree(a, x, ops)
  {
  }

  lemma Cop0Agree(a: Isa.Arch, x: IdEx, ops: ExOperands)
    requires Issued(a, x, ops) && x.decoded.fields.RForm? && x.decoded.opcode == Opcode.COP0
    ensures Agree(a, x, ops)
  {
  }

  predicate RegisterJumpOrTrap(f: Funct) {
    f == Funct.JR || f == Funct.JALR || f == Funct.SYSCALL || f == Funct.BREAK
  }

  lemma RegisterJumpsAgree(a: Isa.Arch, x: IdEx, ops: ExOperands)
    requires Issued(a, x, ops) && x.decoded.fields.RForm? && x.decoded.opcode == Opcode.SPECIAL
    requires RegisterJumpOrTrap(x.decoded.fields.funct)
    ensures Agree(a, x, ops)
  {
    hide Agree, Issued;
    if x.decoded.fields.funct == Funct.SYSCALL || x.decoded.fields.funct == Funct.BREAK {
      TrapInstructionsAgree(a, x, ops);
    } else {
      JumpRegisterAgrees(a, x, ops);
    }
  }

  lemma TrapInstructionsAgree(a: Isa.Arch, x: IdEx, ops: ExOperands)
    requires Issued(a, x, ops) && x.decoded.fields.RForm? && x.decoded.opcode == Opcode.SPECIAL
    requires x.decoded.fields.funct == Funct.SYSCALL || x.decoded.fields.funct == Funct.BREAK
    ensures Agree(a, x, ops)
  {
    hide Alu.Control, Alu.Execute, WriteCp0, ReadCp0, Eret, Raise, LoadData, StoreData, JumpTarget, SignExtend, ITypeControl, ExecuteAlu, ExecuteCop0;
  }

  lemma JumpRegisterAgrees(a: Isa.Arch, x: IdEx, ops: ExOperands)
    requires Issued(a, x, ops) && x.decoded.fields.RForm? && x.decoded.opcode == Opcode.SPECIAL
    requires x.decoded.fields.funct == Funct.JR || x.decoded.fields.funct == Funct.JALR
    ensures Agree(a, x, ops)
  {
    hide Alu.Control, Alu.Execute, WriteCp0, ReadCp0, Eret, Raise, LoadData, StoreData, JumpTarget, SignExtend, ITypeControl, ExecuteAlu, ExecuteCop0;
  }

  /** A shift by an immediate amount ignores its first operand. */
  lemma ShiftIgnoresA(op: Alu.AluOp, a: Word, a': Word, b: Word, shamt: RegIndex)
    requires op == Alu.AluOp.SLL || op == Alu.AluOp.SRL || op == Alu.AluOp.SRA || op == Alu.AluOp.LUI
    ensures Alu.Execute(op, a, b, shamt) == Alu.Execute(op, a', b, shamt)
  {
  }

  lemma AluRTypeAgree(a: Isa.Arch, x: IdEx, ops: ExOperands)
    requires Issued(a, x, ops) && x.decoded.fields.RForm? && x.decoded.opcode == Opcode.SPECIAL
    requires !RegisterJumpOrTrap(x.decoded.fields.funct)
    ensures Agree(a, x, ops)
  {
    hide Alu.Execute, WriteCp0, ReadCp0, Eret, LoadData, StoreData, JumpTarget, SignExtend, ITypeControl, ExecuteCop0, Isa.ExecIType, Isa.ExecJType;
    assert ExecuteDecoded(x, ops, a.cp0) == ExecuteAlu(x, ops);
    var d := x.decoded;
    var op := Alu.Control(d).value;
    var y, z := ReadReg(a.regs, d.fields.rs), ReadReg(a.regs, d.fields.rt);
    if Sources(d).a < 0 {
      ShiftIgnoresA(op, ops.a, y, ops.b, d.fields.shamt);
    }
  }

  lemma AluITypeAgree(a: Isa.Arch, x: IdEx, ops: ExOperands)
    requires Issued(a, x, ops) && x.decoded.fields.IForm?
    requires !x.ctrl.branch && !x.ctrl.memRead && !x.ctrl.memWrite && x.decoded.opcode != Opcode.LUI
    ensures Agree(a, x, ops)
  {
    hide Alu.Execute, WriteCp0, ReadCp0, Eret, Raise, LoadData, StoreData, JumpTarget, SignExtend, RTypeControl, ExecuteCop0, Isa.ExecRType, Isa.ExecJType;
    assert ExecuteDecoded(x, ops, a.cp0) == ExecuteAlu(x, ops);
  }

  lemma LuiAgrees(a: Isa.Arch, x: IdEx, ops: ExOperands)
    requires Issued(a, x, ops) && x.decoded.fields.IForm? && x.decoded.opcode == Opcode.LUI
    ensures Agree(a, x, ops)
  {
    hide Alu.Execute, WriteCp0, ReadCp0, Eret, LoadData, StoreData, JumpTarget, SignExtend, RTypeControl;
    ShiftIgnoresA(Alu.AluOp.LUI, ops.a, ReadReg(a.regs, x.decoded.fields.rs), x.decoded.fields.imm, 0);
  }

  lemma MemoryOpsAgree(a: Isa.Arch, x: IdEx, ops: ExOperands)
    requires Issued(a, x, ops) && x.decoded.fields.IForm?
    requires x.ctrl.memRead || x.ctrl.memWrite
    ensures Agree(a, x, ops)
  {
    hide LoadData, StoreData, WriteCp0, ReadCp0, Eret, Raise, JumpTarget, BranchTarget, SignExtend, RTypeControl, ExecuteCop0, Isa.ExecRType, Isa.ExecJType;
    assert Alu.Control(x.decoded) == Some(Alu.AluOp.ADDU);
    assert ExecuteDecoded(x, ops, a.cp0) == ExecuteAlu(x, ops);
  }

  /** Every decodable instruction: EX then MEM then WB equals one single-cycle
      execution, registers, memory, CP0, next PC and trap alike; no internal
      error is reachable. */
  lemma InstructionsAgree(a: Isa.Arch, x: IdEx, ops: ExOperands)
    requires Issued(a, x, ops)
    ensures Agree(a, x, ops)
  {
    hide Agree, ExecuteDecoded;
    var d := x.decoded;
    match d.fields
    case JForm(_) => JumpsAgree(a, x, ops);
    case RForm(_, _, _, _, funct) =>
      if d.opcode == Opcode.COP0 {
        Cop0Agree(a, x, ops);
      } else if RegisterJumpOrTrap(funct) {
        RegisterJumpsAgree(a, x, ops);
      } else {
        AluRTypeAgree(a, x, ops);
      }
    case IForm(_, _, _) =>
      if d.opcode == Opcode.BEQ || d.opcode == Opcode.BNE {
        BranchesAgree(a, x, ops);
      } else if x.ctrl.memRead || x.ctrl.memWrite {
        MemoryOpsAgree(a, x, ops);
      } else if d.opcode == Opcode.LUI {
        LuiAgrees(a, x, ops);
      } else {
        AluITypeAgree(a, x, ops);
      }
  }

  /** The instructions that transfer control in EX or ID: jumps, register jumps, ERET and
      branches that are taken. */
  predicate Redirects(a: Isa.Arch, d: Instr) {
    match d.fields
    case JForm(_) => true
    case RForm(rs, _, _, _, funct) =>
      || (d.opcode == Opcode.SPECIAL && (funct == Funct.JR || funct == Funct.JALR))
      || (d.opcode == Opcode.COP0 && rs == 0x10 && funct == Funct.ERET)
    case IForm(rs, rt, _) =>
      var equal := ReadReg(a.regs, rs) == ReadReg(a.regs, rt);
      (d.opcode == Opcode.BEQ && equal) || (d.opcode == Opcode.BNE && !equal)
    case NoForm => false
  }

  /** EX redirects for exactly these, but for the jumps ID has already resolved. */
  lemma RedirectExactly(a: Isa.Arch, x: IdEx, ops: ExOperands)
    requires Issued(a, x, ops)
    ensures var ex := ExecuteDecoded(x, ops, a.cp0);
            ex.trap.None? ==> (ex.redirect.Some? <==> Redirects(a, x.decoded) && !x.decoded.fields.JForm?)
  {
    hide Alu.Value, WriteCp0, ReadCp0, Eret, Raise, LoadData, StoreData, JumpTarget, SignExtend, BranchTarget, Alu.Control;
    Alu.ZeroMeaning(ops.a, ops.b, 0);
  }
}
