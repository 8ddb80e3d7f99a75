/** The dependence sets the hazard unit works with are sound, and every decodable
    word has an executable path in both CPUs. */
module Dependence {
  import opened Words
  import opened Decoder
  import opened Memory
  import opened Registers
  import opened Cp0
  import opened Control
  import opened PipelineUnits
  import opened Pipeline
  import opened ExecAgreement
  import opened Refinement
  import Alu
  import Isa

  /** Two states that differ only in registers the instruction does not read. */
  predicate SameInputs(a: Isa.Arch, b: Isa.Arch, d: Instr) {
    && b == a.(regs := b.regs)
    && (Sources(d).a >= 0 ==> ReadReg(a.regs, Sources(d).a) == ReadReg(b.regs, Sources(d).a))
    && (Sources(d).b >= 0 ==> ReadReg(a.regs, Sources(d).b) == ReadReg(b.regs, Sources(d).b))
  }

  /** The state after execution, the next PC, and whether it trapped. */
  function Outcome(a: Isa.Arch, d: Instr): (Isa.Arch, bool) {
    Settled(a, Isa.Execute(a, d))
  }

  /** Everything but the destination register keeps its value. */
  predicate OnlyWrites(before: Regs, after: Regs, dst: int) {
    forall r: RegIndex :: r != dst ==> ReadReg(after, r) == ReadReg(before, r)
  }

  predicate Sound(a: Isa.Arch, b: Isa.Arch, d: Instr)
    requires WellFormed(d)
  {
    var dst := DestinationRegister(d);
    var (x, xt) := Outcome(a, d);
    var (y, yt) := Outcome(b, d);
    && xt == yt
    && y == x.(regs := y.regs)
    && OnlyWrites(a.regs, x.regs, dst)
    && (!xt && dst >= 0 ==> ReadReg(x.regs, dst) == ReadReg(y.regs, dst))
    && (xt ==> x.regs == a.regs)
  }

  lemma SoundCop0(a: Isa.Arch, b: Isa.Arch, d: Instr)
    requires WellFormed(d) && d.fields.RForm? && d.opcode == Opcode.COP0 && SameInputs(a, b, d)
    ensures Sound(a, b, d)
  {
    hide Alu.Execute, Alu.Control, Raise, Eret, ReadCp0, WriteCp0, Isa.ExecIType, Isa.ExecJType;
  }

  lemma SoundSpecial(a: Isa.Arch, b: Isa.Arch, d: Instr)
    requires WellFormed(d) && d.fields.RForm? && d.opcode == Opcode.SPECIAL && SameInputs(a, b, d)
    ensures Sound(a, b, d)
  {
    hide Alu.Execute, LoadData, StoreData, SignExtend, ITypeControl, Raise, Isa.ExecCop0, Isa.ExecIType, Isa.ExecJType;
    if Sources(d).a < 0 {
      var op := Alu.Control(d).value;
      ShiftIgnoresA(op, ReadReg(a.regs, d.fields.rs), ReadReg(b.regs, d.fields.rs), ReadReg(a.regs, d.fields.rt), d.fields.shamt);
    }
  }

  lemma SoundRType(a: Isa.Arch, b: Isa.Arch, d: Instr)
    requires WellFormed(d) && d.fields.RForm? && SameInputs(a, b, d)
    ensures Sound(a, b, d)
  {
    hide Sound, SameInputs;
    if d.opcode == Opcode.COP0 {
      SoundCop0(a, b, d);
    } else {
      SoundSpecial(a, b, d);
    }
  }

  lemma SoundBranch(a: Isa.Arch, b: Isa.Arch, d: Instr)
    requires WellFormed(d) && d.fields.IForm? && SameInputs(a, b, d)
    requires d.opcode == Opcode.BEQ || d.opcode == Opcode.BNE
    ensures Sound(a, b, d)
  {
    hide Alu.Execute, LoadData, StoreData, SignExtend, RTypeControl, BranchTarget, Isa.ExecRType, Isa.ExecJType;
  }

  lemma SoundAccess(a: Isa.Arch, b: Isa.Arch, d: Instr)
    requires WellFormed(d) && d.fields.IForm? && SameInputs(a, b, d)
    requires DeriveControl(d).memRead || DeriveControl(d).memWrite
    ensures Sound(a, b, d)
  {
    hide Alu.Execute, LoadData, StoreData, SignExtend, RTypeControl, BranchTarget, Raise, Isa.ExecRType, Isa.ExecJType;
  }

  lemma SoundArith(a: Isa.Arch, b: Isa.Arch, d: Instr)
    requires WellFormed(d) && d.fields.IForm? && SameInputs(a, b, d)
    requires d.opcode != Opcode.BEQ && d.opcode != Opcode.BNE
    requires !DeriveControl(d).memRead && !DeriveControl(d).memWrite
    ensures Sound(a, b, d)
  {
    hide Alu.Execute, LoadData, StoreData, SignExtend, RTypeControl, BranchTarget, Raise, Isa.ExecRType, Isa.ExecJType;
    if d.opcode == Opcode.LUI {
      ShiftIgnoresA(Alu.AluOp.LUI, ReadReg(a.regs, d.fields.rs), ReadReg(b.regs, d.fields.rs), d.fields.imm, 0);
    }
  }

  lemma SoundIType(a: Isa.Arch, b: Isa.Arch, d: Instr)
    requires WellFormed(d) && d.fields.IForm? && SameInputs(a, b, d)
    ensures Sound(a, b, d)
  {
    hide Sound, SameInputs;
    if d.opcode == Opcode.BEQ || d.opcode == Opcode.BNE {
      SoundBranch(a, b, d);
    } else if DeriveControl(d).memRead || DeriveControl(d).memWrite {
      SoundAccess(a, b, d);
    } else {
      SoundArith(a, b, d);
    }
  }

  /** An instruction's effect depends on registers only through its source registers,
      and changes no register but its destination. */
  lemma DependenceSetsSound(a: Isa.Arch, b: Isa.Arch, d: Instr)
    requires WellFormed(d) && SameInputs(a, b, d)
    ensures Sound(a, b, d)
  {
    match d.fields
    case RForm(_, _, _, _, _) => SoundRType(a, b, d);
    case IForm(_, _, _) => SoundIType(a, b, d);
    case JForm(_) =>
  }

  /** No run of the single-cycle CPU meets an internal error. */
  lemma NeverFaults(a: Isa.Arch)
    ensures Isa.Step(a).1 != Fault
  {
    hide Alu.Execute, LoadData, StoreData;
    if ReadWord(a.mem, a.pc).Some? {
      DecodeWellFormed(ReadWord(a.mem, a.pc).value);
      if Decode(ReadWord(a.mem, a.pc).value).Some? {
        NoInternalError(a, Decode(ReadWord(a.mem, a.pc).value).value);
      }
    }
  }

  lemma NoInternalError(a: Isa.Arch, d: Instr)
    requires WellFormed(d)
    ensures !Isa.Execute(a, d).Broken?
  {
    hide Alu.Execute, LoadData, StoreData;
  }

  /** EX can run whatever decodes: the only reserved-instruction traps it raises were recorded in ID. */
  lemma ReservedOnlyFromDecode(s: State)
    requires Inv(s) && ExOf(s).trap.Some? && ExOf(s).trap.value.code == ExceptionCode.RI
    ensures s.idEx.earlyTrap == Some(ExceptionCode.RI) && Decode(s.idEx.decoded.raw).None?
  {
    hide Alu.Execute, ForwardOperands, Chained, NoLoadUse, ReadCp0, JumpTarget, BranchTarget, SignExtend;
    DecodeWellFormed(s.idEx.decoded.raw);
  }
}
