/** The inter-stage registers and the hazard and forwarding units
    (`pipeline_regs.h`, `pipeline_units.cpp`). */
module PipelineUnits {
  import opened Words
  import opened Decoder
  import opened Cp0
  import opened Control
  import Alu

  datatype IfId = IfId(pc: Word, pc4: Word, instr: Word, valid: bool, isHalt: bool, fetchFault: bool)

  datatype IdEx = IdEx(
    pc: Word, pc4: Word, ctrl: ControlWord, decoded: Instr,
    rsVal: Word, rtVal: Word, rs: RegIndex, rt: RegIndex,
    valid: bool, isHalt: bool, earlyTrap: Option<ExceptionCode>)

  datatype ExMem = ExMem(
    pc: Word, raw: Word, ctrl: ControlWord, alu: Alu.AluResult, rtVal: Word,
    writeReg: RegIndex, opcode: Opcode, valid: bool, isHalt: bool)

  datatype MemWb = MemWb(
    pc: Word, raw: Word, ctrl: ControlWord, aluVal: Word, memVal: Word,
    writeReg: RegIndex, valid: bool, isHalt: bool)

  // A bubble is a value-initialised register.
  const IF_BUBBLE := IfId(0, 0, 0, false, false, false)
  const ID_BUBBLE := IdEx(0, 0, NO_CONTROL, NO_INSTR, 0, 0, 0, 0, false, false, None)
  const EX_BUBBLE := ExMem(0, 0, NO_CONTROL, Alu.NO_RESULT, 0, 0, Opcode.SPECIAL, false, false)
  const MEM_BUBBLE := MemWb(0, 0, NO_CONTROL, 0, 0, 0, false, false)

  // -1 means "no such operand".
  datatype SourceRegisters = SourceRegisters(a: int, b: int)

  function Sources(d: Instr): SourceRegisters {
    match d.fields
    case RForm(rs, rt, _, _, funct) =>
      if d.opcode == Opcode.COP0 then SourceRegisters(-1, if rs == 0x04 then rt else -1)
      else
        (match funct
         case SLL => SourceRegisters(-1, rt)
         case SRL => SourceRegisters(-1, rt)
         case SRA => SourceRegisters(-1, rt)
         case JR => SourceRegisters(rs, -1)
         case JALR => SourceRegisters(rs, -1)
         case _ => SourceRegisters(rs, rt))
    case IForm(rs, rt, _) =>
      (match d.opcode
       case LUI => SourceRegisters(-1, -1)
       case SW => SourceRegisters(rs, rt)
       case BEQ => SourceRegisters(rs, rt)
       case BNE => SourceRegisters(rs, rt)
       case _ => SourceRegisters(rs, -1))
    case _ => SourceRegisters(-1, -1)
  }

  function DestinationRegister(d: Instr): int
    requires WellFormed(d)
  {
    if d.opcode == Opcode.COP0 then (if d.fields.rs == 0x00 then d.fields.rt else -1)
    else if d.opcode == Opcode.JAL then 31
    else if !DeriveControl(d).regWrite then -1
    else if d.fields.RForm? then d.fields.rd
    else d.fields.rt
  }

  predicate LoadUseHazard(inEx: IdEx, inId: IfId) {
    if !inEx.valid || !inEx.ctrl.memRead || !inId.valid || inId.fetchFault then false
    else
      match Decode(inId.instr)
      case None => false
      case Some(d) => inEx.rt != 0 && (inEx.rt == Sources(d).a || inEx.rt == Sources(d).b)
  }

  datatype ForwardingPaths = ForwardingPaths(exMemA: bool, exMemB: bool, memWbA: bool, memWbB: bool)

  datatype ExOperands = ExOperands(a: Word, b: Word, paths: ForwardingPaths)

  const NO_PATHS := ForwardingPaths(false, false, false, false)

  function WbValue(w: MemWb): Word {
    if w.ctrl.memToReg then w.memVal else w.aluVal
  }

  /** EX/MEM has priority over MEM/WB; a load in EX/MEM holds an address and cannot forward. */
  function ForwardOperands(inEx: IdEx, exMem: ExMem, memWb: MemWb): ExOperands {
    var fromEx := exMem.valid && exMem.ctrl.regWrite && !exMem.ctrl.memRead && exMem.writeReg != 0;
    var exA := fromEx && exMem.writeReg == inEx.rs;
    var exB := fromEx && exMem.writeReg == inEx.rt;
    var fromWb := memWb.valid && memWb.ctrl.regWrite && memWb.writeReg != 0;
    var wbA := fromWb && memWb.writeReg == inEx.rs && !exA;
    var wbB := fromWb && memWb.writeReg == inEx.rt && !exB;
    ExOperands(
      if exA then exMem.alu.value else if wbA then WbValue(memWb) else inEx.rsVal,
      if exB then exMem.alu.value else if wbB then WbValue(memWb) else inEx.rtVal,
      ForwardingPaths(exA, exB, wbA, wbB))
  }
}
