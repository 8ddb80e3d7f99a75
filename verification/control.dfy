/** Main control and the data-memory helpers both CPU models share
    (`derive_control`, `load_data`, `store_data`). */
module Control {
  import opened Words
  import opened Decoder
  import opened Memory

  /** What one step of either CPU model reports. */
  datatype StepResult = Ok | Exception | Fault | Halt

  function JumpTarget(pc4: Word, target: Target): Word {
    (pc4 / 0x1000_0000) * 0x1000_0000 + target * 4
  }

  function BranchTarget(pc4: Word, imm: Half): Word {
    Add(pc4, (SignExtend(imm) * 4) % WORD_LIMIT)
  }

  datatype ControlWord = ControlWord(
    regWrite: bool, memRead: bool, memWrite: bool, memToReg: bool,
    aluSrc: bool, regDst: bool, branch: bool, jump: bool, zeroExtend: bool)

  const NO_CONTROL := ControlWord(false, false, false, false, false, false, false, false, false)

  function RTypeControl(opcode: Opcode, funct: Funct): ControlWord {
    if opcode == Opcode.COP0 then NO_CONTROL
    else
      match funct
      case JR => NO_CONTROL
      case JALR => NO_CONTROL.(regWrite := true)
      case SYSCALL => NO_CONTROL
      case BREAK => NO_CONTROL
      case _ => NO_CONTROL.(regWrite := true, regDst := true)
  }

  function ITypeControl(opcode: Opcode): ControlWord {
    match opcode
    case ADDI => NO_CONTROL.(regWrite := true, aluSrc := true)
    case ADDIU => NO_CONTROL.(regWrite := true, aluSrc := true)
    case SLTI => NO_CONTROL.(regWrite := true, aluSrc := true)
    case SLTIU => NO_CONTROL.(regWrite := true, aluSrc := true)
    case ANDI => NO_CONTROL.(regWrite := true, aluSrc := true, zeroExtend := true)
    case ORI => NO_CONTROL.(regWrite := true, aluSrc := true, zeroExtend := true)
    case XORI => NO_CONTROL.(regWrite := true, aluSrc := true, zeroExtend := true)
    case LUI => NO_CONTROL.(regWrite := true, aluSrc := true, zeroExtend := true)
    case LW => NO_CONTROL.(regWrite := true, memRead := true, memToReg := true, aluSrc := true)
    case LBU => NO_CONTROL.(regWrite := true, memRead := true, memToReg := true, aluSrc := true)
    case LHU => NO_CONTROL.(regWrite := true, memRead := true, memToReg := true, aluSrc := true)
    case SW => NO_CONTROL.(memWrite := true, aluSrc := true)
    case BEQ => NO_CONTROL.(branch := true)
    case BNE => NO_CONTROL.(branch := true)
    case _ => NO_CONTROL
  }

  function DeriveControl(d: Instr): ControlWord {
    match d.fields
    case RForm(_, _, _, _, funct) => RTypeControl(d.opcode, funct)
    case IForm(_, _, _) => ITypeControl(d.opcode)
    case JForm(_) => NO_CONTROL.(jump := true, regWrite := d.opcode == Opcode.JAL)
    case NoForm => NO_CONTROL
  }

  function LoadData(m: Bytes, op: Opcode, addr: Word): Option<Word> {
    match op
    case LW => ReadWord(m, addr)
    case LBU =>
      (match ReadByte(m, addr)
       case Some(b) => Some(b)
       case None => None)
    case LHU =>
      (match ReadHalf(m, addr)
       case Some(h) => Some(h)
       case None => None)
    case _ => None
  }

  function StoreData(m: Bytes, op: Opcode, addr: Word, value: Word): (r: (Bytes, bool))
    ensures !r.1 ==> r.0 == m
    ensures |r.0| == |m|
  {
    match op
    case SW => WriteWord(m, addr, value)
    case _ => (m, false)
  }

  /** Loads after SW: the word, its halves and its bytes, zero-extended, lowest first. */
  lemma LoadsAfterStore(m: Bytes, addr: Word, value: Word)
    requires StoreData(m, Opcode.SW, addr, value).1
    ensures var m' := StoreData(m, Opcode.SW, addr, value).0;
            && LoadData(m', Opcode.LW, addr) == Some(value)
            && LoadData(m', Opcode.LHU, addr) == Some(value % 0x1_0000)
            && LoadData(m', Opcode.LHU, addr + 2) == Some(value / 0x1_0000)
            && LoadData(m', Opcode.LBU, addr) == Some(value % 256)
            && LoadData(m', Opcode.LBU, addr + 1) == Some((value / 256) % 256)
            && LoadData(m', Opcode.LBU, addr + 2) == Some((value / 0x1_0000) % 256)
            && LoadData(m', Opcode.LBU, addr + 3) == Some(value / 0x100_0000)
  {
    ReadAfterPut(m, addr, value, addr);
    PartsAfterPut(m, addr, value);
    hide PutWord, ReadWord, ReadHalf, ReadByte;
  }

  method LoadDataFrom(mem: MemoryUnit, op: Opcode, addr: Word) returns (word: Option<Word>)
    ensures word == LoadData(mem.Contents(), op, addr)
  {
    match op
    case LW =>
      word := mem.ReadWordAt(addr);
    case LBU =>
      var b := mem.ReadByteAt(addr);
      word := if b.Some? then Some(b.value) else None;
    case LHU =>
      var h := mem.ReadHalfAt(addr);
      word := if h.Some? then Some(h.value) else None;
    case _ =>
      word := None;
  }

  method StoreDataTo(mem: MemoryUnit, op: Opcode, addr: Word, value: Word) returns (ok: bool)
    modifies mem.data
    ensures (mem.Contents(), ok) == StoreData(old(mem.Contents()), op, addr, value)
  {
    match op
    case SW =>
      ok := mem.WriteWordAt(addr, value);
    case _ =>
      ok := false;
  }
}
