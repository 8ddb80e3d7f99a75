/** Instruction formats, the decoder and its inverse (`mips::Decoder`). */
module Decoder {
  import opened Words

  datatype Opcode =
    | SPECIAL | J | JAL | BEQ | BNE
    | ADDI | ADDIU | SLTI | SLTIU | ANDI | ORI | XORI | LUI
    | COP0 | LW | LBU | LHU | SW

  // The 6-bit funct field also holds values with no enumerator: Reserved.
  datatype Funct =
    | SLL | SRL | SRA | SLLV | SRLV | JR | JALR | SYSCALL | BREAK
    | ADD | ADDU | SUB | SUBU | AND | OR | XOR | NOR | SLT | SLTU | ERET
    | Reserved(code: nat)

  datatype Format = R | I | J

  type Target = x: int | 0 <= x < 0x400_0000

  // NoForm is the Unknown format of a default-constructed instruction.
  datatype Fields =
    | RForm(rs: RegIndex, rt: RegIndex, rd: RegIndex, shamt: RegIndex, funct: Funct)
    | IForm(rs: RegIndex, rt: RegIndex, imm: Half)
    | JForm(target: Target)
    | NoForm

  datatype Instr = Instr(raw: Word, opcode: Opcode, fields: Fields)

  const NO_INSTR := Instr(0, Opcode.SPECIAL, NoForm)

  /** The wire taps `bits(word, hi, lo)`, one per field. */
  function OpField(w: Word): (f: nat) ensures f < 64 { w / 0x400_0000 }
  function RsField(w: Word): RegIndex { (w / 0x20_0000) % 32 }
  function RtField(w: Word): RegIndex { (w / 0x1_0000) % 32 }
  function RdField(w: Word): RegIndex { (w / 0x800) % 32 }
  function ShamtField(w: Word): RegIndex { (w / 0x40) % 32 }
  function FunctField(w: Word): (f: nat) ensures f < 64 { w % 64 }
  function ImmField(w: Word): Half { w % 0x1_0000 }
  function TargetField(w: Word): Target { w % 0x400_0000 }

  function OpcodeOf(code: nat): Option<Opcode> {
    match code
    case 0x00 => Some(Opcode.SPECIAL)
    case 0x02 => Some(Opcode.J)
    case 0x03 => Some(Opcode.JAL)
    case 0x04 => Some(Opcode.BEQ)
    case 0x05 => Some(Opcode.BNE)
    case 0x08 => Some(Opcode.ADDI)
    case 0x09 => Some(Opcode.ADDIU)
    case 0x0A => Some(Opcode.SLTI)
    case 0x0B => Some(Opcode.SLTIU)
    case 0x0C => Some(Opcode.ANDI)
    case 0x0D => Some(Opcode.ORI)
    case 0x0E => Some(Opcode.XORI)
    case 0x0F => Some(Opcode.LUI)
    case 0x10 => Some(Opcode.COP0)
    case 0x23 => Some(Opcode.LW)
    case 0x24 => Some(Opcode.LBU)
    case 0x25 => Some(Opcode.LHU)
    case 0x2B => Some(Opcode.SW)
    case _ => None
  }

  function OpcodeCode(op: Opcode): (c: nat)
    ensures c < 64 && OpcodeOf(c) == Some(op)
  {
    match op
    case SPECIAL => 0x00
    case J => 0x02
    case JAL => 0x03
    case BEQ => 0x04
    case BNE => 0x05
    case ADDI => 0x08
    case ADDIU => 0x09
    case SLTI => 0x0A
    case SLTIU => 0x0B
    case ANDI => 0x0C
    case ORI => 0x0D
    case XORI => 0x0E
    case LUI => 0x0F
    case COP0 => 0x10
    case LW => 0x23
    case LBU => 0x24
    case LHU => 0x25
    case SW => 0x2B
  }

  function FunctOf(code: nat): Funct {
    match code
    case 0x00 => Funct.SLL
    case 0x02 => Funct.SRL
    case 0x03 => Funct.SRA
    case 0x04 => Funct.SLLV
    case 0x06 => Funct.SRLV
    case 0x08 => Funct.JR
    case 0x09 => Funct.JALR
    case 0x0C => Funct.SYSCALL
    case 0x0D => Funct.BREAK
    case 0x18 => Funct.ERET
    case 0x20 => Funct.ADD
    case 0x21 => Funct.ADDU
    case 0x22 => Funct.SUB
    case 0x23 => Funct.SUBU
    case 0x24 => Funct.AND
    case 0x25 => Funct.OR
    case 0x26 => Funct.XOR
    case 0x27 => Funct.NOR
    case 0x2A => Funct.SLT
    case 0x2B => Funct.SLTU
    case _ => Funct.Reserved(code)
  }

  function FunctCode(f: Funct): nat {
    match f
    case SLL => 0x00
    case SRL => 0x02
    case SRA => 0x03
    case SLLV => 0x04
    case SRLV => 0x06
    case JR => 0x08
    case JALR => 0x09
    case SYSCALL => 0x0C
    case BREAK => 0x0D
    case ERET => 0x18
    case ADD => 0x20
    case ADDU => 0x21
    case SUB => 0x22
    case SUBU => 0x23
    case AND => 0x24
    case OR => 0x25
    case XOR => 0x26
    case NOR => 0x27
    case SLT => 0x2A
    case SLTU => 0x2B
    case Reserved(code) => code
  }

  predicate ImplementedSpecial(f: Funct) {
    !f.ERET? && !f.Reserved?
  }

  function FormatOf(op: Opcode): Format {
    match op
    case SPECIAL => Format.R
    case COP0 => Format.R
    case J => Format.J
    case JAL => Format.J
    case _ => Format.I
  }

  function Decode(w: Word): Option<Instr> {
    var op := OpcodeOf(OpField(w));
    if op.None? then None
    else
      match FormatOf(op.value)
      case R =>
        var funct := FunctOf(FunctField(w));
        var cop0 := op.value == Opcode.COP0;
        if !cop0 && !ImplementedSpecial(funct) then None
        else
          var shamt := if cop0 then 0 else ShamtField(w);
          Some(Instr(w, op.value, RForm(RsField(w), RtField(w), RdField(w), shamt, funct)))
      case I => Some(Instr(w, op.value, IForm(RsField(w), RtField(w), ImmField(w))))
      case J => Some(Instr(w, op.value, JForm(TargetField(w))))
  }

  function SignExtend(imm: Half): Word {
    if imm < 0x8000 then imm else imm + 0xFFFF_0000
  }

  /** What the decoder guarantees about the instructions it accepts. */
  predicate WellFormed(d: Instr) {
    match d.fields
    case RForm(_, _, _, shamt, funct) =>
      && FunctOf(FunctCode(funct)) == funct
      && FunctCode(funct) < 64
      && (|| (d.opcode == Opcode.SPECIAL && ImplementedSpecial(funct))
          || (d.opcode == Opcode.COP0 && shamt == 0))
    case IForm(_, _, _) => FormatOf(d.opcode) == Format.I
    case JForm(_) => FormatOf(d.opcode) == Format.J
    case NoForm => false
  }

  /** The word with these opcode and fields. */
  function Encode(opcode: Opcode, fields: Fields): Word
    requires WellFormed(Instr(0, opcode, fields))
  {
    OpcodeCode(opcode) * 0x400_0000 +
    match fields
    case RForm(rs, rt, rd, shamt, funct) =>
      rs * 0x20_0000 + rt * 0x1_0000 + rd * 0x800 + shamt * 0x40 + FunctCode(funct)
    case IForm(rs, rt, imm) => rs * 0x20_0000 + rt * 0x1_0000 + imm
    case JForm(target) => target
  }

  lemma DecodeWellFormed(w: Word)
    ensures Decode(w).Some? ==> WellFormed(Decode(w).value) && Decode(w).value.raw == w
  {
  }

  /** Splitting a word at its field boundaries loses nothing. */
  lemma FieldSplit(w: Word)
    ensures w == OpField(w) * 0x400_0000 + TargetField(w)
    ensures TargetField(w) == RsField(w) * 0x20_0000 + RtField(w) * 0x1_0000 + ImmField(w)
    ensures ImmField(w) == RdField(w) * 0x800 + ShamtField(w) * 0x40 + FunctField(w)
  {
    var w6 := w / 0x40;
    var w11 := w6 / 0x20;
    var w16 := w11 / 0x20;
    var w21 := w16 / 0x20;
    var w26 := w21 / 0x20;
    DivTwice(w, 0x40, 0x20);
    DivTwice(w, 0x800, 0x20);
    DivTwice(w, 0x1_0000, 0x20);
    DivTwice(w, 0x20_0000, 0x20);
    DivUnique(w, 0x400_0000, w26, RsField(w) * 0x20_0000 + RtField(w) * 0x1_0000 + RdField(w) * 0x800 + ShamtField(w) * 0x40 + FunctField(w));
    DivUnique(w, 0x1_0000, w16, RdField(w) * 0x800 + ShamtField(w) * 0x40 + FunctField(w));
  }

  /** Decoding is invertible: the fields of an accepted word give the word back,
      except that a COP0 word loses its bits 10:6. */
  lemma EncodeDecode(w: Word)
    requires Decode(w).Some?
    ensures var d := Decode(w).value;
            WellFormed(d.(raw := 0)) &&
            Encode(d.opcode, d.fields) == if d.opcode == Opcode.COP0 then w - ShamtField(w) * 0x40 else w
  {
    FieldSplit(w);
    FunctRoundTrip(FunctField(w));
    OpcodeRoundTrip(OpField(w));
  }

  lemma FunctRoundTrip(code: nat)
    ensures FunctCode(FunctOf(code)) == code
  {
  }

  lemma OpcodeRoundTrip(code: nat)
    ensures OpcodeOf(code).Some? ==> OpcodeCode(OpcodeOf(code).value) == code
  {
  }

  /** The fields of an encoded word are the ones it was built from. */
  lemma EncodedFields(op: nat, rs: RegIndex, rt: RegIndex, imm: Half)
    requires op < 64
    ensures var w: Word := op * 0x400_0000 + rs * 0x20_0000 + rt * 0x1_0000 + imm;
            OpField(w) == op && RsField(w) == rs && RtField(w) == rt && ImmField(w) == imm
  {
    var w: Word := op * 0x400_0000 + rs * 0x20_0000 + rt * 0x1_0000 + imm;
    var w16 := op * 0x400 + rs * 0x20 + rt;
    var w21 := op * 0x20 + rs;
    DivUnique(w, 0x1_0000, w16, imm);
    DivUnique(w16, 0x20, w21, rt);
    DivUnique(w21, 0x20, op, rs);
    DivTwice(w, 0x1_0000, 0x20);
    DivTwice(w, 0x20_0000, 0x20);
  }

  lemma EncodedLow(w: Word, rd: RegIndex, shamt: RegIndex, funct: nat)
    requires funct < 64
    requires ImmField(w) == rd * 0x800 + shamt * 0x40 + funct
    ensures RdField(w) == rd && ShamtField(w) == shamt && FunctField(w) == funct
  {
    var high := w / 0x1_0000;
    DivUnique(w, 0x40, high * 0x400 + rd * 0x20 + shamt, funct);
    DivUnique(high * 0x400 + rd * 0x20 + shamt, 0x20, high * 0x20 + rd, shamt);
    DivTwice(w, 0x40, 0x20);
    assert (high * 0x20 + rd) % 32 == rd;
  }

  /** Every well-formed instruction is the decoding of its encoding. */
  lemma DecodeEncode(opcode: Opcode, fields: Fields)
    requires WellFormed(Instr(0, opcode, fields))
    ensures var w := Encode(opcode, fields); Decode(w) == Some(Instr(w, opcode, fields))
  {
    hide Encode, Decode;
    match fields
    case RForm(rs, rt, rd, shamt, funct) => DecodeEncodeR(opcode, rs, rt, rd, shamt, funct);
    case IForm(rs, rt, imm) => DecodeEncodeI(opcode, rs, rt, imm);
    case JForm(target) => DecodeEncodeJ(opcode, target);
  }

  lemma DecodeEncodeR(opcode: Opcode, rs: RegIndex, rt: RegIndex, rd: RegIndex, shamt: RegIndex, funct: Funct)
    requires WellFormed(Instr(0, opcode, RForm(rs, rt, rd, shamt, funct)))
    ensures var w := Encode(opcode, RForm(rs, rt, rd, shamt, funct));
            Decode(w) == Some(Instr(w, opcode, RForm(rs, rt, rd, shamt, funct)))
  {
    EncodedFields(OpcodeCode(opcode), rs, rt, rd * 0x800 + shamt * 0x40 + FunctCode(funct));
    EncodedLow(Encode(opcode, RForm(rs, rt, rd, shamt, funct)), rd, shamt, FunctCode(funct));
    hide OpField, RsField, RtField, RdField, ShamtField, FunctField, ImmField, FunctCode, OpcodeCode;
  }

  lemma DecodeEncodeI(opcode: Opcode, rs: RegIndex, rt: RegIndex, imm: Half)
    requires WellFormed(Instr(0, opcode, IForm(rs, rt, imm)))
    ensures var w := Encode(opcode, IForm(rs, rt, imm)); Decode(w) == Some(Instr(w, opcode, IForm(rs, rt, imm)))
  {
    EncodedFields(OpcodeCode(opcode), rs, rt, imm);
    hide OpField, RsField, RtField, ImmField, OpcodeCode;
  }

  lemma DecodeEncodeJ(opcode: Opcode, target: Target)
    requires WellFormed(Instr(0, opcode, JForm(target)))
    ensures var w := Encode(opcode, JForm(target)); Decode(w) == Some(Instr(w, opcode, JForm(target)))
  {
    DivUnique(OpcodeCode(opcode) * 0x400_0000 + target, 0x400_0000, OpcodeCode(opcode), target);
  }
}
