/** What assembled words mean to the CPU. */
module AssembledCode {
  import opened Assembler
  import opened AssemblerText
  import opened Control
  import opened Decoder
  import opened Memory
  import opened Registers
  import opened Words
  import Alu
  import Isa

  /** The integer an immediate stands for when the CPU extends it. */
  function Extended(op: Opcode, imm: Half): int {
    if ITypeControl(op).zeroExtend then imm else Signed(SignExtend(imm))
  }

  /** The instruction a line asks for, in terms of what the CPU makes of its fields. */
  predicate Means(labels: map<string, nat>, idx: nat, ln: Line, op: Opcode, f: Fields) {
    var ops := ln.operands;
    match Lookup(ln.mnemonic)
    case Nop => op == Opcode.SPECIAL && f == RForm(0, 0, 0, 0, Funct.SLL)
    case ThreeReg(funct) =>
      && op == Opcode.SPECIAL && f.RForm? && f.funct == funct && f.shamt == 0 && |ops| == 3
      && ParseReg(ops[0]) == Some(f.rd) && ParseReg(ops[1]) == Some(f.rs) && ParseReg(ops[2]) == Some(f.rt)
    case Shift(funct) =>
      && op == Opcode.SPECIAL && f.RForm? && f.funct == funct && f.rs == 0 && |ops| == 3
      && ParseReg(ops[0]) == Some(f.rd) && ParseReg(ops[1]) == Some(f.rt) && ParseImm(ops[2]) == Some(f.shamt)
    case VarShift(funct) =>
      && op == Opcode.SPECIAL && f.RForm? && f.funct == funct && f.shamt == 0 && |ops| == 3
      && ParseReg(ops[0]) == Some(f.rd) && ParseReg(ops[1]) == Some(f.rt) && ParseReg(ops[2]) == Some(f.rs)
    case Jr =>
      && op == Opcode.SPECIAL && f.RForm? && f.funct == Funct.JR && |ops| == 1
      && f.rt == 0 && f.rd == 0 && f.shamt == 0 && ParseReg(ops[0]) == Some(f.rs)
    case Jalr =>
      && op == Opcode.SPECIAL && f.RForm? && f.funct == Funct.JALR && |ops| == 2
      && f.rt == 0 && f.shamt == 0 && ParseReg(ops[0]) == Some(f.rd) && ParseReg(ops[1]) == Some(f.rs)
    case Arith(opcode) =>
      && op == opcode && f.IForm? && |ops| == 3
      && ParseReg(ops[0]) == Some(f.rt) && ParseReg(ops[1]) == Some(f.rs)
      && ParseImm(ops[2]) == Some(Extended(op, f.imm))
    case Lui =>
      && op == Opcode.LUI && f.IForm? && f.rs == 0 && |ops| == 2
      && ParseReg(ops[0]) == Some(f.rt) && ParseImm(ops[1]) == Some(Extended(op, f.imm))
    case Mem(opcode) =>
      && op == opcode && f.IForm? && |ops| == 2
      && ParseReg(ops[0]) == Some(f.rt) && ParseMemOperand(ops[1]) == Some((Extended(op, f.imm), f.rs))
    case Branch(opcode) =>
      && op == opcode && f.IForm? && |ops| == 3
      && ParseReg(ops[0]) == Some(f.rs) && ParseReg(ops[1]) == Some(f.rt)
      && BranchOffset(labels, idx, ops[2]) == Some(Extended(op, f.imm))
    case Jump(opcode) =>
      op == opcode && f.JForm? && |ops| == 1 && JumpIndex(labels, ops[0]) == Some(f.target)
    case Unknown => false
  }

  /** The shapes of the mnemonic table. */
  lemma LookupShape(mn: string)
    ensures match Lookup(mn)
            case ThreeReg(f) => f.ADD? || f.ADDU? || f.SUB? || f.SUBU? || f.AND? || f.OR? || f.XOR? || f.NOR? || f.SLT? || f.SLTU?
            case Shift(f) => f.SLL? || f.SRL? || f.SRA?
            case VarShift(f) => f.SLLV? || f.SRLV?
            case Arith(op) => op.ADDI? || op.ADDIU? || op.SLTI? || op.SLTIU? || op.ANDI? || op.ORI? || op.XORI?
            case Mem(op) => op.LW? || op.LBU? || op.LHU? || op.SW?
            case Branch(op) => op.BEQ? || op.BNE?
            case Jump(op) => op.J? || op.JAL?
            case _ => true
  {
  }

  lemma EncRIsEncode(rs: RegIndex, rt: RegIndex, rd: RegIndex, shamt: RegIndex, f: Funct)
    requires ImplementedSpecial(f)
    ensures WellFormed(Instr(0, Opcode.SPECIAL, RForm(rs, rt, rd, shamt, f)))
    ensures EncR(rs, rt, rd, shamt, f) == Encode(Opcode.SPECIAL, RForm(rs, rt, rd, shamt, f))
  {
  }

  lemma NopWord()
    ensures EncR(0, 0, 0, 0, Funct.SLL) == 0
  {
  }

  lemma EncIIsEncode(op: Opcode, rs: RegIndex, rt: RegIndex, imm: int)
    requires FormatOf(op) == Format.I
    ensures EncI(op, rs, rt, imm) == Encode(op, IForm(rs, rt, imm % 0x1_0000))
  {
  }

  /** Truncating to 16 bits and extending again is the identity on exactly the range
      the assembler allows. */
  lemma ExtendedTruncated(op: Opcode, v: int)
    ensures Extended(op, v % 0x1_0000) == v <==> if ITypeControl(op).zeroExtend then FitsUnsigned(v) else FitsSigned(v)
  {
  }

  lemma TruncatedExtended(op: Opcode, imm: Half)
    ensures Extended(op, imm) % 0x1_0000 == imm
  {
  }

  /** An accepted line becomes a word that decodes to what the line says: its opcode and
      registers, and an immediate the CPU extends to the written integer. */
  lemma CodedMeans(labels: map<string, nat>, idx: nat, ln: Line)
    requires EncodeLine(labels, idx, ln).Coded?
    ensures var w := EncodeLine(labels, idx, ln).word;
            Decode(w).Some? && Means(labels, idx, ln, Decode(w).value.opcode, Decode(w).value.fields)
  {
    hide Decode, Encode, EncR, EncI, EncJ, Lookup, ParseReg, ParseImm, ParseMemOperand, BranchOffset, JumpIndex, Extended;
    LookupShape(ln.mnemonic);
    NopWord();
    var ops := ln.operands;
    match Lookup(ln.mnemonic)
    case Nop => CodedR(0, 0, 0, 0, Funct.SLL, 0);
    case ThreeReg(f) => CodedR(ParseReg(ops[1]).value, ParseReg(ops[2]).value, ParseReg(ops[0]).value, 0, f, EncodeLine(labels, idx, ln).word);
    case Shift(f) => CodedR(0, ParseReg(ops[1]).value, ParseReg(ops[0]).value, ParseImm(ops[2]).value, f, EncodeLine(labels, idx, ln).word);
    case VarShift(f) => CodedR(ParseReg(ops[2]).value, ParseReg(ops[1]).value, ParseReg(ops[0]).value, 0, f, EncodeLine(labels, idx, ln).word);
    case Jr => CodedR(ParseReg(ops[0]).value, 0, 0, 0, Funct.JR, EncodeLine(labels, idx, ln).word);
    case Jalr => CodedR(ParseReg(ops[1]).value, 0, ParseReg(ops[0]).value, 0, Funct.JALR, EncodeLine(labels, idx, ln).word);
    case Arith(op) => CodedI(op, ParseReg(ops[1]).value, ParseReg(ops[0]).value, ParseImm(ops[2]).value);
    case Lui => CodedI(Opcode.LUI, 0, ParseReg(ops[0]).value, ParseImm(ops[1]).value);
    case Mem(op) =>
      var mem := ParseMemOperand(ops[1]).value;
      CodedI(op, mem.1, ParseReg(ops[0]).value, mem.0);
    case Branch(op) =>
      CodedI(op, ParseReg(ops[0]).value, ParseReg(ops[1]).value, BranchOffset(labels, idx, ops[2]).value);
    case Jump(op) => CodedJ(op, JumpIndex(labels, ops[0]).value);
    case Unknown =>
  }

  lemma CodedR(rs: RegIndex, rt: RegIndex, rd: RegIndex, shamt: RegIndex, f: Funct, w: Word)
    requires ImplementedSpecial(f) && w == EncR(rs, rt, rd, shamt, f)
    ensures Decode(w) == Some(Instr(w, Opcode.SPECIAL, RForm(rs, rt, rd, shamt, f)))
  {
    hide Decode, Encode, EncR;
    EncRIsEncode(rs, rt, rd, shamt, f);
    DecodeEncode(Opcode.SPECIAL, RForm(rs, rt, rd, shamt, f));
  }

  lemma CodedI(op: Opcode, rs: RegIndex, rt: RegIndex, v: int)
    requires FormatOf(op) == Format.I
    requires if ITypeControl(op).zeroExtend then FitsUnsigned(v) else FitsSigned(v)
    ensures var w := EncI(op, rs, rt, v);
            Decode(w) == Some(Instr(w, op, IForm(rs, rt, v % 0x1_0000))) && Extended(op, v % 0x1_0000) == v
  {
    hide Decode, Encode, EncI;
    EncIIsEncode(op, rs, rt, v);
    DecodeEncode(op, IForm(rs, rt, v % 0x1_0000));
    ExtendedTruncated(op, v);
  }

  lemma CodedJ(op: Opcode, target: int)
    requires FormatOf(op) == Format.J && 0 <= target < 0x400_0000
    ensures var w := EncJ(op, target); Decode(w) == Some(Instr(w, op, JForm(target)))
  {
    DecodeEncode(op, JForm(target));
  }

  /** And every line that means an instruction is accepted, as that instruction's word. */
  lemma MeaningIsCoded(labels: map<string, nat>, idx: nat, ln: Line, op: Opcode, f: Fields)
    requires Means(labels, idx, ln, op, f)
    ensures WellFormed(Instr(0, op, f)) && EncodeLine(labels, idx, ln) == Coded(Encode(op, f))
  {
    hide Encode, EncR, EncI, EncJ, Lookup, ParseReg, ParseImm, ParseMemOperand, BranchOffset, JumpIndex, Extended;
    LookupShape(ln.mnemonic);
    NopWord();
    match f
    case RForm(rs, rt, rd, shamt, funct) => EncRIsEncode(rs, rt, rd, shamt, funct);
    case IForm(rs, rt, imm) =>
      EncIIsEncode(op, rs, rt, Extended(op, imm));
      TruncatedExtended(op, imm);
      ExtendedTruncated(op, Extended(op, imm));
    case JForm(target) => assert EncJ(op, target) == Encode(op, f) by { EncJIsEncode(op, target); }
    case NoForm =>
  }

  lemma EncJIsEncode(op: Opcode, target: Target)
    requires FormatOf(op) == Format.J
    ensures EncJ(op, target) == Encode(op, JForm(target))
  {
  }

  /** Branch arithmetic: from instruction `idx`, an offset of `d` instructions leads to
      instruction `idx + 1 + d`. */
  lemma BranchArithmetic(idx: nat, imm: Half, target: nat)
    requires idx < 0x3FF_FFFF && target <= 0x400_0000
    requires Signed(SignExtend(imm)) == target - (idx + 1)
    ensures BranchTarget(4 * (idx + 1), imm) == 4 * target
  {
    var s := SignExtend(imm);
    if imm >= 0x8000 {
      assert s * 4 == 4 * (target - idx - 1) + 4 * WORD_LIMIT;
      assert (s * 4) % WORD_LIMIT == 4 * (target - idx - 1) + WORD_LIMIT;
    }
  }

  predicate Taken(op: Opcode, x: Word, y: Word) {
    if op == Opcode.BEQ then x == y else x != y
  }

  /** A taken branch to a label continues at the instruction the label stands for; one
      not taken, at the next instruction. Nothing else changes. */
  lemma BranchLands(labels: map<string, nat>, idx: nat, ln: Line, a: Isa.Arch)
    requires EncodeLine(labels, idx, ln).Coded? && Lookup(ln.mnemonic).Branch?
    requires |ln.operands| == 3 && ParseImm(ln.operands[2]).None?
    requires idx < 0x3FF_FFFF && a.pc == 4 * idx
    requires ln.operands[2] in labels ==> labels[ln.operands[2]] <= 0x400_0000
    requires ReadWord(a.mem, a.pc) == Some(EncodeLine(labels, idx, ln).word)
    ensures var ops := ln.operands;
            var rs, rt := ParseReg(ops[0]), ParseReg(ops[1]);
            && ops[2] in labels && rs.Some? && rt.Some?
            && var taken := Taken(Lookup(ln.mnemonic).opcode, ReadReg(a.regs, rs.value), ReadReg(a.regs, rt.value));
               Isa.Step(a).0 == a.(pc := 4 * if taken then labels[ops[2]] else idx + 1)
  {
    hide Decode, Lookup, ParseReg, ParseImm, Encode, EncI, ReadWord, Alu.Execute, BranchTarget;
    LookupShape(ln.mnemonic);
    CodedMeans(labels, idx, ln);
    var d := Decode(EncodeLine(labels, idx, ln).word).value;
    assert Extended(d.opcode, d.fields.imm) == Signed(SignExtend(d.fields.imm));
    BranchArithmetic(idx, d.fields.imm, labels[ln.operands[2]]);
    Alu.ZeroMeaning(ReadReg(a.regs, d.fields.rs), ReadReg(a.regs, d.fields.rt), 0);
  }

  lemma JumpIsCoded(labels: map<string, nat>, idx: nat, ln: Line)
    requires EncodeLine(labels, idx, ln).Coded? && Lookup(ln.mnemonic).Jump?
    requires |ln.operands| == 1 && ParseImm(ln.operands[0]).None?
    ensures ln.operands[0] in labels && labels[ln.operands[0]] < 0x400_0000
    ensures var w := EncodeLine(labels, idx, ln).word;
            Decode(w) == Some(Instr(w, Lookup(ln.mnemonic).opcode, JForm(labels[ln.operands[0]])))
  {
    hide Decode, Lookup, ParseImm, EncJ;
    LookupShape(ln.mnemonic);
    CodedJ(Lookup(ln.mnemonic).opcode, labels[ln.operands[0]]);
  }

  /** A jump to a label continues at the instruction the label stands for; `jal` also
      leaves the address of the next instruction in $ra. */
  lemma JumpLands(labels: map<string, nat>, idx: nat, ln: Line, a: Isa.Arch)
    requires EncodeLine(labels, idx, ln).Coded? && Lookup(ln.mnemonic).Jump?
    requires |ln.operands| == 1 && ParseImm(ln.operands[0]).None?
    requires idx < 0x3FF_FFFF && a.pc == 4 * idx
    requires ReadWord(a.mem, a.pc) == Some(EncodeLine(labels, idx, ln).word)
    ensures && ln.operands[0] in labels
            && labels[ln.operands[0]] < 0x400_0000
            && Isa.Step(a).0 == a.(
                 pc := 4 * labels[ln.operands[0]],
                 regs := if Lookup(ln.mnemonic).opcode == Opcode.JAL then a.regs[31 := 4 * (idx + 1)] else a.regs)
  {
    hide EncodeLine, Decode, Lookup, ParseImm, ReadWord, JumpTarget, Isa.ExecRType, Isa.ExecIType;
    JumpIsCoded(labels, idx, ln);
    JumpArithmetic(idx, labels[ln.operands[0]]);
  }

  lemma JumpArithmetic(idx: nat, target: Target)
    requires idx < 0x3FF_FFFF
    ensures JumpTarget(4 * (idx + 1), target) == 4 * target
  {
  }

  /** Where an instruction of the source goes, from source text to executed step: the
      program is in memory at 0, the CPU is at instruction `idx`, and that instruction
      transfers to a label. */
  lemma LabelledTransfer(source: string, idx: nat, a: Isa.Arch)
    requires Assembly(source).Assembled? && |Assembly(source).words| < 0x400_0000
    requires idx < |Assembly(source).words| && a.pc == 4 * idx
    requires ReadWord(a.mem, a.pc) == Some(Assembly(source).words[idx])
    ensures var l := PassOne(Lines(source));
            && idx < |l.lines|
            && var ln := l.lines[idx];
               var m, ops, pc := Lookup(ln.mnemonic), ln.operands, Isa.Step(a).0.pc;
               && (m.Jump? ==> |ops| == 1 && (ParseImm(ops[0]).None? ==> StandsAt(source, ops[0], pc)))
               && (m.Branch? ==> |ops| == 3 && (ParseImm(ops[2]).None? ==>
                     var rs, rt := ParseReg(ops[0]), ParseReg(ops[1]);
                     && rs.Some? && rt.Some?
                     && (if Taken(m.opcode, ReadReg(a.regs, rs.value), ReadReg(a.regs, rt.value))
                         then StandsAt(source, ops[2], pc) else pc == 4 * (idx + 1))))
  {
    hide EncodeLine, Isa.Step, Lookup, ParseImm, ParseReg, ReadWord, Taken;
    var l := PassOne(Lines(source));
    LineByLine(l, |l.lines|);
    var ln := l.lines[idx];
    var m := Lookup(ln.mnemonic);
    OperandCounts(l.labels, idx, ln);
    if m.Jump? && ParseImm(ln.operands[0]).None? {
      JumpLands(l.labels, idx, ln, a);
      LabelStands(source, ln.operands[0]);
    }
    if m.Branch? && ParseImm(ln.operands[2]).None? {
      if ln.operands[2] in l.labels {
        LabelStands(source, ln.operands[2]);
      }
      BranchLands(l.labels, idx, ln, a);
    }
  }

  lemma OperandCounts(labels: map<string, nat>, idx: nat, ln: Line)
    requires EncodeLine(labels, idx, ln).Coded?
    ensures Lookup(ln.mnemonic).Jump? ==> |ln.operands| == 1
    ensures Lookup(ln.mnemonic).Branch? ==> |ln.operands| == 3
  {
    hide Lookup;
  }

  /** `pc` is the address of the first instruction written from the last definition of
      `name` on. */
  ghost predicate StandsAt(source: string, name: string, pc: Word) {
    var raws := Lines(source);
    exists k: nat :: LastDefinition(raws, name, k) && pc == 4 * |PassOne(raws[..k]).lines|
  }

  lemma LabelStands(source: string, name: string)
    requires name in PassOne(Lines(source)).labels
    requires |PassOne(Lines(source)).lines| < 0x400_0000
    ensures PassOne(Lines(source)).labels[name] < 0x400_0000
    ensures StandsAt(source, name, 4 * PassOne(Lines(source)).labels[name])
  {
    hide Lines, ReadLine, Defines;
    var raws := Lines(source);
    LabelPosition(raws, name);
    var k: nat :| LastDefinition(raws, name, k) && PassOne(raws).labels[name] == |PassOne(raws[..k]).lines|;
    LinesOfPrefix(raws, k);
  }
}
