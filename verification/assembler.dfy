/** The two-pass assembler (`nsc::qt::assemble`). */
module Assembler {
  import opened AssemblerText
  import opened Decoder
  import opened Words

  datatype Line = Line(lineno: nat, mnemonic: string, operands: seq<string>)

  datatype Listing = Listing(labels: map<string, nat>, lines: seq<Line>)

  datatype Problem =
    | OperandCount
    | BadRegister
    | BadOperands
    | ShiftRange
    | UnsignedRange
    | SignedRange
    | NotMemory
    | OffsetRange
    | UndefinedLabel(lbl: string)
    | BranchRange
    | JumpRange
    | UnknownMnemonic(mnemonic: string)

  datatype Result = Assembled(words: seq<Word>) | NoInstructions | Rejected(lineno: nat, problem: Problem)

  datatype Coded = Coded(word: Word) | Refused(problem: Problem)

  // ---- Pass 1 ----

  function AddInstruction(l: Listing, lineno: nat, text: string): Listing {
    var toks := Tokens(text);
    if toks == [] then l
    else l.(lines := l.lines + [Line(lineno, Lower(toks[0]), toks[1..])])
  }

  /** One source line without its comment, trimmed. */
  function Statement(raw: string): string {
    Trim(raw[..IndexOf(raw, '#')])
  }

  /** The label a line defines, or "". */
  function LabelOf(raw: string): string {
    var s := Statement(raw);
    var colon := IndexOf(s, ':');
    if colon == |s| then "" else Trim(s[..colon])
  }

  function CodeOf(raw: string): string {
    var s := Statement(raw);
    var colon := IndexOf(s, ':');
    if colon == |s| then s else Trim(s[colon + 1..])
  }

  function ReadLine(l: Listing, lineno: nat, raw: string): Listing {
    var lbl := LabelOf(raw);
    AddInstruction(if lbl == "" then l else l.(labels := l.labels[lbl := |l.lines|]), lineno, CodeOf(raw))
  }

  function PassOne(raws: seq<string>): Listing {
    if raws == [] then Listing(map[], [])
    else ReadLine(PassOne(raws[..|raws| - 1]), |raws|, raws[|raws| - 1])
  }

  predicate Defines(raw: string, lbl: string) {
    lbl != "" && LabelOf(raw) == lbl
  }

  /** Line `k` holds the last definition of `lbl`. */
  ghost predicate LastDefinition(raws: seq<string>, lbl: string, k: nat) {
    k < |raws| && Defines(raws[k], lbl) && forall later :: k < later < |raws| ==> !Defines(raws[later], lbl)
  }

  /** A label stands for the number of instructions written before its last definition. */
  lemma {:induction false} LabelPosition(raws: seq<string>, lbl: string)
    ensures lbl in PassOne(raws).labels ==>
              exists k: nat :: LastDefinition(raws, lbl, k) && PassOne(raws).labels[lbl] == |PassOne(raws[..k]).lines|
    ensures lbl !in PassOne(raws).labels ==> forall k :: 0 <= k < |raws| ==> !Defines(raws[k], lbl)
  {
    hide LabelOf, CodeOf, AddInstruction;
    if raws != [] {
      var n := |raws| - 1;
      LabelPosition(raws[..n], lbl);
      AddKeepsLabels(PassOne(raws[..n]), |raws|, raws[n]);
      if Defines(raws[n], lbl) {
        assert LastDefinition(raws, lbl, n);
      } else if lbl in PassOne(raws).labels {
        var k: nat :| LastDefinition(raws[..n], lbl, k) && PassOne(raws[..n]).labels[lbl] == |PassOne(raws[..n][..k]).lines|;
        assert raws[..n][..k] == raws[..k];
        StillLast(raws, lbl, k);
      } else {
        assert forall k :: 0 <= k < n ==> raws[k] == raws[..n][k];
      }
    }
  }

  lemma AddKeepsLabels(l: Listing, lineno: nat, raw: string)
    ensures ReadLine(l, lineno, raw).labels == if LabelOf(raw) == "" then l.labels else l.labels[LabelOf(raw) := |l.lines|]
  {
  }

  lemma StillLast(raws: seq<string>, lbl: string, k: nat)
    requires raws != [] && LastDefinition(raws[..|raws| - 1], lbl, k) && !Defines(raws[|raws| - 1], lbl)
    ensures LastDefinition(raws, lbl, k)
  {
    assert forall later :: 0 <= later < |raws| - 1 ==> raws[later] == raws[..|raws| - 1][later];
  }

  /** Instructions keep their order: those of a prefix of the source come first. */
  lemma {:induction false} LinesOfPrefix(raws: seq<string>, k: nat)
    requires k <= |raws|
    ensures PassOne(raws[..k]).lines <= PassOne(raws).lines
  {
    if k < |raws| {
      LinesOfPrefix(raws[..|raws| - 1], k);
      assert raws[..|raws| - 1][..k] == raws[..k];
    } else {
      assert raws[..k] == raws;
    }
  }

  // ---- Pass 2 ----

  datatype Mnemonic =
    | Nop
    | ThreeReg(funct: Funct)
    | Shift(funct: Funct)
    | VarShift(funct: Funct)
    | Jr
    | Jalr
    | Arith(opcode: Opcode)
    | Lui
    | Mem(opcode: Opcode)
    | Branch(opcode: Opcode)
    | Jump(opcode: Opcode)
    | Unknown

  function Lookup(mn: string): Mnemonic {
    if mn == "nop" then Nop
    else if mn == "add" then ThreeReg(Funct.ADD)
    else if mn == "addu" then ThreeReg(Funct.ADDU)
    else if mn == "sub" then ThreeReg(Funct.SUB)
    else if mn == "subu" then ThreeReg(Funct.SUBU)
    else if mn == "and" then ThreeReg(Funct.AND)
    else if mn == "or" then ThreeReg(Funct.OR)
    else if mn == "xor" then ThreeReg(Funct.XOR)
    else if mn == "nor" then ThreeReg(Funct.NOR)
    else if mn == "slt" then ThreeReg(Funct.SLT)
    else if mn == "sltu" then ThreeReg(Funct.SLTU)
    else if mn == "sll" then Shift(Funct.SLL)
    else if mn == "srl" then Shift(Funct.SRL)
    else if mn == "sra" then Shift(Funct.SRA)
    else if mn == "sllv" then VarShift(Funct.SLLV)
    else if mn == "srlv" then VarShift(Funct.SRLV)
    else if mn == "jr" then Jr
    else if mn == "jalr" then Jalr
    else if mn == "addi" then Arith(Opcode.ADDI)
    else if mn == "addiu" then Arith(Opcode.ADDIU)
    else if mn == "slti" then Arith(Opcode.SLTI)
    else if mn == "sltiu" then Arith(Opcode.SLTIU)
    else if mn == "andi" then Arith(Opcode.ANDI)
    else if mn == "ori" then Arith(Opcode.ORI)
    else if mn == "xori" then Arith(Opcode.XORI)
    else if mn == "lui" then Lui
    else if mn == "lw" then Mem(Opcode.LW)
    else if mn == "lbu" then Mem(Opcode.LBU)
    else if mn == "lhu" then Mem(Opcode.LHU)
    else if mn == "sw" then Mem(Opcode.SW)
    else if mn == "beq" then Branch(Opcode.BEQ)
    else if mn == "bne" then Branch(Opcode.BNE)
    else if mn == "j" then Jump(Opcode.J)
    else if mn == "jal" then Jump(Opcode.JAL)
    else Unknown
  }

  /** `enc_r`, `enc_i` and `enc_j` keep the low bits of each field. */
  function EncR(rs: nat, rt: nat, rd: nat, shamt: nat, funct: Funct): Word {
    (rs % 32) * 0x20_0000 + (rt % 32) * 0x1_0000 + (rd % 32) * 0x800 + (shamt % 32) * 0x40 + FunctCode(funct) % 64
  }

  function EncI(op: Opcode, rs: nat, rt: nat, imm: int): Word {
    OpcodeCode(op) * 0x400_0000 + (rs % 32) * 0x20_0000 + (rt % 32) * 0x1_0000 + imm % 0x1_0000
  }

  function EncJ(op: Opcode, target: nat): Word {
    OpcodeCode(op) * 0x400_0000 + target % 0x400_0000
  }

  predicate FitsSigned(v: int) { -0x8000 <= v < 0x8000 }
  predicate FitsUnsigned(v: int) { 0 <= v < 0x1_0000 }
  predicate ZeroExtends(op: Opcode) { op == Opcode.ANDI || op == Opcode.ORI || op == Opcode.XORI }

  /** A numeric offset, or the distance from the next instruction to a label. */
  function BranchOffset(labels: map<string, nat>, idx: nat, tok: string): Option<int> {
    var imm := ParseImm(tok);
    if imm.Some? then imm
    else if tok in labels then Some(labels[tok] - (idx + 1))
    else None
  }

  function JumpIndex(labels: map<string, nat>, tok: string): Option<int> {
    var imm := ParseImm(tok);
    if imm.Some? then imm else if tok in labels then Some(labels[tok]) else None
  }

  /** The word of the instruction at index `idx`. */
  function EncodeLine(labels: map<string, nat>, idx: nat, ln: Line): Coded {
    var ops := ln.operands;
    match Lookup(ln.mnemonic)
    case Nop => Coded(0)
    case ThreeReg(f) =>
      if |ops| != 3 then Refused(OperandCount)
      else
        var rd, rs, rt := ParseReg(ops[0]), ParseReg(ops[1]), ParseReg(ops[2]);
        if rd.None? || rs.None? || rt.None? then Refused(BadRegister)
        else Coded(EncR(rs.value, rt.value, rd.value, 0, f))
    case Shift(f) =>
      if |ops| != 3 then Refused(OperandCount)
      else
        var rd, rt, imm := ParseReg(ops[0]), ParseReg(ops[1]), ParseImm(ops[2]);
        if rd.None? || rt.None? || imm.None? then Refused(BadOperands)
        else if imm.value < 0 || imm.value > 31 then Refused(ShiftRange)
        else Coded(EncR(0, rt.value, rd.value, imm.value, f))
    case VarShift(f) =>
      if |ops| != 3 then Refused(OperandCount)
      else
        var rd, rt, rs := ParseReg(ops[0]), ParseReg(ops[1]), ParseReg(ops[2]);
        if rd.None? || rs.None? || rt.None? then Refused(BadRegister)
        else Coded(EncR(rs.value, rt.value, rd.value, 0, f))
    case Jr =>
      if |ops| != 1 then Refused(OperandCount)
      else
        var rs := ParseReg(ops[0]);
        if rs.None? then Refused(BadRegister) else Coded(EncR(rs.value, 0, 0, 0, Funct.JR))
    case Jalr =>
      if |ops| != 2 then Refused(OperandCount)
      else
        var rd, rs := ParseReg(ops[0]), ParseReg(ops[1]);
        if rd.None? || rs.None? then Refused(BadRegister) else Coded(EncR(rs.value, 0, rd.value, 0, Funct.JALR))
    case Arith(op) =>
      if |ops| != 3 then Refused(OperandCount)
      else
        var rt, rs, imm := ParseReg(ops[0]), ParseReg(ops[1]), ParseImm(ops[2]);
        if rt.None? || rs.None? || imm.None? then Refused(BadOperands)
        else if ZeroExtends(op) && !FitsUnsigned(imm.value) then Refused(UnsignedRange)
        else if !ZeroExtends(op) && !FitsSigned(imm.value) then Refused(SignedRange)
        else Coded(EncI(op, rs.value, rt.value, imm.value))
    case Lui =>
      if |ops| != 2 then Refused(OperandCount)
      else
        var rt, imm := ParseReg(ops[0]), ParseImm(ops[1]);
        if rt.None? || imm.None? then Refused(BadOperands)
        else if !FitsUnsigned(imm.value) then Refused(UnsignedRange)
        else Coded(EncI(Opcode.LUI, 0, rt.value, imm.value))
    case Mem(op) =>
      if |ops| != 2 then Refused(OperandCount)
      else
        var rt, mem := ParseReg(ops[0]), ParseMemOperand(ops[1]);
        if rt.None? then Refused(BadRegister)
        else if mem.None? then Refused(NotMemory)
        else if !FitsSigned(mem.value.0) then Refused(OffsetRange)
        else Coded(EncI(op, mem.value.1, rt.value, mem.value.0))
    case Branch(op) =>
      if |ops| != 3 then Refused(OperandCount)
      else
        var rs, rt, offset := ParseReg(ops[0]), ParseReg(ops[1]), BranchOffset(labels, idx, ops[2]);
        if rs.None? || rt.None? then Refused(BadRegister)
        else if offset.None? then Refused(UndefinedLabel(ops[2]))
        else if !FitsSigned(offset.value) then Refused(BranchRange)
        else Coded(EncI(op, rs.value, rt.value, offset.value))
    case Jump(op) =>
      if |ops| != 1 then Refused(OperandCount)
      else
        var target := JumpIndex(labels, ops[0]);
        if target.None? then Refused(UndefinedLabel(ops[0]))
        else if target.value < 0 || target.value >= 0x400_0000 then Refused(JumpRange)
        else Coded(EncJ(op, target.value))
    case Unknown => Refused(UnknownMnemonic(ln.mnemonic))
  }

  /** The words of the first `n` lines, or the first refusal among them. */
  function EncodeFirst(l: Listing, n: nat): Result
    requires n <= |l.lines|
  {
    if n == 0 then Assembled([])
    else
      var before := EncodeFirst(l, n - 1);
      if !before.Assembled? then before
      else
        match EncodeLine(l.labels, n - 1, l.lines[n - 1])
        case Coded(w) => Assembled(before.words + [w])
        case Refused(p) => Rejected(l.lines[n - 1].lineno, p)
  }

  function Assembly(source: string): Result {
    var l := PassOne(Lines(source));
    if l.lines == [] then NoInstructions else EncodeFirst(l, |l.lines|)
  }

  /** One word per instruction line, in order, or the first line that has none. */
  lemma {:induction false} LineByLine(l: Listing, n: nat)
    requires n <= |l.lines|
    ensures var r := EncodeFirst(l, n);
            && !r.NoInstructions?
            && (r.Assembled? ==>
                  |r.words| == n && forall i :: 0 <= i < n ==> EncodeLine(l.labels, i, l.lines[i]) == Coded(r.words[i]))
            && (r.Rejected? ==>
                  exists i :: 0 <= i < n && r.lineno == l.lines[i].lineno
                              && EncodeLine(l.labels, i, l.lines[i]) == Refused(r.problem)
                              && forall k :: 0 <= k < i ==> EncodeLine(l.labels, k, l.lines[k]).Coded?)
  {
    hide EncodeLine;
    if n > 0 {
      LineByLine(l, n - 1);
      var before := EncodeFirst(l, n - 1);
      if before.Assembled? {
        assert forall k :: 0 <= k < n - 1 ==> EncodeLine(l.labels, k, l.lines[k]).Coded?;
      }
    }
  }

  method Assemble(source: string) returns (r: Result)
    ensures r == Assembly(source)
  {
    hide EncodeLine, PassOne, Lines;
    var raws := Lines(source);
    var listing := CollectLines(raws);
    if listing.lines == [] {
      return NoInstructions;
    }
    var words: seq<Word> := [];
    for idx := 0 to |listing.lines|
      invariant EncodeFirst(listing, idx) == Assembled(words)
    {
      var coded := EncodeLine(listing.labels, idx, listing.lines[idx]);
      match coded
      case Refused(p) =>
        StopsHere(listing, idx, |listing.lines|);
        return Rejected(listing.lines[idx].lineno, p);
      case Coded(w) =>
        words := words + [w];
    }
    r := Assembled(words);
  }

  /** A refusal is final: later lines are not looked at. */
  lemma {:induction false} StopsHere(l: Listing, idx: nat, n: nat)
    requires idx < n <= |l.lines|
    requires EncodeFirst(l, idx).Assembled? && EncodeLine(l.labels, idx, l.lines[idx]).Refused?
    ensures EncodeFirst(l, n) == Rejected(l.lines[idx].lineno, EncodeLine(l.labels, idx, l.lines[idx]).problem)
  {
    hide EncodeLine;
    if idx < n - 1 {
      StopsHere(l, idx, n - 1);
    }
  }

  method CollectLines(raws: seq<string>) returns (l: Listing)
    ensures l == PassOne(raws)
  {
    hide Trim, IndexOf, Tokens;
    var labels: map<string, nat> := map[];
    var lines: seq<Line> := [];
    for i := 0 to |raws|
      invariant Listing(labels, lines) == PassOne(raws[..i])
    {
      assert raws[..i + 1][..i] == raws[..i];
      var lineno := i + 1;
      var raw := Trim(raws[i][..IndexOf(raws[i], '#')]);
      var colon := IndexOf(raw, ':');
      if colon != |raw| {
        var lbl := Trim(raw[..colon]);
        if lbl != "" {
          labels := labels[lbl := |lines|];
        }
        raw := Trim(raw[colon + 1..]);
      }
      var toks := Tokenise(raw);
      if toks != [] {
        lines := lines + [Line(lineno, Lower(toks[0]), toks[1..])];
      }
    }
    assert raws[..|raws|] == raws;
    l := Listing(labels, lines);
  }
}
