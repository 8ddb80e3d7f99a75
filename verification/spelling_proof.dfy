/** The assembler codes exactly what the manual spells, and the CPU executes it. */
module SpellingProof {
  import opened AssembledCode
  import opened Assembler
  import opened AssemblerText
  import opened Decoder
  import opened Manual
  import opened Memory
  import opened Spelling
  import opened Words
  import Isa
  import ManualProof

  // ---- The mnemonic table, in numbers ----

  lemma ThreeRegistersFound(mn: string, n: nat)
    ensures (mn, n) in THREE_REGISTERS ==> Lookup(mn).ThreeReg? && FunctCode(Lookup(mn).funct) == n
  {
  }

  lemma ThreeRegistersOnly(mn: string)
    ensures Lookup(mn).ThreeReg? ==> (mn, FunctCode(Lookup(mn).funct)) in THREE_REGISTERS
  {
  }

  lemma ThreeRegisterNumbers(mn: string, n: nat)
    ensures (mn, n) in THREE_REGISTERS <==> Lookup(mn).ThreeReg? && FunctCode(Lookup(mn).funct) == n
  {
    hide Lookup, FunctCode, THREE_REGISTERS;
    ThreeRegistersFound(mn, n);
    ThreeRegistersOnly(mn);
  }

  lemma ShiftNumbers(mn: string, n: nat)
    ensures (mn, n) in SHIFTS <==> Lookup(mn).Shift? && FunctCode(Lookup(mn).funct) == n
  {
  }

  lemma VariableShiftNumbers(mn: string, n: nat)
    ensures (mn, n) in VARIABLE_SHIFTS <==> Lookup(mn).VarShift? && FunctCode(Lookup(mn).funct) == n
  {
  }

  lemma SignedNumbers(mn: string, n: nat)
    ensures (mn, n) in SIGNED_IMMEDIATES <==> Lookup(mn).Arith? && !ZeroExtends(Lookup(mn).opcode) && OpcodeCode(Lookup(mn).opcode) == n
  {
  }

  lemma UnsignedNumbers(mn: string, n: nat)
    ensures (mn, n) in UNSIGNED_IMMEDIATES <==> Lookup(mn).Arith? && ZeroExtends(Lookup(mn).opcode) && OpcodeCode(Lookup(mn).opcode) == n
  {
  }

  lemma AccessesFound(mn: string, n: nat)
    ensures (mn, n) in ACCESSES ==> Lookup(mn).Mem? && OpcodeCode(Lookup(mn).opcode) == n
  {
  }

  lemma AccessesOnly(mn: string)
    ensures Lookup(mn).Mem? ==> (mn, OpcodeCode(Lookup(mn).opcode)) in ACCESSES
  {
  }

  lemma AccessNumbers(mn: string, n: nat)
    ensures (mn, n) in ACCESSES <==> Lookup(mn).Mem? && OpcodeCode(Lookup(mn).opcode) == n
  {
    hide Lookup, OpcodeCode, ACCESSES;
    AccessesFound(mn, n);
    AccessesOnly(mn);
  }

  lemma BranchNumbers(mn: string, n: nat)
    ensures (mn, n) in BRANCHES <==> Lookup(mn).Branch? && OpcodeCode(Lookup(mn).opcode) == n
  {
  }

  lemma JumpNumbers(mn: string, n: nat)
    ensures (mn, n) in JUMPS <==> Lookup(mn).Jump? && OpcodeCode(Lookup(mn).opcode) == n
  {
  }

  lemma NamedMnemonics(mn: string)
    ensures mn == "nop" <==> Lookup(mn).Nop?
    ensures mn == "jr" <==> Lookup(mn).Jr?
    ensures mn == "jalr" <==> Lookup(mn).Jalr?
    ensures mn == "lui" <==> Lookup(mn).Lui?
  {
  }

  // ---- Spelling and decoding ----

  lemma FunctKnown(f: Funct, n: nat)
    requires FunctCode(f) == n && ImplementedSpecial(f)
    ensures FunctOf(n) == f
  {
  }

  /** A word of opcode 0: what it spells is what its decoded fields mean. */
  lemma RegisterSpelling(labels: map<string, nat>, idx: nat, ln: Line, w: Word)
    requires Op(w) == 0
    ensures SpelledRegister(ln, w) <==>
              && ImplementedSpecial(FunctOf(Fn(w))) && !Lookup(ln.mnemonic).Nop?
              && Means(labels, idx, ln, Opcode.SPECIAL, RForm(Rs(w), Rt(w), Rd(w), Shamt(w), FunctOf(Fn(w))))
  {
    hide Op, Rs, Rt, Rd, Shamt, Fn, Lookup, FunctOf, FunctCode, ParseReg, ParseImm, ParseMemOperand, Extended,
         BranchOffset, JumpIndex;
    ThreeRegisterNumbers(ln.mnemonic, Fn(w));
    ShiftNumbers(ln.mnemonic, Fn(w));
    VariableShiftNumbers(ln.mnemonic, Fn(w));
    NamedMnemonics(ln.mnemonic);
    FunctRoundTrip(Fn(w));
    LookupShape(ln.mnemonic);
    JumpFuncts(Fn(w));
    match Lookup(ln.mnemonic)
    case ThreeReg(f) => if FunctCode(f) == Fn(w) { FunctKnown(f, Fn(w)); }
    case Shift(f) => if FunctCode(f) == Fn(w) { FunctKnown(f, Fn(w)); }
    case VarShift(f) => if FunctCode(f) == Fn(w) { FunctKnown(f, Fn(w)); }
    case _ =>
  }

  lemma JumpFuncts(n: nat)
    ensures FunctOf(n) == Funct.JR <==> n == 8
    ensures FunctOf(n) == Funct.JALR <==> n == 9
  {
  }

  lemma SameFields(w: Word)
    ensures Op(w) == OpField(w) && Rs(w) == RsField(w) && Rt(w) == RtField(w) && Rd(w) == RdField(w)
    ensures Shamt(w) == ShamtField(w) && Fn(w) == FunctField(w) && Imm(w) == ImmField(w)
  {
  }

  lemma NopSpelling(w: Word)
    ensures w == 0 <==> Op(w) == 0 && Rs(w) == 0 && Rt(w) == 0 && Rd(w) == 0 && Shamt(w) == 0 && FunctOf(Fn(w)) == Funct.SLL
  {
    hide RsField, RtField, RdField, ShamtField, ImmField, OpField, FunctField, TargetField;
    SameFields(w);
    FieldSplit(w);
    FunctRoundTrip(Fn(w));
    FunctRoundTrip(0);
  }

  lemma ExtendedMeans(op: Opcode, w: Word)
    ensures Extended(op, Imm(w)) == if ZeroExtends(op) || op == Opcode.LUI then Imm(w) else Simm(w)
  {
  }

  /** A word with an immediate. */
  lemma ImmediateSpelling(labels: map<string, nat>, idx: nat, ln: Line, w: Word, op: Opcode)
    requires OpcodeOf(Op(w)) == Some(op) && FormatOf(op) == Format.I
    ensures SpelledImmediate(ln, w) || SpelledTransfer(labels, idx, ln, w)
            <==> Means(labels, idx, ln, op, IForm(Rs(w), Rt(w), Imm(w)))
  {
    hide Op, Rs, Rt, Imm, Simm, Lookup, OpcodeOf, OpcodeCode, ParseReg, ParseImm, ParseMemOperand, Extended,
         Written, JumpIndex, BranchOffset;
    ImmediateNumbers(ln.mnemonic, Op(w), op);
    TransferNumbers(ln.mnemonic, Op(w), op);
    ExtendedMeans(op, w);
    LookupShape(ln.mnemonic);
    if Lookup(ln.mnemonic).Branch? && |ln.operands| == 3 {
      OffsetWritten(labels, idx, ln.operands[2], Simm(w));
    }
  }

  lemma OffsetWritten(labels: map<string, nat>, idx: nat, tok: string, v: int)
    ensures BranchOffset(labels, idx, tok) == Some(v) <==> Written(labels, tok, idx + 1, v)
    ensures JumpIndex(labels, tok) == Some(v) <==> Written(labels, tok, 0, v)
  {
    hide ParseImm;
  }

  lemma ImmediateNumbers(mn: string, n: nat, op: Opcode)
    requires OpcodeOf(n) == Some(op)
    ensures (mn, n) in SIGNED_IMMEDIATES <==> Lookup(mn) == Arith(op) && !ZeroExtends(op)
    ensures (mn, n) in UNSIGNED_IMMEDIATES <==> Lookup(mn) == Arith(op) && ZeroExtends(op)
    ensures mn == "lui" && n == 0x0F <==> Lookup(mn) == Lui && op == Opcode.LUI
    ensures (mn, n) in ACCESSES <==> Lookup(mn) == Mem(op)
  {
    hide Lookup, OpcodeOf, ZeroExtends;
    SignedNumbers(mn, n);
    UnsignedNumbers(mn, n);
    AccessNumbers(mn, n);
    NamedMnemonics(mn);
    OpcodeNumber(n, op);
    assert OpcodeCode(Opcode.LUI) == 0x0F;
  }

  lemma TransferNumbers(mn: string, n: nat, op: Opcode)
    requires OpcodeOf(n) == Some(op)
    ensures (mn, n) in BRANCHES <==> Lookup(mn) == Branch(op)
    ensures (mn, n) in JUMPS <==> Lookup(mn) == Jump(op)
  {
    hide Lookup, OpcodeOf;
    BranchNumbers(mn, n);
    JumpNumbers(mn, n);
    OpcodeNumber(n, op);
  }

  lemma OpcodeNumber(n: nat, op: Opcode)
    requires OpcodeOf(n) == Some(op)
    ensures forall o: Opcode :: OpcodeCode(o) == n <==> o == op
  {
    OpcodeRoundTrip(n);
    forall o: Opcode ensures OpcodeCode(o) == n <==> o == op {
      assert OpcodeOf(OpcodeCode(o)) == Some(o);
    }
    hide OpcodeOf;
  }

  lemma JumpSpelling(labels: map<string, nat>, idx: nat, ln: Line, w: Word, op: Opcode)
    requires OpcodeOf(Op(w)) == Some(op) && FormatOf(op) == Format.J
    ensures SpelledTransfer(labels, idx, ln, w) <==> Means(labels, idx, ln, op, JForm(w % 0x400_0000))
  {
    hide Op, Rs, Rt, Simm, Lookup, OpcodeOf, OpcodeCode, ParseReg, ParseImm, ParseMemOperand, Extended, Written,
         BranchOffset, JumpIndex;
    TransferNumbers(ln.mnemonic, Op(w), op);
    LookupShape(ln.mnemonic);
    if Lookup(ln.mnemonic).Jump? && |ln.operands| == 1 {
      OffsetWritten(labels, idx, ln.operands[0], w % 0x400_0000);
    }
  }

  /** What a word spells is what its decoding means. */
  lemma SpellsMeans(labels: map<string, nat>, idx: nat, ln: Line, w: Word)
    ensures match Decode(w)
            case None => !Spells(labels, idx, ln, w)
            case Some(d) => Spells(labels, idx, ln, w) <==> Means(labels, idx, ln, d.opcode, d.fields)
  {
    hide Op, Rs, Rt, Rd, Shamt, Fn, Imm, Simm, Decode, Means, FunctOf, Lookup, ParseReg, ParseImm,
         ParseMemOperand, Extended, Written, BranchOffset, JumpIndex;
    NamedMnemonics(ln.mnemonic);
    NopSpelling(w);
    if Op(w) == 0 {
      ManualProof.SpecialDecodes(w);
      RegisterSpelling(labels, idx, ln, w);
      if Lookup(ln.mnemonic).Nop? {
        NopMeans(labels, idx, ln, w);
      }
    } else if Op(w) == 0x10 {
      ManualProof.Cop0Decodes(w);
      Cop0NotMeant(labels, idx, ln, Decode(w).value.fields);
    } else if Op(w) == 2 || Op(w) == 3 {
      ManualProof.JumpDecodes(w);
      JumpSpelling(labels, idx, ln, w, Decode(w).value.opcode);
    } else if OpcodeOf(Op(w)).Some? {
      ManualProof.ImmediateDecodes(w);
      ImmediateSpelling(labels, idx, ln, w, Decode(w).value.opcode);
    } else {
      ManualProof.UnknownDecodes(w);
    }
  }

  lemma NopMeans(labels: map<string, nat>, idx: nat, ln: Line, w: Word)
    requires Lookup(ln.mnemonic).Nop?
    ensures Means(labels, idx, ln, Opcode.SPECIAL, RForm(Rs(w), Rt(w), Rd(w), Shamt(w), FunctOf(Fn(w))))
            <==> Rs(w) == 0 && Rt(w) == 0 && Rd(w) == 0 && Shamt(w) == 0 && FunctOf(Fn(w)) == Funct.SLL
    ensures Op(w) == 0 ==> !SpelledRegister(ln, w)
  {
    hide Op, Rs, Rt, Rd, Shamt, FunctOf, ParseReg, ParseImm;
  }

  lemma Cop0NotMeant(labels: map<string, nat>, idx: nat, ln: Line, f: Fields)
    ensures !Means(labels, idx, ln, Opcode.COP0, f)
  {
    hide Lookup, ParseReg, ParseImm, ParseMemOperand, BranchOffset, JumpIndex, Extended;
    LookupShape(ln.mnemonic);
  }

  /** The assembler gives a line exactly the word the manual spells for it, and refuses a
      line that spells nothing. */
  lemma SpellsExactly(labels: map<string, nat>, idx: nat, ln: Line, w: Word)
    ensures EncodeLine(labels, idx, ln) == Coded(w) <==> Spells(labels, idx, ln, w)
  {
    hide EncodeLine, Decode, Means, Spells, Encode;
    SpellsMeans(labels, idx, ln, w);
    if EncodeLine(labels, idx, ln) == Coded(w) {
      CodedMeans(labels, idx, ln);
    }
    if Spells(labels, idx, ln, w) {
      var d := Decode(w).value;
      MeaningIsCoded(labels, idx, ln, d.opcode, d.fields);
      EncodeDecode(w);
      if d.opcode == Opcode.COP0 {
        Cop0NotMeant(labels, idx, ln, d.fields);
      }
    }
  }

  // ---- Refusals ----

  lemma NamedBy(table: set<(string, nat)>, mn: string, ok: bool, c: nat)
    requires forall n: nat :: (mn, n) in table <==> ok && c == n
    ensures Named(table, mn) <==> ok
  {
    if ok {
      assert (mn, c) in table;
    }
  }

  lemma NamedFunct(mn: string)
    ensures Named(THREE_REGISTERS, mn) <==> Lookup(mn).ThreeReg?
    ensures Named(SHIFTS, mn) <==> Lookup(mn).Shift?
    ensures Named(VARIABLE_SHIFTS, mn) <==> Lookup(mn).VarShift?
  {
    hide Lookup, FunctCode, Named, THREE_REGISTERS, SHIFTS, VARIABLE_SHIFTS;
    var m := Lookup(mn);
    var c := if m.ThreeReg? || m.Shift? || m.VarShift? then FunctCode(m.funct) else 0;
    forall n: nat ensures (mn, n) in THREE_REGISTERS <==> m.ThreeReg? && c == n { ThreeRegisterNumbers(mn, n); }
    forall n: nat ensures (mn, n) in SHIFTS <==> m.Shift? && c == n { ShiftNumbers(mn, n); }
    forall n: nat ensures (mn, n) in VARIABLE_SHIFTS <==> m.VarShift? && c == n { VariableShiftNumbers(mn, n); }
    NamedBy(THREE_REGISTERS, mn, m.ThreeReg?, c);
    NamedBy(SHIFTS, mn, m.Shift?, c);
    NamedBy(VARIABLE_SHIFTS, mn, m.VarShift?, c);
  }

  lemma NamedOpcode(mn: string)
    ensures Named(SIGNED_IMMEDIATES, mn) <==> Lookup(mn).Arith? && !ZeroExtends(Lookup(mn).opcode)
    ensures Named(UNSIGNED_IMMEDIATES, mn) <==> Lookup(mn).Arith? && ZeroExtends(Lookup(mn).opcode)
    ensures Named(ACCESSES, mn) <==> Lookup(mn).Mem?
    ensures Named(BRANCHES, mn) <==> Lookup(mn).Branch?
    ensures Named(JUMPS, mn) <==> Lookup(mn).Jump?
  {
    hide Lookup, OpcodeCode, Named, ZeroExtends, SIGNED_IMMEDIATES, UNSIGNED_IMMEDIATES, ACCESSES, BRANCHES, JUMPS;
    var m := Lookup(mn);
    var c := if m.Arith? || m.Mem? || m.Branch? || m.Jump? then OpcodeCode(m.opcode) else 0;
    var unsigned := m.Arith? && ZeroExtends(m.opcode);
    forall n: nat ensures (mn, n) in SIGNED_IMMEDIATES <==> (m.Arith? && !unsigned) && c == n { SignedNumbers(mn, n); }
    forall n: nat ensures (mn, n) in UNSIGNED_IMMEDIATES <==> unsigned && c == n { UnsignedNumbers(mn, n); }
    forall n: nat ensures (mn, n) in ACCESSES <==> m.Mem? && c == n { AccessNumbers(mn, n); }
    forall n: nat ensures (mn, n) in BRANCHES <==> m.Branch? && c == n { BranchNumbers(mn, n); }
    forall n: nat ensures (mn, n) in JUMPS <==> m.Jump? && c == n { JumpNumbers(mn, n); }
    NamedBy(SIGNED_IMMEDIATES, mn, m.Arith? && !unsigned, c);
    NamedBy(UNSIGNED_IMMEDIATES, mn, unsigned, c);
    NamedBy(ACCESSES, mn, m.Mem?, c);
    NamedBy(BRANCHES, mn, m.Branch?, c);
    NamedBy(JUMPS, mn, m.Jump?, c);
  }

  lemma RegistersOf(ops: seq<string>)
    ensures |ops| >= 1 ==> (AllRegisters(ops, 1) <==> ParseReg(ops[0]).Some?)
    ensures |ops| >= 2 ==> (AllRegisters(ops, 2) <==> ParseReg(ops[0]).Some? && ParseReg(ops[1]).Some?)
    ensures |ops| >= 3 ==> (AllRegisters(ops, 3) <==> ParseReg(ops[0]).Some? && ParseReg(ops[1]).Some? && ParseReg(ops[2]).Some?)
  {
    hide ParseReg;
  }

  lemma PlaceRead(labels: map<string, nat>, idx: nat, tok: string)
    ensures BranchOffset(labels, idx, tok) == if Readable(labels, tok) then Some(Place(labels, tok, idx + 1)) else None
    ensures JumpIndex(labels, tok) == if Readable(labels, tok) then Some(Place(labels, tok, 0)) else None
  {
    hide ParseImm;
  }

  lemma ArityOf(mn: string)
    ensures Arity(mn) == match Lookup(mn)
                         case Nop => 0 case Unknown => 0
                         case Jr => 1 case Jump(_) => 1
                         case Jalr => 2 case Lui => 2 case Mem(_) => 2
                         case _ => 3
  {
    hide Lookup, Named, ZeroExtends;
    NamedFunct(mn);
    NamedOpcode(mn);
    NamedMnemonics(mn);
  }

  /** The assembler refuses a line exactly for the reason there is. */
  lemma RefusedExactly(labels: map<string, nat>, idx: nat, ln: Line, p: Problem)
    ensures EncodeLine(labels, idx, ln) == Refused(p) <==> Refuses(labels, idx, ln, p)
  {
    hide Lookup, Named, Arity, ParseReg, ParseImm, ParseMemOperand, EncR, EncI, EncJ, BranchOffset, JumpIndex,
         Readable, Place, ZeroExtends, AllRegisters;
    var mn, ops := ln.mnemonic, ln.operands;
    NamedFunct(mn);
    NamedOpcode(mn);
    NamedMnemonics(mn);
    ArityOf(mn);
    RegistersOf(ops);
    if |ops| == 3 {
      PlaceRead(labels, idx, ops[2]);
    } else if |ops| == 1 {
      PlaceRead(labels, idx, ops[0]);
    }
  }

  // ---- Whole programs, and their execution ----

  /** The line spells some word. */
  ghost predicate HasWord(labels: map<string, nat>, idx: nat, ln: Line) {
    exists w: Word :: Spells(labels, idx, ln, w)
  }

  /** Every word of an assembled program is the one its line spells; a rejected program
      has a line that spells no word, the first such. */
  lemma ProgramSpelled(source: string)
    ensures var l, r := PassOne(Lines(source)), Assembly(source);
            && (r.Assembled? ==> |r.words| == |l.lines| && forall i :: 0 <= i < |l.lines| ==> Spells(l.labels, i, l.lines[i], r.words[i]))
            && (r.Rejected? ==> exists i :: 0 <= i < |l.lines| && l.lines[i].lineno == r.lineno
                                  && !HasWord(l.labels, i, l.lines[i]) && forall k :: 0 <= k < i ==> HasWord(l.labels, k, l.lines[k]))
            && (r.NoInstructions? <==> l.lines == [])
  {
    hide EncodeLine, Spells, HasWord, PassOne, Lines;
    var l, r := PassOne(Lines(source)), Assembly(source);
    if l.lines != [] {
      LineByLine(l, |l.lines|);
      forall i | 0 <= i < |l.lines|
        ensures HasWord(l.labels, i, l.lines[i]) <==> EncodeLine(l.labels, i, l.lines[i]).Coded?
        ensures EncodeLine(l.labels, i, l.lines[i]).Coded? ==> Spells(l.labels, i, l.lines[i], EncodeLine(l.labels, i, l.lines[i]).word)
      {
        WordIfCoded(l.labels, i, l.lines[i]);
      }
    }
  }

  lemma WordIfCoded(labels: map<string, nat>, idx: nat, ln: Line)
    ensures HasWord(labels, idx, ln) <==> EncodeLine(labels, idx, ln).Coded?
    ensures EncodeLine(labels, idx, ln).Coded? ==> Spells(labels, idx, ln, EncodeLine(labels, idx, ln).word)
  {
    hide EncodeLine, Spells;
    forall w: Word ensures EncodeLine(labels, idx, ln) == Coded(w) <==> Spells(labels, idx, ln, w) {
      SpellsExactly(labels, idx, ln, w);
    }
    if EncodeLine(labels, idx, ln).Coded? {
      assert Spells(labels, idx, ln, EncodeLine(labels, idx, ln).word);
    }
  }

  /** From source text to execution: a step on an assembled word does what the manual says
      of the word the line spells. */
  lemma LineExecutes(labels: map<string, nat>, idx: nat, ln: Line, a: Isa.Arch)
    requires EncodeLine(labels, idx, ln).Coded?
    requires ReadWord(a.mem, a.pc) == Some(EncodeLine(labels, idx, ln).word)
    ensures exists w: Word :: Spells(labels, idx, ln, w) && WordEffect(a, w, Isa.Step(a).0, Isa.Step(a).1)
  {
    hide EncodeLine, Spells, WordEffect, Isa.Step, ReadWord;
    var w := EncodeLine(labels, idx, ln).word;
    SpellsExactly(labels, idx, ln, w);
    ManualProof.WordMeans(a, w);
  }

  /** In full for the signed sum and difference: `add` and `sub` leave it in the first
      register, or trap for overflow. */
  lemma SumExecutes(labels: map<string, nat>, idx: nat, ln: Line, a: Isa.Arch)
    requires EncodeLine(labels, idx, ln).Coded? && (ln.mnemonic == "add" || ln.mnemonic == "sub")
    requires ReadWord(a.mem, a.pc) == Some(EncodeLine(labels, idx, ln).word)
    ensures |ln.operands| == 3
    ensures var d, s, t := ParseReg(ln.operands[0]), ParseReg(ln.operands[1]), ParseReg(ln.operands[2]);
            && d.Some? && s.Some? && t.Some?
            && var x, y := Signed(X(a, s.value)), Signed(X(a, t.value));
               SignedResult(a, Isa.Step(a).0, Isa.Step(a).1, d.value, if ln.mnemonic == "add" then x + y else x - y)
  {
    hide EncodeLine, Isa.Step, ReadWord, Op, Rs, Rt, Rd, Shamt, Fn, SignedResult, Signed, X, ParseReg, ParseImm,
         ParseMemOperand, Written;
    var w := EncodeLine(labels, idx, ln).word;
    SpellsExactly(labels, idx, ln, w);
    ManualProof.SumsMean(a, w);
  }
}
