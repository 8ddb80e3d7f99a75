/** The single-cycle CPU does what the manual says, from every state. */
module ManualProof {
  import opened Control
  import opened Cp0
  import opened Decoder
  import opened Manual
  import opened Memory
  import opened Words
  import Alu
  import Isa

  /** A trap, in numbers. */
  lemma TrapMeans(a: Isa.Arch, code: ExceptionCode, number: nat, bad: Word)
    requires number == match code
                       case Int => 0 case AdEL => 4 case AdES => 5 case Sys => 8 case Bp => 9 case RI => 10 case Ov => 12
    ensures TrapsAs(a, Isa.RaiseAt(a, code, bad), number, bad)
  {
    var c := Raise(a.cp0, code, a.pc, bad);
    forall i: RegIndex ensures Bit(c.status, i) == (i == 1 || Bit(a.cp0.status, i)) {
      RaiseBits(a.cp0, code, a.pc, bad, i);
    }
    forall i: RegIndex ensures Bit(c.cause, i) == (if 2 <= i < 7 then Bit(number, i - 2) else Bit(a.cp0.cause, i)) {
      RaiseBits(a.cp0, code, a.pc, bad, i);
      if 2 <= i < 7 {
        CodeShifted(number, i);
      }
    }
    RaiseBits(a.cp0, code, a.pc, bad, 0);
    hide Bit, Raise;
  }

  lemma CodeShifted(number: nat, i: nat)
    requires 2 <= i
    ensures Bit(number * 4, i) == Bit(number, i - 2)
  {
    BitHalf(number * 4, i);
    BitHalf(number * 2, i - 1);
  }

  // ---- Words and fields ----

  /** The instruction word the CPU reads is the one in the bytes at the PC. */
  lemma WordRead(m: Bytes, addr: Word)
    ensures ReadWord(m, addr) == if addr % 4 == 0 && addr + 4 <= |m| then Some(WordIn(m, addr)) else None
  {
  }

  lemma Pc4Means(a: Isa.Arch)
    ensures Add(a.pc, 4) == Pc4(a) != a.pc
  {
  }

  predicate At(a: Isa.Arch, d: Instr) {
    ReadWord(a.mem, a.pc) == Some(d.raw) && Decode(d.raw) == Some(d)
  }

  lemma SpecialDecodes(w: Word)
    requires Op(w) == 0
    ensures var f := FunctOf(Fn(w));
            Decode(w) == if ImplementedSpecial(f)
                         then Some(Instr(w, Opcode.SPECIAL, RForm(Rs(w), Rt(w), Rd(w), Shamt(w), f))) else None
  {
    hide FunctOf;
  }

  lemma Cop0Decodes(w: Word)
    requires Op(w) == 0x10
    ensures Decode(w) == Some(Instr(w, Opcode.COP0, RForm(Rs(w), Rt(w), Rd(w), 0, FunctOf(Fn(w)))))
  {
    hide FunctOf;
  }

  lemma JumpDecodes(w: Word)
    requires Op(w) == 2 || Op(w) == 3
    ensures Decode(w) == Some(Instr(w, if Op(w) == 2 then Opcode.J else Opcode.JAL, JForm(w % 0x400_0000)))
  {
    hide FunctOf;
  }

  lemma ImmediateDecodes(w: Word)
    requires OpcodeOf(Op(w)).Some? && FormatOf(OpcodeOf(Op(w)).value) == Format.I
    ensures Decode(w) == Some(Instr(w, OpcodeOf(Op(w)).value, IForm(Rs(w), Rt(w), Imm(w))))
  {
    hide FunctOf, OpcodeOf;
  }

  lemma UnknownDecodes(w: Word)
    requires Op(w) !in {0, 2, 3, 4, 5, 8, 9, 10, 11, 12, 13, 14, 15, 16, 0x23, 0x24, 0x25, 0x2B}
    ensures Decode(w) == None
  {
    hide FunctOf;
  }

  /** How executing one instruction ends the step. */
  function Outcome(a: Isa.Arch, e: Isa.Exec): (Isa.Arch, StepResult) {
    match e
    case Next(b, nextPc) => (b.(pc := nextPc), if nextPc == a.pc then Halt else Ok)
    case Trapped(b) => (b, Exception)
    case Broken => (a, Fault)
  }

  lemma StepOutcome(a: Isa.Arch, d: Instr)
    requires At(a, d)
    ensures Isa.Step(a) == Outcome(a, Isa.Execute(a, d))
  {
    hide ReadWord, Decode, Isa.Execute;
  }

  // ---- Steps through the ALU ----

  /** A register instruction of the ALU: its result is written, or it overflows and traps. */
  lemma AluRegisterStep(a: Isa.Arch, d: Instr)
    requires At(a, d) && d.opcode == Opcode.SPECIAL && d.fields.RForm? && ImplementedSpecial(d.fields.funct)
    requires d.fields.funct !in {Funct.JR, Funct.JALR, Funct.SYSCALL, Funct.BREAK}
    ensures Alu.Control(d).Some?
    ensures var f := d.fields; var x, y := X(a, f.rs), X(a, f.rt);
            var s := if f.funct == Funct.SLLV || f.funct == Funct.SRLV then x % 32 else f.shamt;
            var r := Alu.Execute(Alu.Control(d).value, x, y, s);
            Isa.Step(a) == if r.overflow && (f.funct == Funct.ADD || f.funct == Funct.SUB)
                           then (Isa.RaiseAt(a, ExceptionCode.Ov, 0), Exception) else (Wrote(a, f.rd, r.value), Ok)
  {
    hide ReadWord, Decode, Isa.Step, Alu.Execute, Isa.ExecIType, Isa.ExecJType, Isa.ExecCop0, Isa.RaiseAt, Add, Pc4;
    StepOutcome(a, d);
    Pc4Means(a);
  }

  /** The same, from the word: `f` and `op` are the function and ALU operation of its number. */
  lemma AluWordStep(a: Isa.Arch, w: Word, f: Funct, op: Alu.AluOp)
    requires ReadWord(a.mem, a.pc) == Some(w) && Op(w) == 0 && FunctOf(Fn(w)) == f
    requires ImplementedSpecial(f) && f !in {Funct.JR, Funct.JALR, Funct.SYSCALL, Funct.BREAK}
    requires Alu.RTypeOp(f) == Some(op)
    ensures var x, y := X(a, Rs(w)), X(a, Rt(w));
            var s := if f == Funct.SLLV || f == Funct.SRLV then x % 32 else Shamt(w);
            var r := Alu.Execute(op, x, y, s);
            Isa.Step(a) == if r.overflow && (f == Funct.ADD || f == Funct.SUB)
                           then (Isa.RaiseAt(a, ExceptionCode.Ov, 0), Exception) else (Wrote(a, Rd(w), r.value), Ok)
  {
    SpecialDecodes(w);
    hide ReadWord, Decode, FunctOf, Fn, Op, Rs, Rt, Rd, Shamt, Alu.Execute, Isa.Step, Isa.RaiseAt, Wrote, X;
    AluRegisterStep(a, Decode(w).value);
  }

  lemma PlainWordStep(a: Isa.Arch, w: Word, f: Funct, op: Alu.AluOp)
    requires ReadWord(a.mem, a.pc) == Some(w) && Op(w) == 0 && FunctOf(Fn(w)) == f
    requires ImplementedSpecial(f) && f !in {Funct.JR, Funct.JALR, Funct.SYSCALL, Funct.BREAK, Funct.ADD, Funct.SUB}
    requires Alu.RTypeOp(f) == Some(op) && !op.ADD? && !op.SUB?
    ensures var x, y := X(a, Rs(w)), X(a, Rt(w));
            var s := if f == Funct.SLLV || f == Funct.SRLV then x % 32 else Shamt(w);
            Gives(a, Isa.Step(a).0, Isa.Step(a).1, Rd(w), Alu.Value(op, x, y, s))
  {
    AluWordStep(a, w, f, op);
    var x, y := X(a, Rs(w)), X(a, Rt(w));
    NoOverflow(op, x, y, if f == Funct.SLLV || f == Funct.SRLV then x % 32 else Shamt(w));
    hide ReadWord, FunctOf, Fn, Op, Rs, Rt, Rd, Shamt, Alu.Execute, Alu.Value, Isa.Step, Isa.RaiseAt, Wrote, X,
         Alu.RTypeOp;
  }

  lemma SignedMod(v: Word, value: int)
    requires Signed(v) == value
    ensures v == Low32(value)
  {
  }

  lemma SumMeans(a: Isa.Arch, r: RegIndex, x: Word, y: Word, value: int, e: Alu.AluResult)
    requires || (value == Signed(x) + Signed(y) && e == Alu.Execute(Alu.AluOp.ADD, x, y, 0))
             || (value == Signed(x) - Signed(y) && e == Alu.Execute(Alu.AluOp.SUB, x, y, 0))
    ensures e.overflow ==> SignedResult(a, Isa.RaiseAt(a, ExceptionCode.Ov, 0), Exception, r, value)
    ensures !e.overflow ==> SignedResult(a, Wrote(a, r, e.value), Ok, r, value)
  {
    Alu.OverflowMeaning(x, y, 0);
    TrapMeans(a, ExceptionCode.Ov, 12, 0);
    if !e.overflow {
      SignedMod(e.value, value);
    }
    hide Alu.Execute, TrapsAs, Isa.RaiseAt, Wrote;
  }

  function LogicOp(kind: nat): Alu.AluOp {
    if kind == 4 then Alu.AluOp.AND else if kind == 5 then Alu.AluOp.OR else if kind == 6 then Alu.AluOp.XOR else Alu.AluOp.NOR
  }

  lemma LogicMeans(kind: nat, x: Word, y: Word)
    requires 4 <= kind <= 7
    ensures Combines(kind, x, y, Alu.Value(LogicOp(kind), x, y, 0))
  {
    var f := if kind == 4 then AndFn else if kind == 5 then OrFn else if kind == 6 then XorFn else NorFn;
    forall i: RegIndex ensures Bit(BitOp(f, x, y), i) == ApplyBit(f, Bit(x, i), Bit(y, i)) {
      BitwiseBit(f, x, y, 32, i);
    }
    hide Bit, BitOp;
  }

  function ShiftOp(kind: nat): Alu.AluOp {
    if kind == 0 then Alu.AluOp.SLL else if kind == 2 then Alu.AluOp.SRL else Alu.AluOp.SRA
  }

  lemma ShiftMeans(kind: nat, x: Word, y: Word, s: RegIndex)
    requires kind == 0 || kind == 2 || kind == 3
    ensures Shifts(kind, y, s, Alu.Value(ShiftOp(kind), x, y, s))
  {
    var v := Alu.Value(ShiftOp(kind), 0, y, s);
    assert v == Alu.Value(ShiftOp(kind), x, y, s);
    hide Bit, Alu.Value;
    forall i: RegIndex
      ensures Bit(v, i) == (if kind == 0 then s <= i && Bit(y, i - s) else if kind == 2 then i + s < 32 && Bit(y, i + s)
                            else Bit(y, if i + s < 32 then i + s else 31))
    {
      Alu.LeftShiftBits(y, s, i);
      Alu.ShiftBits(y, s, i);
    }
  }

  // ---- SPECIAL ----

  lemma SumsMean(a: Isa.Arch, w: Word)
    requires ReadWord(a.mem, a.pc) == Some(w) && Op(w) == 0 && (Fn(w) == 0x20 || Fn(w) == 0x22)
    ensures var x, y := Signed(X(a, Rs(w))), Signed(X(a, Rt(w)));
            SignedResult(a, Isa.Step(a).0, Isa.Step(a).1, Rd(w), if Fn(w) == 0x20 then x + y else x - y)
  {
    hide ReadWord, Isa.Step, Rs, Rt, Rd, Shamt, Fn, Op, Signed, Alu.Execute, SignedResult, Wrote, Isa.RaiseAt, X;
    var f := if Fn(w) == 0x20 then Funct.ADD else Funct.SUB;
    var op := if Fn(w) == 0x20 then Alu.AluOp.ADD else Alu.AluOp.SUB;
    AluWordStep(a, w, f, op);
    var x, y := X(a, Rs(w)), X(a, Rt(w));
    NoShift(op, x, y, Shamt(w));
    SumMeans(a, Rd(w), x, y, if f.ADD? then Signed(x) + Signed(y) else Signed(x) - Signed(y), Alu.Execute(op, x, y, 0));
  }

  lemma NoShift(op: Alu.AluOp, x: Word, y: Word, s: RegIndex)
    requires !op.SLL? && !op.SRL? && !op.SRA?
    ensures Alu.Execute(op, x, y, s) == Alu.Execute(op, x, y, 0)
  {
  }

  lemma NoOverflow(op: Alu.AluOp, x: Word, y: Word, s: RegIndex)
    requires !op.ADD? && !op.SUB?
    ensures var r := Alu.Execute(op, x, y, s); !r.overflow && r.value == Alu.Value(op, x, y, s)
  {
    hide Alu.Value;
  }

  lemma WrappingMeans(x: Word, y: Word, s: RegIndex)
    ensures Alu.Value(Alu.AluOp.ADDU, x, y, s) == Low32(x + y)
    ensures Alu.Value(Alu.AluOp.SUBU, x, y, s) == Low32(x - y)
    ensures Alu.Value(Alu.AluOp.SLT, x, y, s) == if Signed(x) < Signed(y) then 1 else 0
    ensures Alu.Value(Alu.AluOp.SLTU, x, y, s) == if x < y then 1 else 0
  {
  }

  lemma WrappingSumsMean(a: Isa.Arch, w: Word)
    requires ReadWord(a.mem, a.pc) == Some(w) && Op(w) == 0 && (Fn(w) == 0x21 || Fn(w) == 0x23)
    ensures var x, y := X(a, Rs(w)), X(a, Rt(w));
            Gives(a, Isa.Step(a).0, Isa.Step(a).1, Rd(w), Low32(if Fn(w) == 0x21 then x + y else x - y))
  {
    hide ReadWord, Isa.Step, Rs, Rt, Rd, Shamt, Fn, Op, Alu.Value, Low32, Gives, X;
    var f := if Fn(w) == 0x21 then Funct.ADDU else Funct.SUBU;
    var op := if Fn(w) == 0x21 then Alu.AluOp.ADDU else Alu.AluOp.SUBU;
    PlainWordStep(a, w, f, op);
    WrappingMeans(X(a, Rs(w)), X(a, Rt(w)), Shamt(w));
  }

  lemma ComparisonsMean(a: Isa.Arch, w: Word)
    requires ReadWord(a.mem, a.pc) == Some(w) && Op(w) == 0 && (Fn(w) == 0x2A || Fn(w) == 0x2B)
    ensures var x, y := X(a, Rs(w)), X(a, Rt(w));
            Gives(a, Isa.Step(a).0, Isa.Step(a).1, Rd(w),
                  if (if Fn(w) == 0x2A then Signed(x) < Signed(y) else x < y) then 1 else 0)
  {
    hide ReadWord, Isa.Step, Rs, Rt, Rd, Shamt, Fn, Op, Alu.Value, Signed, Gives, X;
    var f := if Fn(w) == 0x2A then Funct.SLT else Funct.SLTU;
    var op := if Fn(w) == 0x2A then Alu.AluOp.SLT else Alu.AluOp.SLTU;
    PlainWordStep(a, w, f, op);
    WrappingMeans(X(a, Rs(w)), X(a, Rt(w)), Shamt(w));
  }

  lemma LogicsMean(a: Isa.Arch, w: Word)
    requires ReadWord(a.mem, a.pc) == Some(w) && Op(w) == 0 && 0x24 <= Fn(w) <= 0x27
    ensures GivesLogic(a, Isa.Step(a).0, Isa.Step(a).1, Rd(w), Fn(w) - 0x20, X(a, Rs(w)), X(a, Rt(w)))
  {
    hide ReadWord, Isa.Step, Rs, Rt, Rd, Shamt, Fn, Op, Alu.Value, Combines, Gives, X;
    var kind := Fn(w) - 0x20;
    var f := if kind == 4 then Funct.AND else if kind == 5 then Funct.OR else if kind == 6 then Funct.XOR else Funct.NOR;
    PlainWordStep(a, w, f, LogicOp(kind));
    LogicMeans(kind, X(a, Rs(w)), X(a, Rt(w)));
    LogicNoShift(kind, X(a, Rs(w)), X(a, Rt(w)), Shamt(w));
  }

  lemma LogicNoShift(kind: nat, x: Word, y: Word, s: RegIndex)
    ensures Alu.Value(LogicOp(kind), x, y, s) == Alu.Value(LogicOp(kind), x, y, 0)
  {
    hide BitOp;
  }

  lemma ShiftsMean(a: Isa.Arch, w: Word)
    requires ReadWord(a.mem, a.pc) == Some(w) && Op(w) == 0 && Fn(w) in {0x00, 0x02, 0x03, 0x04, 0x06}
    ensures var named := Fn(w) < 4;
            GivesShift(a, Isa.Step(a).0, Isa.Step(a).1, Rd(w), if named then Fn(w) else Fn(w) - 4, X(a, Rt(w)),
                       if named then Shamt(w) else X(a, Rs(w)) % 32)
  {
    hide ReadWord, Isa.Step, Rs, Rt, Rd, Shamt, Fn, Op, Alu.Value, Shifts, Gives, X;
    var kind := if Fn(w) < 4 then Fn(w) else Fn(w) - 4;
    var f := match Fn(w) case 0x00 => Funct.SLL case 0x02 => Funct.SRL case 0x03 => Funct.SRA case 0x04 => Funct.SLLV case _ => Funct.SRLV;
    var s: RegIndex := if Fn(w) < 4 then Shamt(w) else X(a, Rs(w)) % 32;
    PlainWordStep(a, w, f, ShiftOp(kind));
    ShiftMeans(kind, X(a, Rs(w)), X(a, Rt(w)), s);
  }

  lemma JumpRegistersMean(a: Isa.Arch, w: Word)
    requires ReadWord(a.mem, a.pc) == Some(w) && Op(w) == 0 && (Fn(w) == 0x08 || Fn(w) == 0x09)
    ensures GoesTo(a, Isa.Step(a).0, Isa.Step(a).1, if Fn(w) == 8 then a.regs else Wrote(a, Rd(w), Pc4(a)).regs, X(a, Rs(w)))
  {
    hide Op, Rs, Rt, Rd, Shamt, Fn, ReadWord, Decode, Isa.Step, Isa.ExecIType, Isa.ExecJType, Isa.ExecCop0,
         Alu.Control, Alu.Execute, Isa.RaiseAt, Pc4, Add;
    SpecialDecodes(w);
    StepOutcome(a, Decode(w).value);
    Pc4Means(a);
  }

  lemma TrapInstructionsMean(a: Isa.Arch, w: Word)
    requires ReadWord(a.mem, a.pc) == Some(w) && Op(w) == 0 && (Fn(w) == 0x0C || Fn(w) == 0x0D)
    ensures Traps(a, Isa.Step(a).0, Isa.Step(a).1, if Fn(w) == 0x0C then 8 else 9, 0)
  {
    hide Op, Rs, Rt, Rd, Shamt, Fn, ReadWord, Decode, TrapsAs, Isa.Step, Isa.ExecIType, Isa.ExecJType,
         Isa.ExecCop0, Alu.Control, Alu.Execute, Isa.RaiseAt;
    SpecialDecodes(w);
    StepOutcome(a, Decode(w).value);
    TrapMeans(a, ExceptionCode.Sys, 8, 0);
    TrapMeans(a, ExceptionCode.Bp, 9, 0);
  }

  lemma ReservedMeans(a: Isa.Arch, w: Word)
    requires ReadWord(a.mem, a.pc) == Some(w) && Decode(w).None?
    ensures Traps(a, Isa.Step(a).0, Isa.Step(a).1, 10, 0)
  {
    TrapMeans(a, ExceptionCode.RI, 10, 0);
    hide ReadWord, Decode, TrapsAs, Isa.RaiseAt;
  }

  lemma UnimplementedDecodes(w: Word)
    requires Op(w) == 0
    requires Fn(w) !in {0, 2, 3, 4, 6, 8, 9, 0x0C, 0x0D, 0x20, 0x21, 0x22, 0x23, 0x24, 0x25, 0x26, 0x27, 0x2A, 0x2B}
    ensures Decode(w) == None
  {
    SpecialDecodes(w);
    hide Decode, Op;
  }

  lemma SpecialMeans(a: Isa.Arch, w: Word)
    requires ReadWord(a.mem, a.pc) == Some(w) && Op(w) == 0
    ensures SpecialEffect(a, w, Isa.Step(a).0, Isa.Step(a).1)
  {
    hide Op, Rs, Rt, Rd, Shamt, Fn, Isa.Step, ReadWord, Decode, Gives, GivesShift, GivesLogic, SignedResult,
         GoesTo, Traps, Wrote, Pc4, Low32, Signed, X;
    var f := Fn(w);
    if f == 0x20 || f == 0x22 {
      SumsMean(a, w);
    } else if f == 0x21 || f == 0x23 {
      WrappingSumsMean(a, w);
    } else if f == 0x2A || f == 0x2B {
      ComparisonsMean(a, w);
    } else if 0x24 <= f <= 0x27 {
      LogicsMean(a, w);
    } else if f in {0x00, 0x02, 0x03, 0x04, 0x06} {
      ShiftsMean(a, w);
    } else if f == 0x08 || f == 0x09 {
      JumpRegistersMean(a, w);
    } else if f == 0x0C || f == 0x0D {
      TrapInstructionsMean(a, w);
    } else {
      UnimplementedDecodes(w);
      ReservedMeans(a, w);
    }
  }

  // ---- COP0 and jumps ----

  lemma Cop0RegistersMean(c: Cp0State, r: RegIndex, v: Word)
    ensures ReadCp0(c, r) == Cp0Register(c, r) && WriteCp0(c, r, v) == WithCp0(c, r, v)
  {
  }

  /** A COP0 word, with the sub-op taken from its rs field. */
  lemma Cop0Step(a: Isa.Arch, w: Word)
    requires ReadWord(a.mem, a.pc) == Some(w) && Op(w) == 0x10
    ensures Isa.Step(a) ==
              if Rs(w) == 0 then (Wrote(a, Rt(w), ReadCp0(a.cp0, Rd(w))), Ok)
              else if Rs(w) == 4 then (a.(pc := Pc4(a), cp0 := WriteCp0(a.cp0, Rd(w), X(a, Rt(w)))), Ok)
              else if Rs(w) == 16 && Fn(w) == 0x18 then (a.(pc := a.cp0.epc, cp0 := Eret(a.cp0)), if a.cp0.epc == a.pc then Halt else Ok)
              else (a.(pc := Pc4(a)), Ok)
  {
    Cop0Decodes(w);
    FunctNumber(Fn(w));
    Pc4Means(a);
    hide Op, Rs, Rt, Rd, Fn, ReadWord, Decode, Eret, ReadCp0, WriteCp0, FunctOf, Pc4, Add, Isa.ExecIType,
         Isa.ExecJType, Isa.RaiseAt;
  }

  lemma Cop0Means(a: Isa.Arch, w: Word)
    requires ReadWord(a.mem, a.pc) == Some(w) && Op(w) == 0x10
    ensures Cop0Effect(a, w, Isa.Step(a).0, Isa.Step(a).1)
  {
    Cop0Step(a, w);
    Cop0RegistersMean(a.cp0, Rd(w), X(a, Rt(w)));
    ReturnMeans(a);
    hide Op, Rs, Rt, Rd, Fn, ReadWord, Eret, ReadCp0, WriteCp0, Pc4, Wrote, X, Isa.Step, Returns, Cp0Register,
         WithCp0;
  }

  lemma ReturnMeans(a: Isa.Arch)
    ensures Returns(a, a.(pc := a.cp0.epc, cp0 := Eret(a.cp0)), if a.cp0.epc == a.pc then Halt else Ok)
  {
    forall i: RegIndex ensures Bit(Eret(a.cp0).status, i) == (i != 1 && Bit(a.cp0.status, i)) {
      EretBits(a.cp0, i);
    }
    EretBits(a.cp0, 0);
    hide Eret, Bit;
  }

  lemma FunctNumber(code: nat)
    ensures FunctOf(code) == Funct.ERET <==> code == 0x18
  {
  }

  lemma JumpTargetMeans(pc4: Word, w: Word)
    ensures JumpTarget(pc4, w % 0x400_0000) == (pc4 / 0x1000_0000) * 0x1000_0000 + 4 * (w % 0x400_0000)
  {
  }

  lemma JumpMeans(a: Isa.Arch, w: Word)
    requires ReadWord(a.mem, a.pc) == Some(w) && (Op(w) == 2 || Op(w) == 3)
    ensures JumpEffect(a, w, Isa.Step(a).0, Isa.Step(a).1, Op(w) == 3)
  {
    JumpDecodes(w);
    Pc4Means(a);
    JumpTargetMeans(Pc4(a), w);
    hide Op, ReadWord, Decode, Isa.ExecIType, Isa.ExecRType, Isa.RaiseAt, Pc4, Add, JumpTarget;
  }

  // ---- Immediates ----

  lemma BranchMeans(a: Isa.Arch, w: Word)
    requires ReadWord(a.mem, a.pc) == Some(w) && (Op(w) == 4 || Op(w) == 5)
    ensures BranchEffect(a, w, Isa.Step(a).0, Isa.Step(a).1, (X(a, Rs(w)) == X(a, Rt(w))) == (Op(w) == 4))
  {
    hide ReadWord, Decode, Rs, Rt, Imm, Simm, Op, Isa.Step, Alu.Execute, BranchTarget, Isa.ExecRType,
         Isa.ExecJType, Add, Pc4, Low32;
    ImmediateDecodes(w);
    Alu.ZeroMeaning(X(a, Rs(w)), X(a, Rt(w)), 0);
    BranchTargetMeans(a.pc, w);
    StepOutcome(a, Decode(w).value);
    Pc4Means(a);
  }

  lemma BranchTargetMeans(pc: Word, w: Word)
    ensures BranchTarget(Add(pc, 4), Imm(w)) == Low32(pc + 4 + 4 * Simm(w))
  {
  }

  lemma ExtendMeans(w: Word)
    ensures SignExtend(Imm(w)) == Low32(Simm(w)) && Signed(SignExtend(Imm(w))) == Simm(w)
  {
  }

  lemma AddressMeans(x: Word, w: Word)
    ensures Add(x, SignExtend(Imm(w))) == Low32(x + Simm(w))
  {
  }

  /** An immediate instruction of the ALU. */
  lemma AluImmediateStep(a: Isa.Arch, d: Instr)
    requires At(a, d) && d.fields.IForm?
    requires d.opcode in {Opcode.ADDI, Opcode.ADDIU, Opcode.SLTI, Opcode.SLTIU, Opcode.ANDI, Opcode.ORI, Opcode.XORI, Opcode.LUI}
    ensures Alu.Control(d).Some?
    ensures var f := d.fields;
            var imm: Word := if d.opcode in {Opcode.ANDI, Opcode.ORI, Opcode.XORI, Opcode.LUI} then f.imm else SignExtend(f.imm);
            var r := Alu.Execute(Alu.Control(d).value, X(a, f.rs), imm, 0);
            Isa.Step(a) == if r.overflow && d.opcode == Opcode.ADDI
                           then (Isa.RaiseAt(a, ExceptionCode.Ov, 0), Exception) else (Wrote(a, f.rt, r.value), Ok)
  {
    hide ReadWord, Decode, Isa.Step, Alu.Execute, SignExtend, Isa.ExecRType, Isa.ExecJType, Isa.RaiseAt, Add, Pc4;
    StepOutcome(a, d);
    Pc4Means(a);
  }

  lemma AddImmediateMeans(a: Isa.Arch, w: Word)
    requires ReadWord(a.mem, a.pc) == Some(w) && Op(w) == 8
    ensures SignedResult(a, Isa.Step(a).0, Isa.Step(a).1, Rt(w), Signed(X(a, Rs(w))) + Simm(w))
  {
    hide Rs, Rt, Imm, Simm, Op, Isa.Step, ReadWord, Decode, SignExtend, SignedResult, Alu.Value,
         Alu.OverflowAdd, Alu.OverflowSub, Alu.Execute, Isa.RaiseAt, Signed, Wrote, X;
    ImmediateDecodes(w);
    ExtendMeans(w);
    AluImmediateStep(a, Decode(w).value);
    var x, i := X(a, Rs(w)), SignExtend(Imm(w));
    SumMeans(a, Rt(w), x, i, Signed(x) + Signed(i), Alu.Execute(Alu.AluOp.ADD, x, i, 0));
  }

  /** An immediate instruction that cannot overflow. */
  lemma PlainImmediateStep(a: Isa.Arch, w: Word, op: Opcode, alu: Alu.AluOp)
    requires ReadWord(a.mem, a.pc) == Some(w) && OpcodeOf(Op(w)) == Some(op)
    requires op in {Opcode.ADDIU, Opcode.SLTI, Opcode.SLTIU, Opcode.ANDI, Opcode.ORI, Opcode.XORI, Opcode.LUI}
    requires Alu.ITypeOp(op) == Some(alu) && !alu.ADD? && !alu.SUB?
    ensures var imm: Word := if op in {Opcode.ANDI, Opcode.ORI, Opcode.XORI, Opcode.LUI} then Imm(w) else SignExtend(Imm(w));
            Gives(a, Isa.Step(a).0, Isa.Step(a).1, Rt(w), Alu.Value(alu, X(a, Rs(w)), imm, 0))
  {
    hide Rs, Rt, Imm, Op, OpcodeOf, Isa.Step, ReadWord, Decode, SignExtend, Alu.Value, Alu.Execute, Isa.RaiseAt,
         Wrote, X;
    ImmediateDecodes(w);
    AluImmediateStep(a, Decode(w).value);
    NoOverflow(alu, X(a, Rs(w)), if op in {Opcode.ANDI, Opcode.ORI, Opcode.XORI, Opcode.LUI} then Imm(w) else SignExtend(Imm(w)), 0);
  }

  lemma WrappingImmediatesMean(a: Isa.Arch, w: Word)
    requires ReadWord(a.mem, a.pc) == Some(w) && 9 <= Op(w) <= 0x0B
    ensures var x, i := X(a, Rs(w)), Simm(w);
            Gives(a, Isa.Step(a).0, Isa.Step(a).1, Rt(w),
                  if Op(w) == 9 then Low32(x + i)
                  else if Op(w) == 0x0A then (if Signed(x) < i then 1 else 0) else (if x < Low32(i) then 1 else 0))
  {
    hide Rs, Rt, Imm, Simm, Op, Isa.Step, ReadWord, SignExtend, Alu.Value, Signed, Low32, Gives, X;
    var op := if Op(w) == 9 then Opcode.ADDIU else if Op(w) == 0x0A then Opcode.SLTI else Opcode.SLTIU;
    var alu := if Op(w) == 9 then Alu.AluOp.ADDU else if Op(w) == 0x0A then Alu.AluOp.SLT else Alu.AluOp.SLTU;
    PlainImmediateStep(a, w, op, alu);
    ImmediateValue(X(a, Rs(w)), w, alu);
  }

  lemma ImmediateValue(x: Word, w: Word, op: Alu.AluOp)
    requires op.ADDU? || op.SLT? || op.SLTU?
    ensures Alu.Value(op, x, SignExtend(Imm(w)), 0) ==
            if op.ADDU? then Low32(x + Simm(w)) else if op.SLT? then (if Signed(x) < Simm(w) then 1 else 0)
            else (if x < Low32(Simm(w)) then 1 else 0)
  {
    ExtendMeans(w);
    AddressMeans(x, w);
    hide Imm, Simm, Low32, SignExtend;
  }

  lemma LogicImmediatesMean(a: Isa.Arch, w: Word)
    requires ReadWord(a.mem, a.pc) == Some(w) && 0x0C <= Op(w) <= 0x0E
    ensures GivesLogic(a, Isa.Step(a).0, Isa.Step(a).1, Rt(w), Op(w) - 8, X(a, Rs(w)), Imm(w))
  {
    hide Rs, Rt, Imm, Op, Isa.Step, ReadWord, SignExtend, Alu.Value, Combines, Gives, X;
    var kind := Op(w) - 8;
    var op := if Op(w) == 0x0C then Opcode.ANDI else if Op(w) == 0x0D then Opcode.ORI else Opcode.XORI;
    PlainImmediateStep(a, w, op, LogicOp(kind));
    LogicMeans(kind, X(a, Rs(w)), Imm(w));
  }

  lemma LuiMeans(a: Isa.Arch, w: Word)
    requires ReadWord(a.mem, a.pc) == Some(w) && Op(w) == 0x0F
    ensures Gives(a, Isa.Step(a).0, Isa.Step(a).1, Rt(w), Imm(w) * 0x1_0000)
  {
    hide Rs, Rt, Op, Isa.Step, ReadWord, SignExtend, Gives, X, Imm;
    PlainImmediateStep(a, w, Opcode.LUI, Alu.AluOp.LUI);
    assert Alu.Value(Alu.AluOp.LUI, X(a, Rs(w)), Imm(w), 0) == Imm(w) * 0x1_0000;
  }

  /** The address of a load or store is base plus offset; nothing else is computed. */
  lemma AccessStep(a: Isa.Arch, d: Instr)
    requires At(a, d) && d.fields.IForm? && d.opcode in {Opcode.LW, Opcode.LBU, Opcode.LHU, Opcode.SW}
    ensures var f := d.fields; var ad := Add(X(a, f.rs), SignExtend(f.imm));
            Isa.Step(a) ==
              if d.opcode == Opcode.SW then
                var (m, ok) := WriteWord(a.mem, ad, X(a, f.rt));
                if ok then (a.(mem := m, pc := Pc4(a)), Ok) else (Isa.RaiseAt(a, ExceptionCode.AdES, ad), Exception)
              else
                match LoadData(a.mem, d.opcode, ad)
                case None => (Isa.RaiseAt(a, ExceptionCode.AdEL, ad), Exception)
                case Some(v) => (Wrote(a, f.rt, v), Ok)
  {
    hide ReadWord, Decode, SignExtend, LoadData, WriteWord, Isa.ExecRType, Isa.ExecJType, Isa.RaiseAt;
    assert Alu.Control(d) == Some(Alu.AluOp.ADDU);
    Pc4Means(a);
  }

  lemma LoadMeans(a: Isa.Arch, w: Word, op: Opcode, size: nat)
    requires ReadWord(a.mem, a.pc) == Some(w) && OpcodeOf(Op(w)) == Some(op)
    requires (op == Opcode.LW && size == 4) || (op == Opcode.LHU && size == 2) || (op == Opcode.LBU && size == 1)
    ensures LoadEffect(a, Isa.Step(a).0, Isa.Step(a).1, Rt(w), Low32(X(a, Rs(w)) + Simm(w)), size)
  {
    hide Rs, Rt, Imm, Simm, Op, OpcodeOf, Isa.Step, ReadWord, Decode, SignExtend, Add, Low32, Wrote, X,
         Isa.RaiseAt, LoadEffect, LoadData, WriteWord;
    ImmediateDecodes(w);
    AddressMeans(X(a, Rs(w)), w);
    AccessStep(a, Decode(w).value);
    LoadedMeans(a, op, Rt(w), Add(X(a, Rs(w)), SignExtend(Imm(w))), size);
  }

  /** What a load finds, and the trap if there is nothing to find. */
  lemma LoadedMeans(a: Isa.Arch, op: Opcode, rt: RegIndex, ad: Word, size: nat)
    requires (op == Opcode.LW && size == 4) || (op == Opcode.LHU && size == 2) || (op == Opcode.LBU && size == 1)
    ensures match LoadData(a.mem, op, ad)
            case None => LoadEffect(a, Isa.RaiseAt(a, ExceptionCode.AdEL, ad), Exception, rt, ad, size)
            case Some(v) => LoadEffect(a, Wrote(a, rt, v), Ok, rt, ad, size)
  {
    hide TrapsAs, Isa.RaiseAt, Wrote, ReadWord, ReadHalf, ReadByte, WordIn;
    TrapMeans(a, ExceptionCode.AdEL, 4, ad);
    WordRead(a.mem, ad);
    HalfRead(a.mem, ad);
    ByteRead(a.mem, ad);
  }

  lemma HalfRead(m: Bytes, addr: Word)
    ensures ReadHalf(m, addr) == if addr % 2 == 0 && addr + 2 <= |m| then Some(m[addr] as int + 0x100 * (m[addr + 1] as int)) else None
  {
  }

  lemma ByteRead(m: Bytes, addr: Word)
    ensures ReadByte(m, addr) == if addr + 1 <= |m| then Some(m[addr]) else None
  {
  }

  lemma StoreMeans(a: Isa.Arch, w: Word)
    requires ReadWord(a.mem, a.pc) == Some(w) && Op(w) == 0x2B
    ensures StoreEffect(a, Isa.Step(a).0, Isa.Step(a).1, X(a, Rt(w)), Low32(X(a, Rs(w)) + Simm(w)))
  {
    hide Rs, Rt, Imm, Simm, Op, Isa.Step, ReadWord, Decode, SignExtend, Add, Low32, Wrote, X, Isa.RaiseAt,
         StoreEffect, LoadData, WriteWord;
    ImmediateDecodes(w);
    AddressMeans(X(a, Rs(w)), w);
    AccessStep(a, Decode(w).value);
    StoredMeans(a, X(a, Rt(w)), Add(X(a, Rs(w)), SignExtend(Imm(w))));
  }

  lemma StoredMeans(a: Isa.Arch, v: Word, ad: Word)
    ensures var (m, ok) := WriteWord(a.mem, ad, v);
            if ok then StoreEffect(a, a.(mem := m, pc := Pc4(a)), Ok, v, ad)
            else StoreEffect(a, Isa.RaiseAt(a, ExceptionCode.AdES, ad), Exception, v, ad)
  {
    TrapMeans(a, ExceptionCode.AdES, 5, ad);
    if WordAt(a.mem, ad) {
      ReadAfterPut(a.mem, ad, v, ad);
      WordRead(PutWord(a.mem, ad, v), ad);
      forall k | 0 <= k < |a.mem| && !(ad <= k < ad + 4) ensures PutWord(a.mem, ad, v)[k] == a.mem[k] {
        KeptByte(a.mem, ad, v, k);
      }
    }
    hide ReadWord, TrapsAs, Isa.RaiseAt, PutWord, WordIn;
  }

  // ---- Every word, every state ----

  lemma WordMeans(a: Isa.Arch, w: Word)
    requires ReadWord(a.mem, a.pc) == Some(w)
    ensures WordEffect(a, w, Isa.Step(a).0, Isa.Step(a).1)
  {
    hide Op, Rs, Rt, Rd, Imm, Simm, Isa.Step, ReadWord, Decode, SpecialEffect, JumpEffect, BranchEffect,
         Cop0Effect, LoadEffect, StoreEffect, SignedResult, Gives, GivesLogic, Traps, Low32, Signed, X;
    var op := Op(w);
    if op == 0 {
      SpecialMeans(a, w);
    } else if op == 2 || op == 3 {
      JumpMeans(a, w);
    } else if op == 4 || op == 5 {
      BranchMeans(a, w);
    } else if op == 8 {
      AddImmediateMeans(a, w);
    } else if 9 <= op <= 0x0B {
      WrappingImmediatesMean(a, w);
    } else if 0x0C <= op <= 0x0E {
      LogicImmediatesMean(a, w);
    } else if op == 0x0F {
      LuiMeans(a, w);
    } else if op == 0x10 {
      Cop0Means(a, w);
    } else if op == 0x23 || op == 0x24 || op == 0x25 {
      LoadMeans(a, w, if op == 0x23 then Opcode.LW else if op == 0x24 then Opcode.LBU else Opcode.LHU,
                if op == 0x23 then 4 else if op == 0x24 then 1 else 2);
    } else if op == 0x2B {
      StoreMeans(a, w);
    } else {
      UnknownDecodes(w);
      ReservedMeans(a, w);
    }
  }

  /** From every state, one step of the single-cycle CPU is what the manual says. */
  lemma StepMeans(a: Isa.Arch)
    ensures StepEffect(a, Isa.Step(a).0, Isa.Step(a).1)
  {
    WordRead(a.mem, a.pc);
    if ReadWord(a.mem, a.pc).Some? {
      hide Isa.Step, WordEffect, TrapsAs, WordIn, ReadWord;
      WordMeans(a, ReadWord(a.mem, a.pc).value);
    } else {
      TrapMeans(a, ExceptionCode.AdEL, 4, a.pc);
      hide TrapsAs, Isa.RaiseAt, Isa.Execute;
    }
  }
}
