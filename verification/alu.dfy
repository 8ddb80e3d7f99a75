/** The ALU, its control block and the signed-overflow tests (`mips::Alu`). */
module Alu {
  import opened Words
  import opened Decoder

  datatype AluOp =
    | ADD | ADDU | SUB | SUBU | AND | OR | XOR | NOR
    | SLT | SLTU | SLL | SRL | SRA | LUI | PASS_A

  datatype AluResult = AluResult(value: Word, zero: bool, overflow: bool, negative: bool)

  const NO_RESULT := AluResult(0, false, false, false)

  function RTypeOp(f: Funct): Option<AluOp> {
    match f
    case ADD => Some(AluOp.ADD)
    case ADDU => Some(AluOp.ADDU)
    case SUB => Some(AluOp.SUB)
    case SUBU => Some(AluOp.SUBU)
    case AND => Some(AluOp.AND)
    case OR => Some(AluOp.OR)
    case XOR => Some(AluOp.XOR)
    case NOR => Some(AluOp.NOR)
    case SLT => Some(AluOp.SLT)
    case SLTU => Some(AluOp.SLTU)
    case SLL => Some(AluOp.SLL)
    case SLLV => Some(AluOp.SLL)
    case SRL => Some(AluOp.SRL)
    case SRLV => Some(AluOp.SRL)
    case SRA => Some(AluOp.SRA)
    case JR => Some(AluOp.PASS_A)
    case JALR => Some(AluOp.PASS_A)
    case _ => None
  }

  function ITypeOp(op: Opcode): Option<AluOp> {
    match op
    case ADDI => Some(AluOp.ADD)
    case ADDIU => Some(AluOp.ADDU)
    case SLTI => Some(AluOp.SLT)
    case SLTIU => Some(AluOp.SLTU)
    case ANDI => Some(AluOp.AND)
    case ORI => Some(AluOp.OR)
    case XORI => Some(AluOp.XOR)
    case LUI => Some(AluOp.LUI)
    case LW => Some(AluOp.ADDU)
    case LBU => Some(AluOp.ADDU)
    case LHU => Some(AluOp.ADDU)
    case SW => Some(AluOp.ADDU)
    case BEQ => Some(AluOp.SUBU)
    case BNE => Some(AluOp.SUBU)
    case _ => None
  }

  /** The ALU control block: which operation an instruction needs. */
  function Control(d: Instr): Option<AluOp> {
    match d.fields
    case RForm(_, _, _, _, funct) => RTypeOp(funct)
    case IForm(_, _, _) => ITypeOp(d.opcode)
    case _ => None
  }

  /** Bit 31 of ~(a ^ b) & (a ^ r). */
  predicate OverflowAdd(a: Word, b: Word, r: Word) {
    BitOp(AndFn, BitOp(NorFn, BitOp(XorFn, a, b), 0), BitOp(XorFn, a, r)) / SIGN_BIT != 0
  }

  /** Bit 31 of (a ^ b) & (a ^ r). */
  predicate OverflowSub(a: Word, b: Word, r: Word) {
    BitOp(AndFn, BitOp(XorFn, a, b), BitOp(XorFn, a, r)) / SIGN_BIT != 0
  }

  /** Arithmetic right shift: the quotient rounds towards minus infinity. */
  function ShiftRightArithmetic(b: Word, shamt: RegIndex): Word {
    ShiftRange(Signed(b), Pow2(shamt));
    Unsigned(Signed(b) / Pow2(shamt))
  }

  lemma ShiftRange(v: int, p: nat)
    requires -SIGN_BIT <= v < SIGN_BIT && 0 < p
    ensures -SIGN_BIT <= v / p < SIGN_BIT
  {
    var q, r := v / p, v % p;
    assert v == q * p + r;
    assert q < -SIGN_BIT ==> q * p <= (-SIGN_BIT - 1) * p;
    assert (-SIGN_BIT - 1) * p <= -SIGN_BIT * 1 - p;
    assert q >= SIGN_BIT ==> q * p >= SIGN_BIT * p;
  }

  function Value(op: AluOp, a: Word, b: Word, shamt: RegIndex): Word {
    match op
    case ADD => Add(a, b)
    case ADDU => Add(a, b)
    case SUB => Sub(a, b)
    case SUBU => Sub(a, b)
    case AND => BitOp(AndFn, a, b)
    case OR => BitOp(OrFn, a, b)
    case XOR => BitOp(XorFn, a, b)
    case NOR => BitOp(NorFn, a, b)
    case SLT => if Signed(a) < Signed(b) then 1 else 0
    case SLTU => if a < b then 1 else 0
    case SLL => (b * Pow2(shamt)) % WORD_LIMIT
    case SRL => ShiftedDown(b, Pow2(shamt))
    case SRA => ShiftRightArithmetic(b, shamt)
    case LUI => (b * 0x1_0000) % WORD_LIMIT
    case PASS_A => a
  }

  function ShiftedDown(b: Word, p: nat): Word
    requires 0 < p
  {
    QuotientBound(b, p);
    b / p
  }

  lemma QuotientBound(b: nat, p: nat)
    requires 0 < p
    ensures 0 <= b / p <= b
  {
    var q := b / p;
    assert 0 <= q;
    assert b == q * p + b % p;
    MulGrows(q, p);
  }

  lemma MulGrows(q: nat, p: nat)
    requires 0 < p
    ensures q <= q * p
  {
    assert q * p == q + q * (p - 1);
  }

  function Execute(op: AluOp, a: Word, b: Word, shamt: RegIndex): AluResult {
    var value := Value(op, a, b, shamt);
    var overflow :=
      match op
      case ADD => OverflowAdd(a, b, value)
      case SUB => OverflowSub(a, b, value)
      case _ => false;
    AluResult(value, value == 0, overflow, value / SIGN_BIT != 0)
  }

  /** The hardware overflow tests hold exactly when the signed sum or difference
      does not fit 32 bits; otherwise the result is that sum or difference. */
  lemma OverflowMeaning(a: Word, b: Word, shamt: RegIndex)
    ensures Execute(AluOp.ADD, a, b, shamt).overflow <==> !(-SIGN_BIT <= Signed(a) + Signed(b) < SIGN_BIT)
    ensures Execute(AluOp.SUB, a, b, shamt).overflow <==> !(-SIGN_BIT <= Signed(a) - Signed(b) < SIGN_BIT)
    ensures !Execute(AluOp.ADD, a, b, shamt).overflow ==> Signed(Execute(AluOp.ADD, a, b, shamt).value) == Signed(a) + Signed(b)
    ensures !Execute(AluOp.SUB, a, b, shamt).overflow ==> Signed(Execute(AluOp.SUB, a, b, shamt).value) == Signed(a) - Signed(b)
  {
    OverflowBits(a, b, Add(a, b));
    OverflowBits(a, b, Sub(a, b));
  }

  lemma OverflowBits(a: Word, b: Word, r: Word)
    ensures OverflowAdd(a, b, r) <==> ((a < SIGN_BIT) == (b < SIGN_BIT) && (a < SIGN_BIT) != (r < SIGN_BIT))
    ensures OverflowSub(a, b, r) <==> ((a < SIGN_BIT) != (b < SIGN_BIT) && (a < SIGN_BIT) != (r < SIGN_BIT))
  {
    hide Bitwise;
    var ab, ar := BitOp(XorFn, a, b), BitOp(XorFn, a, r);
    TopBitOp(XorFn, a, b);
    TopBitOp(XorFn, a, r);
    TopBitOp(NorFn, ab, 0);
    TopBitOp(AndFn, BitOp(NorFn, ab, 0), ar);
    TopBitOp(AndFn, ab, ar);
  }

  lemma TopBitOp(f: BitFn, a: Word, b: Word)
    ensures SIGN_BIT <= BitOp(f, a, b) <==> ApplyBit(f, SIGN_BIT <= a, SIGN_BIT <= b)
  {
    BitwiseBit(f, a, b, 32, 31);
    TopBit(a);
    TopBit(b);
    TopBit(BitOp(f, a, b));
  }

  /** A left shift moves bit i to bit i + shamt and fills with zeros; LUI shifts by 16. */
  lemma LeftShiftBits(b: Word, shamt: RegIndex, i: RegIndex)
    ensures Bit(Value(AluOp.SLL, 0, b, shamt), i) == (shamt <= i && Bit(b, i - shamt))
    ensures Bit(Value(AluOp.LUI, 0, b, shamt), i) == (16 <= i && Bit(b, i - 16))
  {
    hide Bit, Pow2;
    Pow2Of32();
    SixteenthPower();
    var up, high := b * Pow2(shamt), b * 0x1_0000;
    LowBits(up, 32, i);
    LowBits(high, 32, i);
    ShiftedUpBit(b, shamt, i);
    ShiftedUpBit(b, 16, i);
  }

  lemma SixteenthPower()
    ensures Pow2(16) == 0x1_0000
  {
    assert Pow2(8) == 256;
    Pow2Add(8, 8);
  }

  /** A right shift moves bit i + shamt to bit i; the arithmetic one fills with the sign. */
  lemma ShiftBits(b: Word, shamt: RegIndex, i: RegIndex)
    ensures Bit(Value(AluOp.SRL, 0, b, shamt), i) == (i + shamt < 32 && Bit(b, i + shamt))
    ensures Bit(Value(AluOp.SRA, 0, b, shamt), i) == Bit(b, if i + shamt < 32 then i + shamt else 31)
  {
    LogicalShiftBit(b, shamt, i);
    if b < SIGN_BIT {
      ShiftedWithin(b, shamt);
    } else {
      // ~(~b >> shamt): the quotient of a negative number rounds down.
      var c: Word := WORD_LIMIT - 1 - b;
      ComplementQuotient(b, shamt);
      LogicalShiftBit(c, shamt, i);
      ComplementBit(ShiftedDown(c, Pow2(shamt)), i);
      var at: RegIndex := if i + shamt < 32 then i + shamt else 31;
      ComplementBit(b, at);
      TopBit(b);
    }
    TopBit(b);
  }

  lemma LogicalShiftBit(b: Word, shamt: RegIndex, i: RegIndex)
    ensures Bit(ShiftedDown(b, Pow2(shamt)), i) == (i + shamt < 32 && Bit(b, i + shamt))
  {
    DivTwice(b, Pow2(shamt), Pow2(i));
    Pow2Add(shamt, i);
    if 32 <= i + shamt {
      Pow2Of32();
      Pow2Add(32, i + shamt - 32);
      assert Pow2(i + shamt) >= WORD_LIMIT;
      DivUnique(b, Pow2(i + shamt), 0, b);
    }
  }

  lemma ShiftedWithin(b: Word, shamt: RegIndex)
    requires b < SIGN_BIT
    ensures ShiftRightArithmetic(b, shamt) == ShiftedDown(b, Pow2(shamt))
  {
    ShiftRange(b, Pow2(shamt));
  }

  lemma ComplementQuotient(b: Word, shamt: RegIndex)
    requires SIGN_BIT <= b
    ensures var c: Word := WORD_LIMIT - 1 - b;
            ShiftRightArithmetic(b, shamt) == WORD_LIMIT - 1 - ShiftedDown(c, Pow2(shamt))
  {
    var p := Pow2(shamt);
    var c: Word := WORD_LIMIT - 1 - b;
    var q, r := c / p, c % p;
    assert Signed(b) == -1 - c;
    assert -1 - c == p * (-1 - q) + (p - 1 - r);
    FloorUnique(-1 - c, p, -1 - q, p - 1 - r);
  }

  lemma FloorUnique(v: int, p: nat, q: int, r: nat)
    requires v == p * q + r && r < p
    ensures v / p == q
  {
    var q', r' := v / p, v % p;
    assert q' < q ==> p * q >= p * (q' + 1);
    assert q < q' ==> p * q' >= p * (q + 1);
  }

  /** The branch comparison: the difference is zero exactly for equal operands. */
  /** The flags of every operation: zero and sign of the result, overflow for the signed sum
      and difference only. */
  lemma FlagsMean(op: AluOp, a: Word, b: Word, shamt: RegIndex)
    ensures var r := Execute(op, a, b, shamt);
            && (r.zero <==> r.value == 0) && (r.negative <==> Signed(r.value) < 0)
            && (r.overflow ==> op == AluOp.ADD || op == AluOp.SUB)
  {
    hide Value, OverflowAdd, OverflowSub;
  }

  lemma ZeroMeaning(a: Word, b: Word, shamt: RegIndex)
    ensures Execute(AluOp.SUBU, a, b, shamt).zero <==> a == b
  {
  }
}
