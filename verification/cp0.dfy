/** Coprocessor 0: the exception state (`mips::Cp0`), following the general
    exception processing of the MIPS32 Privileged Resource Architecture. */
module Cp0 {
  import opened Words

  datatype ExceptionCode = Int | AdEL | AdES | Sys | Bp | RI | Ov

  const EXCEPTION_VECTOR: Word := 0x8000_0180
  const STATUS_EXL: Word := 2
  const EXC_CODE_MASK: Word := 0x7C

  datatype Cp0State = Cp0State(status: Word, cause: Word, epc: Word, badVAddr: Word, last: ExceptionCode)

  function CodeOf(code: ExceptionCode): (c: Word)
    ensures c < 32
  {
    match code
    case Int => 0
    case AdEL => 4
    case AdES => 5
    case Sys => 8
    case Bp => 9
    case RI => 10
    case Ov => 12
  }

  function Complement(w: Word): Word {
    WORD_LIMIT - 1 - w
  }

  predicate InException(c: Cp0State) {
    BitOp(AndFn, c.status, STATUS_EXL) != 0
  }

  /** The bad address is stored for every code: 0 when the trap is not an address error. */
  function Raise(c: Cp0State, code: ExceptionCode, pc: Word, badAddr: Word): Cp0State {
    Cp0State(
      BitOp(OrFn, c.status, STATUS_EXL),
      BitOp(OrFn, BitOp(AndFn, c.cause, Complement(EXC_CODE_MASK)), CodeOf(code) * 4),
      if InException(c) then c.epc else pc,
      badAddr,
      code)
  }

  function Eret(c: Cp0State): Cp0State {
    c.(status := BitOp(AndFn, c.status, Complement(STATUS_EXL)))
  }

  function ReadCp0(c: Cp0State, reg: RegIndex): Word {
    match reg
    case 8 => c.badVAddr
    case 12 => c.status
    case 13 => c.cause
    case 14 => c.epc
    case _ => 0
  }

  function WriteCp0(c: Cp0State, reg: RegIndex, value: Word): Cp0State {
    match reg
    case 12 => c.(status := value)
    case 13 => c.(cause := value)
    case 14 => c.(epc := value)
    case _ => c
  }

  lemma {:induction false} BitwiseZeroLow(a: nat, b: nat, n: nat)
    requires forall i: nat | i < n :: !(Bit(a, i) && Bit(b, i))
    ensures Bitwise(AndFn, a, b, n) == 0
  {
    if n != 0 {
      assert Bit(a, 0) == (a % 2 == 1) && Bit(b, 0) == (b % 2 == 1);
      forall i: nat | i < n - 1 ensures !(Bit(a / 2, i) && Bit(b / 2, i)) {
        BitHalf(a, i + 1);
        BitHalf(b, i + 1);
      }
      BitwiseZeroLow(a / 2, b / 2, n - 1);
    }
  }

  lemma SmallPowers()
    ensures Pow2(0) == 1 && Pow2(1) == 2 && Pow2(2) == 4 && Pow2(3) == 8
    ensures Pow2(4) == 16 && Pow2(5) == 32 && Pow2(6) == 64 && Pow2(7) == 128
  {
  }

  lemma MaskBits(i: RegIndex)
    ensures Bit(STATUS_EXL, i) == (i == 1)
    ensures Bit(EXC_CODE_MASK, i) == (2 <= i < 7)
  {
    SmallPowers();
    if 7 <= i {
      NoHighBit(STATUS_EXL, 7, i);
      NoHighBit(EXC_CODE_MASK, 7, i);
    }
  }

  lemma CodeBits(code: ExceptionCode, i: RegIndex)
    requires !(2 <= i < 7)
    ensures !Bit(CodeOf(code) * 4, i)
  {
    SmallPowers();
    if 7 <= i {
      NoHighBit(CodeOf(code) * 4, 7, i);
    }
  }

  lemma InExceptionBit(c: Cp0State)
    ensures InException(c) <==> Bit(c.status, 1)
  {
    if Bit(c.status, 1) {
      BitwiseBit(AndFn, c.status, STATUS_EXL, 32, 1);
      MaskBits(1);
      if BitOp(AndFn, c.status, STATUS_EXL) == 0 {
        SmallPowers();
      }
    } else {
      forall i: nat | i < 32 ensures !(Bit(c.status, i) && Bit(STATUS_EXL, i)) {
        MaskBits(i);
      }
      BitwiseZeroLow(c.status, STATUS_EXL, 32);
    }
  }

  /** A trap, bit by bit: Status gains EXL and nothing else, Cause holds the new code
      in bits 6:2 and keeps the rest, and EPC names the trapping instruction unless
      a handler was already running. */
  lemma RaiseBits(c: Cp0State, code: ExceptionCode, pc: Word, badAddr: Word, i: RegIndex)
    ensures var r := Raise(c, code, pc, badAddr);
            && Bit(r.status, i) == (i == 1 || Bit(c.status, i))
            && Bit(r.cause, i) == Bit(if 2 <= i < 7 then CodeOf(code) * 4 else c.cause, i)
            && r.epc == (if Bit(c.status, 1) then c.epc else pc)
            && r.badVAddr == badAddr && r.last == code
            && InException(r)
  {
    var r := Raise(c, code, pc, badAddr);
    MaskBits(i);
    MaskBits(1);
    ComplementBit(EXC_CODE_MASK, i);
    InExceptionBit(c);
    InExceptionBit(r);
    BitwiseBit(OrFn, c.status, STATUS_EXL, 32, i);
    BitwiseBit(OrFn, c.status, STATUS_EXL, 32, 1);
    var kept := BitOp(AndFn, c.cause, Complement(EXC_CODE_MASK));
    BitwiseBit(AndFn, c.cause, Complement(EXC_CODE_MASK), 32, i);
    BitwiseBit(OrFn, kept, CodeOf(code) * 4, 32, i);
    if !(2 <= i < 7) {
      CodeBits(code, i);
    }
  }

  /** ERET clears EXL and nothing else, so the next trap records its own address. */
  lemma EretBits(c: Cp0State, i: RegIndex)
    ensures Bit(Eret(c).status, i) == (i != 1 && Bit(c.status, i))
    ensures !InException(Eret(c))
    ensures Eret(c).(status := c.status) == c
  {
    MaskBits(i);
    MaskBits(1);
    ComplementBit(STATUS_EXL, i);
    ComplementBit(STATUS_EXL, 1);
    BitwiseBit(AndFn, c.status, Complement(STATUS_EXL), 32, i);
    BitwiseBit(AndFn, c.status, Complement(STATUS_EXL), 32, 1);
    InExceptionBit(Eret(c));
  }

  /** A nested trap keeps the address of the first one, whatever its own. */
  lemma NestedTrapKeepsEpc(c: Cp0State, code: ExceptionCode, pc: Word, bad: Word, code': ExceptionCode, pc': Word, bad': Word)
    ensures Raise(Raise(c, code, pc, bad), code', pc', bad').epc == Raise(c, code, pc, bad).epc
    ensures Raise(Eret(Raise(c, code, pc, bad)), code', pc', bad').epc == pc'
  {
    RaiseBits(c, code, pc, bad, 1);
    EretBits(Raise(c, code, pc, bad), 1);
  }

  class Cp0Unit {
    var status: Word
    var cause: Word
    var epc: Word
    var badVAddr: Word
    var last: ExceptionCode

    constructor ()
      ensures State() == Cp0State(0, 0, 0, 0, ExceptionCode.RI)
    {
      status, cause, epc, badVAddr, last := 0, 0, 0, 0, ExceptionCode.RI;
    }

    ghost function State(): Cp0State
      reads this
    {
      Cp0State(status, cause, epc, badVAddr, last)
    }

    method RaiseTrap(code: ExceptionCode, faultingPc: Word, badAddr: Word) returns (vector: Word)
      modifies this
      ensures State() == Raise(old(State()), code, faultingPc, badAddr)
      ensures vector == EXCEPTION_VECTOR
    {
      last := code;
      if BitOp(AndFn, status, STATUS_EXL) == 0 {
        epc := faultingPc;
      }
      cause := BitOp(OrFn, BitOp(AndFn, cause, Complement(EXC_CODE_MASK)), CodeOf(code) * 4);
      status := BitOp(OrFn, status, STATUS_EXL);
      badVAddr := badAddr;
      return EXCEPTION_VECTOR;
    }

    method ReturnFromTrap() returns (target: Word)
      modifies this
      ensures State() == Eret(old(State()))
      ensures target == old(epc)
    {
      status := BitOp(AndFn, status, Complement(STATUS_EXL));
      return epc;
    }

    method Read(reg: RegIndex) returns (value: Word)
      ensures value == ReadCp0(State(), reg)
    {
      match reg
      case 8 => return badVAddr;
      case 12 => return status;
      case 13 => return cause;
      case 14 => return epc;
      case _ => return 0;
    }

    method Write(reg: RegIndex, value: Word)
      modifies this
      ensures State() == WriteCp0(old(State()), reg, value)
    {
      match reg
      case 12 => status := value;
      case 13 => cause := value;
      case 14 => epc := value;
      case _ =>
    }

    /** Keeps the last exception code. */
    method Reset()
      modifies this
      ensures State() == Cp0State(0, 0, 0, 0, old(last))
    {
      status, cause, epc, badVAddr := 0, 0, 0, 0;
    }
  }
}
