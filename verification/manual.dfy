/** The instruction set as a manual states it: what one step does, read off the bytes of
    the instruction word, with the arithmetic written out. Nothing here goes through the
    decoder, the control tables or the ALU of the model. */
module Manual {
  import opened Control
  import opened Cp0
  import opened Memory
  import opened Registers
  import opened Words
  import Isa

  // ---- Fields and operands ----

  /** The word at `addr`, least significant byte first. */
  function WordIn(m: Bytes, addr: Word): Word
    requires addr + 4 <= |m|
  {
    m[addr] as int + 0x100 * (m[addr + 1] as int) + 0x1_0000 * (m[addr + 2] as int) + 0x100_0000 * (m[addr + 3] as int)
  }

  function Op(w: Word): nat { w / 0x400_0000 }
  function Rs(w: Word): RegIndex { (w / 0x20_0000) % 32 }
  function Rt(w: Word): RegIndex { (w / 0x1_0000) % 32 }
  function Rd(w: Word): RegIndex { (w / 0x800) % 32 }
  function Shamt(w: Word): RegIndex { (w / 0x40) % 32 }
  function Fn(w: Word): nat { w % 64 }
  function Imm(w: Word): Half { w % 0x1_0000 }
  function Simm(w: Word): int { if Imm(w) < 0x8000 then Imm(w) else Imm(w) - 0x1_0000 }

  function X(a: Isa.Arch, r: RegIndex): Word { if r == 0 then 0 else a.regs[r] }
  /** The low 32 bits of an integer. */
  function Low32(v: int): Word { v % 0x1_0000_0000 }

  function Pc4(a: Isa.Arch): Word { Low32(a.pc + 4) }

  /** Register `r` gets `v`, unless it is $zero, and the next instruction follows. */
  function Wrote(a: Isa.Arch, r: RegIndex, v: Word): Isa.Arch {
    a.(regs := if r == 0 then a.regs else a.regs[r := v], pc := Pc4(a))
  }

  predicate Fits32(v: int) { -0x8000_0000 <= v < 0x8000_0000 }

  // ---- Traps ----

  /** `b` is `a` after a trap with this code number: EPC is kept if EXL was set. */
  ghost predicate TrapsAs(a: Isa.Arch, b: Isa.Arch, code: nat, bad: Word) {
    && b.regs == a.regs && b.mem == a.mem && b.pc == 0x8000_0180
    && b.cp0.badVAddr == bad
    && b.cp0.epc == (if Bit(a.cp0.status, 1) then a.cp0.epc else a.pc)
    && (forall i: RegIndex :: Bit(b.cp0.status, i) == (i == 1 || Bit(a.cp0.status, i)))
    && (forall i: RegIndex :: Bit(b.cp0.cause, i) == if 2 <= i < 7 then Bit(code, i - 2) else Bit(a.cp0.cause, i))
  }

  // ---- Effects, by opcode and function number ----

  /** Bits of a shift by `s`: 0 left, 2 right with zeros, 3 right with the sign. */
  ghost predicate Shifts(kind: nat, y: Word, s: RegIndex, v: Word) {
    forall i: RegIndex :: Bit(v, i) ==
      if kind == 0 then s <= i && Bit(y, i - s)
      else if kind == 2 then i + s < 32 && Bit(y, i + s)
      else Bit(y, if i + s < 32 then i + s else 31)
  }

  /** Bits of a logical operation: 4 and, 5 or, 6 xor, 7 nor. */
  ghost predicate Combines(kind: nat, x: Word, y: Word, v: Word) {
    forall i: RegIndex :: Bit(v, i) ==
      if kind == 4 then Bit(x, i) && Bit(y, i)
      else if kind == 5 then Bit(x, i) || Bit(y, i)
      else if kind == 6 then Bit(x, i) != Bit(y, i)
      else !(Bit(x, i) || Bit(y, i))
  }

  /** The step puts `v` into register `r` and goes on. */
  predicate Gives(a: Isa.Arch, b: Isa.Arch, res: StepResult, r: RegIndex, v: Word) {
    b == Wrote(a, r, v) && res == Ok
  }

  ghost predicate GivesShift(a: Isa.Arch, b: Isa.Arch, res: StepResult, r: RegIndex, kind: nat, y: Word, s: RegIndex) {
    exists v: Word :: Shifts(kind, y, s, v) && Gives(a, b, res, r, v)
  }

  ghost predicate GivesLogic(a: Isa.Arch, b: Isa.Arch, res: StepResult, r: RegIndex, kind: nat, x: Word, y: Word) {
    exists v: Word :: Combines(kind, x, y, v) && Gives(a, b, res, r, v)
  }

  predicate GoesTo(a: Isa.Arch, b: Isa.Arch, res: StepResult, regs: Regs, target: Word) {
    b == a.(regs := regs, pc := target) && res == if target == a.pc then Halt else Ok
  }

  ghost predicate Traps(a: Isa.Arch, b: Isa.Arch, res: StepResult, code: nat, bad: Word) {
    TrapsAs(a, b, code, bad) && res == Exception
  }

  /** The signed result goes to `r`, or does not fit and the step traps with code 12. */
  ghost predicate SignedResult(a: Isa.Arch, b: Isa.Arch, res: StepResult, r: RegIndex, value: int) {
    if Fits32(value) then Gives(a, b, res, r, Low32(value)) else Traps(a, b, res, 12, 0)
  }

  ghost predicate SpecialEffect(a: Isa.Arch, w: Word, b: Isa.Arch, res: StepResult) {
    var x, y := X(a, Rs(w)), X(a, Rt(w));
    match Fn(w)
    case 0x00 => GivesShift(a, b, res, Rd(w), 0, y, Shamt(w))
    case 0x02 => GivesShift(a, b, res, Rd(w), 2, y, Shamt(w))
    case 0x03 => GivesShift(a, b, res, Rd(w), 3, y, Shamt(w))
    case 0x04 => GivesShift(a, b, res, Rd(w), 0, y, x % 32)
    case 0x06 => GivesShift(a, b, res, Rd(w), 2, y, x % 32)
    case 0x08 => GoesTo(a, b, res, a.regs, x)
    case 0x09 => GoesTo(a, b, res, Wrote(a, Rd(w), Pc4(a)).regs, x)
    case 0x0C => Traps(a, b, res, 8, 0)
    case 0x0D => Traps(a, b, res, 9, 0)
    case 0x20 => SignedResult(a, b, res, Rd(w), Signed(x) + Signed(y))
    case 0x21 => Gives(a, b, res, Rd(w), Low32(x + y))
    case 0x22 => SignedResult(a, b, res, Rd(w), Signed(x) - Signed(y))
    case 0x23 => Gives(a, b, res, Rd(w), Low32(x - y))
    case 0x24 => GivesLogic(a, b, res, Rd(w), 4, x, y)
    case 0x25 => GivesLogic(a, b, res, Rd(w), 5, x, y)
    case 0x26 => GivesLogic(a, b, res, Rd(w), 6, x, y)
    case 0x27 => GivesLogic(a, b, res, Rd(w), 7, x, y)
    case 0x2A => Gives(a, b, res, Rd(w), if Signed(x) < Signed(y) then 1 else 0)
    case 0x2B => Gives(a, b, res, Rd(w), if x < y then 1 else 0)
    case _ => Traps(a, b, res, 10, 0)
  }

  /** CP0 registers 8, 12, 13 and 14; the others read as 0. */
  function Cp0Register(c: Cp0State, r: RegIndex): Word {
    if r == 8 then c.badVAddr else if r == 12 then c.status else if r == 13 then c.cause else if r == 14 then c.epc else 0
  }

  function WithCp0(c: Cp0State, r: RegIndex, v: Word): Cp0State {
    if r == 12 then c.(status := v) else if r == 13 then c.(cause := v) else if r == 14 then c.(epc := v) else c
  }

  /** ERET goes to EPC and clears bit 1 of Status. */
  ghost predicate Returns(a: Isa.Arch, b: Isa.Arch, res: StepResult) {
    && b == a.(pc := a.cp0.epc, cp0 := a.cp0.(status := b.cp0.status))
    && (forall i: RegIndex :: Bit(b.cp0.status, i) == (i != 1 && Bit(a.cp0.status, i)))
    && res == if a.cp0.epc == a.pc then Halt else Ok
  }

  /** COP0: MFC0, MTC0, ERET; anything else does nothing. */
  ghost predicate Cop0Effect(a: Isa.Arch, w: Word, b: Isa.Arch, res: StepResult) {
    if Rs(w) == 0 then Gives(a, b, res, Rt(w), Cp0Register(a.cp0, Rd(w)))
    else if Rs(w) == 4 then b == a.(pc := Pc4(a), cp0 := WithCp0(a.cp0, Rd(w), X(a, Rt(w)))) && res == Ok
    else if Rs(w) == 16 && Fn(w) == 0x18 then Returns(a, b, res)
    else b == a.(pc := Pc4(a)) && res == Ok
  }

  ghost predicate LoadEffect(a: Isa.Arch, b: Isa.Arch, res: StepResult, rt: RegIndex, ad: Word, size: nat)
    requires size == 1 || size == 2 || size == 4
  {
    if ad % size == 0 && ad + size <= |a.mem| then
      Gives(a, b, res, rt, if size == 4 then WordIn(a.mem, ad)
                           else if size == 2 then a.mem[ad] as int + 0x100 * (a.mem[ad + 1] as int) else a.mem[ad])
    else Traps(a, b, res, 4, ad)
  }

  ghost predicate StoreEffect(a: Isa.Arch, b: Isa.Arch, res: StepResult, v: Word, ad: Word) {
    if ad % 4 == 0 && ad + 4 <= |a.mem| then
      && b == a.(pc := Pc4(a), mem := b.mem) && res == Ok
      && |b.mem| == |a.mem|
      && WordIn(b.mem, ad) == v
      && (forall k :: 0 <= k < |a.mem| && !(ad <= k < ad + 4) ==> b.mem[k] == a.mem[k])
    else Traps(a, b, res, 5, ad)
  }

  predicate BranchEffect(a: Isa.Arch, w: Word, b: Isa.Arch, res: StepResult, taken: bool) {
    GoesTo(a, b, res, a.regs, if taken then Low32(a.pc + 4 + 4 * Simm(w)) else Pc4(a))
  }

  predicate JumpEffect(a: Isa.Arch, w: Word, b: Isa.Arch, res: StepResult, link: bool) {
    GoesTo(a, b, res, if link then a.regs[31 := Pc4(a)] else a.regs,
           (Pc4(a) / 0x1000_0000) * 0x1000_0000 + 4 * (w % 0x400_0000))
  }

  /** Any word, by opcode number. */
  ghost predicate WordEffect(a: Isa.Arch, w: Word, b: Isa.Arch, res: StepResult) {
    var x, y := X(a, Rs(w)), X(a, Rt(w));
    var ad: Word := Low32(x + Simm(w));
    match Op(w)
    case 0x00 => SpecialEffect(a, w, b, res)
    case 0x02 => JumpEffect(a, w, b, res, false)
    case 0x03 => JumpEffect(a, w, b, res, true)
    case 0x04 => BranchEffect(a, w, b, res, x == y)
    case 0x05 => BranchEffect(a, w, b, res, x != y)
    case 0x08 => SignedResult(a, b, res, Rt(w), Signed(x) + Simm(w))
    case 0x09 => Gives(a, b, res, Rt(w), ad)
    case 0x0A => Gives(a, b, res, Rt(w), if Signed(x) < Simm(w) then 1 else 0)
    case 0x0B => Gives(a, b, res, Rt(w), if x < Low32(Simm(w)) then 1 else 0)
    case 0x0C => GivesLogic(a, b, res, Rt(w), 4, x, Imm(w))
    case 0x0D => GivesLogic(a, b, res, Rt(w), 5, x, Imm(w))
    case 0x0E => GivesLogic(a, b, res, Rt(w), 6, x, Imm(w))
    case 0x0F => Gives(a, b, res, Rt(w), Imm(w) * 0x1_0000)
    case 0x10 => Cop0Effect(a, w, b, res)
    case 0x23 => LoadEffect(a, b, res, Rt(w), ad, 4)
    case 0x24 => LoadEffect(a, b, res, Rt(w), ad, 1)
    case 0x25 => LoadEffect(a, b, res, Rt(w), ad, 2)
    case 0x2B => StoreEffect(a, b, res, y, ad)
    case _ => Traps(a, b, res, 10, 0)
  }

  /** One step from any state. */
  ghost predicate StepEffect(a: Isa.Arch, b: Isa.Arch, res: StepResult) {
    if a.pc % 4 == 0 && a.pc + 4 <= |a.mem| then WordEffect(a, WordIn(a.mem, a.pc), b, res)
    else Traps(a, b, res, 4, a.pc)
  }
}
