/** Assembly language as a manual spells it: which mnemonic has which opcode and function
    number, and where each operand goes in the word. Nothing here goes through the
    assembler's tables, the encoders or the decoder. */
module Spelling {
  import opened Assembler
  import opened AssemblerText
  import opened Manual
  import opened Words

  // Mnemonics with their function numbers (opcode 0) ...
  const THREE_REGISTERS: set<(string, nat)> := {
    ("add", 0x20), ("addu", 0x21), ("sub", 0x22), ("subu", 0x23), ("and", 0x24),
    ("or", 0x25), ("xor", 0x26), ("nor", 0x27), ("slt", 0x2A), ("sltu", 0x2B)}
  const SHIFTS: set<(string, nat)> := {("sll", 0x00), ("srl", 0x02), ("sra", 0x03)}
  const VARIABLE_SHIFTS: set<(string, nat)> := {("sllv", 0x04), ("srlv", 0x06)}

  // ... and with their opcodes.
  const SIGNED_IMMEDIATES: set<(string, nat)> := {("addi", 0x08), ("addiu", 0x09), ("slti", 0x0A), ("sltiu", 0x0B)}
  const UNSIGNED_IMMEDIATES: set<(string, nat)> := {("andi", 0x0C), ("ori", 0x0D), ("xori", 0x0E)}
  const ACCESSES: set<(string, nat)> := {("lw", 0x23), ("lbu", 0x24), ("lhu", 0x25), ("sw", 0x2B)}
  const BRANCHES: set<(string, nat)> := {("beq", 0x04), ("bne", 0x05)}
  const JUMPS: set<(string, nat)> := {("j", 0x02), ("jal", 0x03)}

  predicate SpelledRegister(ln: Line, w: Word) {
    var mn, ops := ln.mnemonic, ln.operands;
    Op(w) == 0 &&
    (|| ((mn, Fn(w)) in THREE_REGISTERS && |ops| == 3 && Shamt(w) == 0
         && ParseReg(ops[0]) == Some(Rd(w)) && ParseReg(ops[1]) == Some(Rs(w)) && ParseReg(ops[2]) == Some(Rt(w)))
     || ((mn, Fn(w)) in SHIFTS && |ops| == 3 && Rs(w) == 0
         && ParseReg(ops[0]) == Some(Rd(w)) && ParseReg(ops[1]) == Some(Rt(w)) && ParseImm(ops[2]) == Some(Shamt(w)))
     || ((mn, Fn(w)) in VARIABLE_SHIFTS && |ops| == 3 && Shamt(w) == 0
         && ParseReg(ops[0]) == Some(Rd(w)) && ParseReg(ops[1]) == Some(Rt(w)) && ParseReg(ops[2]) == Some(Rs(w)))
     || (mn == "jr" && Fn(w) == 0x08 && |ops| == 1 && Rt(w) == 0 && Rd(w) == 0 && Shamt(w) == 0
         && ParseReg(ops[0]) == Some(Rs(w)))
     || (mn == "jalr" && Fn(w) == 0x09 && |ops| == 2 && Rt(w) == 0 && Shamt(w) == 0
         && ParseReg(ops[0]) == Some(Rd(w)) && ParseReg(ops[1]) == Some(Rs(w))))
  }

  predicate SpelledImmediate(ln: Line, w: Word) {
    var mn, ops := ln.mnemonic, ln.operands;
    || ((mn, Op(w)) in SIGNED_IMMEDIATES && |ops| == 3
        && ParseReg(ops[0]) == Some(Rt(w)) && ParseReg(ops[1]) == Some(Rs(w)) && ParseImm(ops[2]) == Some(Simm(w)))
    || ((mn, Op(w)) in UNSIGNED_IMMEDIATES && |ops| == 3
        && ParseReg(ops[0]) == Some(Rt(w)) && ParseReg(ops[1]) == Some(Rs(w)) && ParseImm(ops[2]) == Some(Imm(w)))
    || (mn == "lui" && Op(w) == 0x0F && |ops| == 2 && Rs(w) == 0
        && ParseReg(ops[0]) == Some(Rt(w)) && ParseImm(ops[1]) == Some(Imm(w)))
    || ((mn, Op(w)) in ACCESSES && |ops| == 2
        && ParseReg(ops[0]) == Some(Rt(w)) && ParseMemOperand(ops[1]) == Some((Simm(w), Rs(w))))
  }

  predicate Readable(labels: map<string, nat>, tok: string) {
    ParseImm(tok).Some? || tok in labels
  }

  /** A number stands for itself, anything else for a label, counted from `base`. */
  function Place(labels: map<string, nat>, tok: string, base: int): int
    requires Readable(labels, tok)
  {
    if ParseImm(tok).Some? then ParseImm(tok).value else labels[tok] - base
  }

  predicate Written(labels: map<string, nat>, tok: string, base: int, v: int) {
    Readable(labels, tok) && Place(labels, tok, base) == v
  }

  predicate SpelledTransfer(labels: map<string, nat>, idx: nat, ln: Line, w: Word) {
    var mn, ops := ln.mnemonic, ln.operands;
    || ((mn, Op(w)) in BRANCHES && |ops| == 3
        && ParseReg(ops[0]) == Some(Rs(w)) && ParseReg(ops[1]) == Some(Rt(w)) && Written(labels, ops[2], idx + 1, Simm(w)))
    || ((mn, Op(w)) in JUMPS && |ops| == 1 && Written(labels, ops[0], 0, w % 0x400_0000))
  }

  /** Line `ln`, at instruction `idx`, spells the word `w`. */
  predicate Spells(labels: map<string, nat>, idx: nat, ln: Line, w: Word) {
    || (ln.mnemonic == "nop" && w == 0)
    || SpelledRegister(ln, w)
    || SpelledImmediate(ln, w)
    || SpelledTransfer(labels, idx, ln, w)
  }

  // ---- Refusals ----

  ghost predicate Named(table: set<(string, nat)>, mn: string) {
    exists n: nat :: (mn, n) in table
  }

  /** The number of operands a mnemonic takes; 0 stands for a mnemonic that is not known,
      and for `nop`, which takes any number. */
  ghost function Arity(mn: string): nat {
    if Named(THREE_REGISTERS, mn) || Named(SHIFTS, mn) || Named(VARIABLE_SHIFTS, mn) || Named(SIGNED_IMMEDIATES, mn)
      || Named(UNSIGNED_IMMEDIATES, mn) || Named(BRANCHES, mn) then 3
    else if mn == "jalr" || mn == "lui" || Named(ACCESSES, mn) then 2
    else if mn == "jr" || Named(JUMPS, mn) then 1
    else 0
  }

  /** The first `n` operands are registers. */
  predicate AllRegisters(ops: seq<string>, n: nat) {
    n <= |ops| && forall k :: 0 <= k < n ==> ParseReg(ops[k]).Some?
  }

  /** Why a line with the right number of operands is refused. */
  ghost predicate Faulty(labels: map<string, nat>, idx: nat, ln: Line, p: Problem) {
    var mn, ops := ln.mnemonic, ln.operands;
    if Named(THREE_REGISTERS, mn) || Named(VARIABLE_SHIFTS, mn) || mn == "jr" || mn == "jalr" then
      p == BadRegister && !AllRegisters(ops, |ops|)
    else if Named(SHIFTS, mn) || Named(SIGNED_IMMEDIATES, mn) || Named(UNSIGNED_IMMEDIATES, mn) || mn == "lui" then
      (if |ops| == 0 || !AllRegisters(ops, |ops| - 1) || ParseImm(ops[|ops| - 1]).None? then p == BadOperands
       else
         var v := ParseImm(ops[|ops| - 1]).value;
         if Named(SHIFTS, mn) then p == ShiftRange && !(0 <= v < 32)
         else if Named(SIGNED_IMMEDIATES, mn) then p == SignedRange && !(-0x8000 <= v < 0x8000)
         else p == UnsignedRange && !(0 <= v < 0x1_0000))
    else if Named(ACCESSES, mn) then
      (if !AllRegisters(ops, 1) then p == BadRegister
       else if |ops| < 2 || ParseMemOperand(ops[1]).None? then p == NotMemory
       else p == OffsetRange && !(-0x8000 <= ParseMemOperand(ops[1]).value.0 < 0x8000))
    else if Named(BRANCHES, mn) then
      (if !AllRegisters(ops, 2) then p == BadRegister
       else if |ops| != 3 then false
       else if !Readable(labels, ops[2]) then p == UndefinedLabel(ops[2])
       else p == BranchRange && !(-0x8000 <= Place(labels, ops[2], idx + 1) < 0x8000))
    else
      (if |ops| != 1 then false
       else if !Readable(labels, ops[0]) then p == UndefinedLabel(ops[0])
       else p == JumpRange && !(0 <= Place(labels, ops[0], 0) < 0x400_0000))
  }

  /** The reason a line is refused. */
  ghost predicate Refuses(labels: map<string, nat>, idx: nat, ln: Line, p: Problem) {
    var n := Arity(ln.mnemonic);
    if ln.mnemonic == "nop" then false
    else if n == 0 then p == UnknownMnemonic(ln.mnemonic)
    else if |ln.operands| != n then p == OperandCount
    else Faulty(labels, idx, ln, p)
  }

  // ---- Registers ----

  /** The ABI names, in register order. */
  const REGISTERS: seq<string> := [
    "zero", "at", "v0", "v1", "a0", "a1", "a2", "a3", "t0", "t1", "t2", "t3", "t4", "t5", "t6", "t7",
    "s0", "s1", "s2", "s3", "s4", "s5", "s6", "s7", "t8", "t9", "k0", "k1", "gp", "sp", "fp", "ra"]

  /** `$` and the ABI name or the number of the register. */
  predicate NamesRegister(tok: string, r: RegIndex) {
    || tok == "$" + REGISTERS[r]
    || (|tok| > 1 && tok[0] == '$' && '0' <= tok[1] <= '9' && Number(tok[1..], 10) == Some(r))
  }
}
