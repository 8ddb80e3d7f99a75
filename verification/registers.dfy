/** The general-purpose register file (`isa::RegisterFile`): $zero is hardwired. */
module Registers {
  import opened Words

  type Regs = r: seq<Word> | |r| == 32 witness seq(32, _ => 0)

  const ZERO_REGS: Regs := seq(32, _ => 0)

  function ReadReg(r: Regs, idx: RegIndex): Word {
    if idx == 0 then 0 else r[idx]
  }

  function WriteReg(r: Regs, idx: RegIndex, value: Word): (r': Regs)
  {
    if idx == 0 then r else r[idx := value]
  }

  lemma ReadAfterWrite(r: Regs, idx: RegIndex, value: Word, at: RegIndex)
    ensures ReadReg(WriteReg(r, idx, value), at) == if at == idx && idx != 0 then value else ReadReg(r, at)
  {
  }

  class RegisterFile {
    const regs: array<Word>

    constructor ()
      ensures fresh(regs) && Valid() && Contents() == ZERO_REGS
    {
      regs := new Word[32](_ => 0);
      new;
      assert regs[..] == seq(32, _ => 0);
    }

    ghost predicate Valid() {
      regs.Length == 32
    }

    ghost function Contents(): Regs
      requires Valid()
      reads regs
    {
      regs[..]
    }

    // The mask keeps a malformed index in range; decoded indices are below 32.
    method Read(idx: Byte) returns (value: Word)
      requires Valid()
      ensures value == if idx == 0 then 0 else Contents()[idx % 32]
      ensures idx < 32 ==> value == ReadReg(Contents(), idx)
    {
      if idx == 0 {
        return 0;
      }
      return regs[idx % 32];
    }

    method Write(idx: Byte, value: Word)
      requires Valid()
      modifies regs
      ensures Contents() == if idx == 0 then old(Contents()) else old(Contents())[idx % 32 := value]
      ensures idx < 32 ==> Contents() == WriteReg(old(Contents()), idx, value)
    {
      if idx == 0 {
        return;
      }
      ghost var before := regs[..];
      regs[idx % 32] := value;
      assert regs[..] == before[idx % 32 := value];
    }

    method Reset()
      requires Valid()
      modifies regs
      ensures Contents() == ZERO_REGS
    {
      for i := 0 to 32
        invariant forall k :: 0 <= k < i ==> regs[k] == 0
      {
        regs[i] := 0;
      }
      assert regs[..] == seq(32, _ => 0);
    }
  }
}
