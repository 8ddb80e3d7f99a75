/** Software breakpoints (`GdbStub::insert_breakpoint`, `remove_breakpoint`): BREAK
    words laid over memory, and the words they cover. */
module GdbBreakpoints {
  import opened Words
  import opened Memory
  import Isa
  import Manual
  import ManualProof

  const BREAK_WORD: Word := 0x0000_000D

  datatype Breakpoint = Breakpoint(addr: Word, savedWord: Word)

  datatype Overlay = Overlay(mem: Bytes, list: seq<Breakpoint>)

  predicate Listed(list: seq<Breakpoint>, addr: Word) {
    exists i :: 0 <= i < |list| && list[i].addr == addr
  }

  /** Position of the first breakpoint at `addr`, or the length of the list. */
  function Position(list: seq<Breakpoint>, addr: Word): (i: nat)
    ensures i <= |list|
    ensures i < |list| ==> list[i].addr == addr
    ensures forall k :: 0 <= k < i ==> list[k].addr != addr
  {
    if list == [] || list[0].addr == addr then 0 else 1 + Position(list[1..], addr)
  }

  function Insert(o: Overlay, addr: Word): (Overlay, bool) {
    if Position(o.list, addr) < |o.list| then (o, true)
    else
      match ReadWord(o.mem, addr)
      case None => (o, false)
      case Some(word) => (Overlay(PutWord(o.mem, addr, BREAK_WORD), o.list + [Breakpoint(addr, word)]), true)
  }

  function Remove(o: Overlay, addr: Word): (Overlay, bool) {
    var i := Position(o.list, addr);
    if i == |o.list| then (o, false)
    else (Overlay(WriteWord(o.mem, addr, o.list[i].savedWord).0, Without(o.list, i)), true)
  }

  predicate InWord(addr: Word, i: nat) {
    addr <= i < addr + 4
  }

  /** Memory is `original` with BREAK at exactly the listed words, and the list
      remembers what each of them covers. */
  ghost predicate Covers(o: Overlay, original: Bytes) {
    && |o.mem| == |original|
    && Distinct(o.list)
    && (forall i :: 0 <= i < |o.list| ==> Armed(o.mem, o.list[i], original))
    && (forall k :: 0 <= k < |original| && !Under(o.list, k) ==> o.mem[k] == original[k])
  }

  predicate Distinct(list: seq<Breakpoint>) {
    forall i, j {:trigger list[i], list[j]} :: 0 <= i < j < |list| ==> list[i].addr != list[j].addr
  }

  /** One breakpoint in place, remembering what it covers. */
  predicate Armed(mem: Bytes, b: Breakpoint, original: Bytes) {
    && WordAt(original, b.addr)
    && ReadWord(mem, b.addr) == Some(BREAK_WORD)
    && Some(b.savedWord) == ReadWord(original, b.addr)
  }

  /** Byte `k` lies under a breakpoint. */
  predicate Under(list: seq<Breakpoint>, k: nat) {
    exists i :: 0 <= i < |list| && InWord(list[i].addr, k)
  }

  lemma InsertCovers(o: Overlay, addr: Word, original: Bytes)
    requires Covers(o, original)
    ensures var (n, ok) := Insert(o, addr);
            && Covers(n, original)
            && ok == WordAt(original, addr)
            && (ok ==> Listed(n.list, addr))
            && (forall a: Word :: a != addr ==> (Listed(n.list, a) <==> Listed(o.list, a)))
  {
    if Position(o.list, addr) == |o.list| && WordAt(original, addr) {
      PutOnCovers(o, addr, original);
      AddedListed(o.list, Breakpoint(addr, ReadWord(o.mem, addr).value));
    }
  }

  lemma AddedListed(list: seq<Breakpoint>, b: Breakpoint)
    ensures forall a: Word :: Listed(list + [b], a) <==> Listed(list, a) || a == b.addr
  {
    var r := list + [b];
    assert r[|list|].addr == b.addr;
    forall a: Word | Listed(list, a) ensures Listed(r, a) {
      var i :| 0 <= i < |list| && list[i].addr == a;
      assert r[i].addr == a;
    }
  }

  lemma PutOnCovers(o: Overlay, addr: Word, original: Bytes)
    requires Covers(o, original) && WordAt(original, addr) && !Listed(o.list, addr)
    ensures Covers(Overlay(PutWord(o.mem, addr, BREAK_WORD),
                           o.list + [Breakpoint(addr, ReadWord(o.mem, addr).value)]), original)
  {
    var saved := Breakpoint(addr, ReadWord(o.mem, addr).value);
    var n := Overlay(PutWord(o.mem, addr, BREAK_WORD), o.list + [saved]);
    UncoveredWord(o, addr, original);
    DistinctOneMore(o.list, saved);
    hide PutWord, ReadWord, Armed, Under, Distinct, Listed;
    assert forall i :: 0 <= i < |o.list| ==> n.list[i] == o.list[i];
    forall i | 0 <= i < |n.list| ensures Armed(n.mem, n.list[i], original) {
      if i < |o.list| {
        NotListedAt(o.list, addr, i);
      }
      ArmedAfterPut(o.mem, addr, BREAK_WORD, n.list[i], original);
    }
    forall k | 0 <= k < |original| && !Under(n.list, k) ensures n.mem[k] == original[k] {
      UnderOneMore(o.list, saved, k);
      KeptByte(o.mem, addr, BREAK_WORD, k);
    }
  }

  /** A store of a word disarms no breakpoint elsewhere, and arms one of its own with BREAK. */
  lemma ArmedAfterPut(mem: Bytes, addr: Word, value: Word, b: Breakpoint, original: Bytes)
    requires |mem| == |original| && WordAt(mem, addr)
    requires if b.addr == addr then value == BREAK_WORD && Some(b.savedWord) == ReadWord(original, addr)
             else Armed(mem, b, original)
    ensures Armed(PutWord(mem, addr, value), b, original)
  {
    hide PutWord, ReadWord;
    ReadAfterPut(mem, addr, value, b.addr);
  }

  lemma NotListedAt(list: seq<Breakpoint>, addr: Word, i: nat)
    requires i < |list| && !Listed(list, addr)
    ensures list[i].addr != addr
  {
  }

  lemma DistinctOneMore(list: seq<Breakpoint>, b: Breakpoint)
    requires Distinct(list) && !Listed(list, b.addr)
    ensures Distinct(list + [b])
  {
  }

  lemma UnderOneMore(list: seq<Breakpoint>, b: Breakpoint, k: nat)
    ensures Under(list + [b], k) <==> Under(list, k) || InWord(b.addr, k)
  {
    hide InWord;
    var r := list + [b];
    if Under(list, k) {
      var i :| 0 <= i < |list| && InWord(list[i].addr, k);
      assert InWord(r[i].addr, k);
    }
    if InWord(b.addr, k) {
      assert InWord(r[|list|].addr, k);
    }
  }

  /** Distinct words share no byte. */
  lemma WordsApart(m: Bytes, a: Word, b: Word, k: nat)
    requires WordAt(m, a) && WordAt(m, b) && a != b && InWord(a, k)
    ensures !InWord(b, k)
  {
  }

  lemma ByteNotListed(o: Overlay, addr: Word, original: Bytes, k: nat)
    requires Covers(o, original) && WordAt(original, addr) && !Listed(o.list, addr) && InWord(addr, k)
    ensures o.mem[k] == original[k]
  {
    hide ReadWord;
    forall i | 0 <= i < |o.list| ensures !InWord(o.list[i].addr, k) {
      assert Armed(o.mem, o.list[i], original) && o.list[i].addr != addr;
      WordsApart(original, addr, o.list[i].addr, k);
    }
    assert !Under(o.list, k);
  }

  /** A word without a breakpoint still holds the original. */
  lemma UncoveredWord(o: Overlay, addr: Word, original: Bytes)
    requires Covers(o, original) && WordAt(original, addr) && !Listed(o.list, addr)
    ensures ReadWord(o.mem, addr) == ReadWord(original, addr)
  {
    hide Listed;
    assert |o.mem| == |original|;
    forall k | addr <= k < addr + 4 ensures o.mem[k] == original[k] {
      assert InWord(addr, k);
      ByteNotListed(o, addr, original, k);
    }
  }

  function Without(list: seq<Breakpoint>, at: nat): (r: seq<Breakpoint>)
    requires at < |list|
    ensures |r| == |list| - 1
    ensures forall i :: 0 <= i < |r| ==> r[i] == list[if i < at then i else i + 1]
    ensures forall i :: 0 <= i < |list| && i != at ==> list[i] == r[if i < at then i else i - 1]
  {
    list[..at] + list[at + 1..]
  }

  lemma WithoutListed(list: seq<Breakpoint>, at: nat, a: Word)
    requires at < |list|
    requires Distinct(list)
    ensures Listed(Without(list, at), a) <==> Listed(list, a) && a != list[at].addr
  {
    hide Without;
    var r := Without(list, at);
    if Listed(r, a) {
      var i :| 0 <= i < |r| && r[i].addr == a;
      var j := if i < at then i else i + 1;
      assert r[i] == list[j] && j != at;
    }
    if Listed(list, a) && a != list[at].addr {
      var i :| 0 <= i < |list| && list[i].addr == a;
      assert r[if i < at then i else i - 1] == list[i];
    }
  }

  lemma RemoveCovers(o: Overlay, addr: Word, original: Bytes)
    requires Covers(o, original)
    ensures var (n, ok) := Remove(o, addr);
            && Covers(n, original)
            && ok == Listed(o.list, addr)
            && !Listed(n.list, addr)
            && (forall a: Word :: a != addr ==> (Listed(n.list, a) <==> Listed(o.list, a)))
  {
    var at := Position(o.list, addr);
    if at < |o.list| {
      forall a: Word ensures Listed(Without(o.list, at), a) <==> Listed(o.list, a) && a != addr {
        WithoutListed(o.list, at, a);
      }
      TakenOffCovers(o, at, original);
    }
  }

  lemma TakenOffCovers(o: Overlay, at: nat, original: Bytes)
    requires Covers(o, original) && at < |o.list|
    ensures Covers(Overlay(PutWord(o.mem, o.list[at].addr, o.list[at].savedWord), Without(o.list, at)), original)
  {
    hide PutWord, ReadWord, Under, Without;
    var b := o.list[at];
    var n := Overlay(PutWord(o.mem, b.addr, b.savedWord), Without(o.list, at));
    assert Armed(o.mem, b, original);
    hide Armed;
    forall i | 0 <= i < |n.list| ensures Armed(n.mem, n.list[i], original) {
      var j := if i < at then i else i + 1;
      assert n.list[i] == o.list[j] && Armed(o.mem, o.list[j], original);
      ArmedAfterPut(o.mem, b.addr, b.savedWord, n.list[i], original);
    }
    forall k | 0 <= k < |original| && !Under(n.list, k) ensures n.mem[k] == original[k] {
      if Under(o.list, k) && !InWord(b.addr, k) {
        UnderOneLess(o.list, at, k);
      }
      RestoredByte(o, at, original, k);
    }
  }

  lemma UnderOneLess(list: seq<Breakpoint>, at: nat, k: nat)
    requires at < |list| && Under(list, k) && !InWord(list[at].addr, k)
    ensures Under(Without(list, at), k)
  {
    hide InWord, Without;
    var i :| 0 <= i < |list| && InWord(list[i].addr, k);
    assert list[i] == Without(list, at)[if i < at then i else i - 1];
  }

  lemma RestoredByte(o: Overlay, at: nat, original: Bytes, k: nat)
    requires Covers(o, original) && at < |o.list| && k < |original|
    requires InWord(o.list[at].addr, k) || !Under(o.list, k)
    ensures PutWord(o.mem, o.list[at].addr, o.list[at].savedWord)[k] == original[k]
  {
    var b := o.list[at];
    assert Armed(o.mem, b, original);
    if InWord(b.addr, k) {
      RestoredWord(o.mem, b.addr, original, k);
    } else {
      KeptByte(o.mem, b.addr, b.savedWord, k);
    }
  }

  lemma RestoredWord(mem: Bytes, addr: Word, original: Bytes, k: nat)
    requires |mem| == |original| && WordAt(original, addr) && InWord(addr, k)
    ensures PutWord(mem, addr, ReadWord(original, addr).value)[k] == original[k]
  {
    JoinSplit(original[addr], original[addr + 1], original[addr + 2], original[addr + 3]);
  }

  datatype Op = InsertAt(addr: Word) | RemoveAt(addr: Word)

  function Apply(o: Overlay, op: Op): Overlay {
    match op
    case InsertAt(addr) => Insert(o, addr).0
    case RemoveAt(addr) => Remove(o, addr).0
  }

  function ApplyAll(o: Overlay, ops: seq<Op>): Overlay {
    if ops == [] then o else Apply(ApplyAll(o, ops[..|ops| - 1]), ops[|ops| - 1])
  }

  /** The addresses a debugger expects to be armed: those whose last command was an
      insertion, if memory has a word there. */
  predicate Wanted(original: Bytes, ops: seq<Op>, addr: Word) {
    ops != [] &&
    var last := ops[|ops| - 1];
    if last.addr == addr then last.InsertAt? && WordAt(original, addr)
    else Wanted(original, ops[..|ops| - 1], addr)
  }

  /** Any interleaving of insertions and removals: memory is the original with BREAK at
      exactly the armed words. When none is left, in whatever order they went, memory is
      the original, byte for byte. */
  lemma {:induction false} OverlayIsExact(original: Bytes, ops: seq<Op>)
    ensures var o := ApplyAll(Overlay(original, []), ops);
            && Covers(o, original)
            && (forall a: Word :: Listed(o.list, a) <==> Wanted(original, ops, a))
            && (o.list == [] ==> o.mem == original)
  {
    hide Covers, Listed;
    if ops == [] {
      EmptyCovers(original);
    } else {
      var init, op := ops[..|ops| - 1], ops[|ops| - 1];
      var o := ApplyAll(Overlay(original, []), init);
      OverlayIsExact(original, init);
      if op.InsertAt? {
        InsertCovers(o, op.addr, original);
        if !WordAt(original, op.addr) {
          NoWordNotListed(o, original, op.addr);
        }
      } else {
        RemoveCovers(o, op.addr, original);
      }
    }
    NoneLeft(ApplyAll(Overlay(original, []), ops), original);
  }

  lemma NoWordNotListed(o: Overlay, original: Bytes, addr: Word)
    requires Covers(o, original) && !WordAt(original, addr)
    ensures !Listed(o.list, addr) && !Listed(Insert(o, addr).0.list, addr)
  {
  }

  lemma EmptyCovers(original: Bytes)
    ensures Covers(Overlay(original, []), original)
    ensures forall a: Word :: !Listed([], a)
  {
  }

  lemma NoneLeft(o: Overlay, original: Bytes)
    requires Covers(o, original)
    ensures o.list == [] ==> o.mem == original
  {
  }

  /** Where a breakpoint is set the CPU traps, with the code of BREAK; elsewhere it finds the
      original word. */
  lemma StopsAtBreakpoint(o: Overlay, original: Bytes, a: Isa.Arch)
    requires Covers(o, original) && a.mem == o.mem
    ensures Listed(o.list, a.pc) ==>
              ReadWord(a.mem, a.pc) == Some(0x0000_000D) && Manual.Traps(a, Isa.Step(a).0, Isa.Step(a).1, 9, 0)
    ensures !Listed(o.list, a.pc) ==> ReadWord(a.mem, a.pc) == ReadWord(original, a.pc)
  {
    hide Isa.Step, ReadWord, Manual.Traps, PutWord;
    if Listed(o.list, a.pc) {
      var i :| 0 <= i < |o.list| && o.list[i].addr == a.pc;
      assert Armed(o.mem, o.list[i], original);
      BreakIsBreak();
      ManualProof.TrapInstructionsMean(a, BREAK_WORD);
    } else if WordAt(original, a.pc) {
      UncoveredWord(o, a.pc, original);
    } else {
      NoWordRead(a.mem, original, a.pc);
    }
  }

  lemma BreakIsBreak()
    ensures Manual.Op(BREAK_WORD) == 0 && Manual.Fn(BREAK_WORD) == 0x0D
  {
  }

  lemma NoWordRead(m: Bytes, n: Bytes, addr: Word)
    requires |m| == |n| && !WordAt(n, addr)
    ensures ReadWord(m, addr) == ReadWord(n, addr) == None
  {
  }

  class BreakpointTable {
    const mem: MemoryUnit
    var breakpoints: seq<Breakpoint>

    constructor (mem: MemoryUnit)
      ensures this.mem == mem && breakpoints == []
    {
      this.mem := mem;
      breakpoints := [];
    }

    ghost function View(): Overlay
      reads this, mem, mem.data
    {
      Overlay(mem.Contents(), breakpoints)
    }

    method InsertBreakpoint(addr: Word) returns (ok: bool)
      modifies this, mem.data
      ensures (View(), ok) == Insert(old(View()), addr)
    {
      for i := 0 to |breakpoints|
        invariant View() == old(View())
        invariant forall k :: 0 <= k < i ==> breakpoints[k].addr != addr
      {
        if breakpoints[i].addr == addr {
          assert Position(breakpoints, addr) <= i;
          return true;
        }
      }
      assert Position(breakpoints, addr) == |breakpoints|;
      var word := mem.ReadWordAt(addr);
      if word.None? {
        return false;
      }
      ok := mem.WriteWordAt(addr, BREAK_WORD);
      if !ok {
        return false;
      }
      breakpoints := breakpoints + [Breakpoint(addr, word.value)];
    }

    method RemoveBreakpoint(addr: Word) returns (ok: bool)
      modifies this, mem.data
      ensures (View(), ok) == Remove(old(View()), addr)
    {
      for i := 0 to |breakpoints|
        invariant View() == old(View())
        invariant forall k :: 0 <= k < i ==> breakpoints[k].addr != addr
      {
        if breakpoints[i].addr == addr {
          assert Position(breakpoints, addr) == i by {
            FirstAt(breakpoints, addr, i);
          }
          var _ := mem.WriteWordAt(addr, breakpoints[i].savedWord);
          breakpoints := breakpoints[..i] + breakpoints[i + 1..];
          return true;
        }
      }
      assert Position(breakpoints, addr) == |breakpoints|;
      return false;
    }
  }

  lemma FirstAt(list: seq<Breakpoint>, addr: Word, i: nat)
    requires i < |list| && list[i].addr == addr
    requires forall k :: 0 <= k < i ==> list[k].addr != addr
    ensures Position(list, addr) == i
  {
    assert !(Position(list, addr) < i) && !(i < Position(list, addr));
  }
}
