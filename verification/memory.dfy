/** Flat little-endian memory (`isa::Memory`). The functions give its meaning on
    byte sequences; the class is the mutable object, proved against them. */
module Memory {
  import opened Words

  type Bytes = seq<Byte>

  predicate InBounds(m: Bytes, addr: Word, n: nat) {
    addr + n <= |m|
  }

  predicate WordAt(m: Bytes, addr: Word) {
    addr % 4 == 0 && InBounds(m, addr, 4)
  }

  predicate HalfAt(m: Bytes, addr: Word) {
    addr % 2 == 0 && InBounds(m, addr, 2)
  }

  function Join(b0: Byte, b1: Byte, b2: Byte, b3: Byte): Word {
    b0 as int + 0x100 * b1 + 0x1_0000 * b2 + 0x100_0000 * b3
  }

  function JoinHalf(b0: Byte, b1: Byte): Half {
    b0 as int + 0x100 * b1
  }

  function ReadWord(m: Bytes, addr: Word): Option<Word> {
    if WordAt(m, addr)
    then Some(Join(m[addr], m[addr + 1], m[addr + 2], m[addr + 3]))
    else None
  }

  function ReadHalf(m: Bytes, addr: Word): Option<Half> {
    if HalfAt(m, addr) then Some(JoinHalf(m[addr], m[addr + 1])) else None
  }

  function ReadByte(m: Bytes, addr: Word): Option<Byte> {
    if InBounds(m, addr, 1) then Some(m[addr]) else None
  }

  function ByteOf(value: Word, k: nat): Byte
    requires k < 4
  {
    if k == 0 then value % 0x100
    else if k == 1 then (value / 0x100) % 0x100
    else if k == 2 then (value / 0x1_0000) % 0x100
    else value / 0x100_0000
  }

  /** The memory after a successful word store: every byte outside the word is kept. */
  function PutWord(m: Bytes, addr: Word, value: Word): (m': Bytes)
    requires WordAt(m, addr)
    ensures |m'| == |m|
  {
    m[addr := ByteOf(value, 0)]
     [addr + 1 := ByteOf(value, 1)]
     [addr + 2 := ByteOf(value, 2)]
     [addr + 3 := ByteOf(value, 3)]
  }

  function PutHalf(m: Bytes, addr: Word, value: Half): (m': Bytes)
    requires HalfAt(m, addr)
    ensures |m'| == |m|
  {
    m[addr := value % 0x100][addr + 1 := value / 0x100]
  }

  /** Stores as the source performs them: a failed store leaves memory unchanged. */
  function WriteWord(m: Bytes, addr: Word, value: Word): (r: (Bytes, bool))
    ensures |r.0| == |m|
    ensures !r.1 ==> r.0 == m
  {
    if WordAt(m, addr) then (PutWord(m, addr, value), true) else (m, false)
  }

  /** An address computed in 32 bits. */
  function Wrapped(addr: nat): Word {
    addr % WORD_LIMIT
  }

  lemma WrapsAligned(addr: nat)
    ensures addr % 4 == 0 ==> Wrapped(addr) % 4 == 0
    ensures Wrapped(addr) <= addr
    ensures addr < WORD_LIMIT ==> Wrapped(addr) == addr
  {
  }

  /** A bulk load: the room is checked in full width, the stores are addressed in 32 bits. */
  function LoadWords(m: Bytes, addr: Word, words: seq<Word>): (m': Bytes)
    requires addr % 4 == 0
    requires addr + 4 * |words| <= |m|
    ensures |m'| == |m|
    decreases |words|
  {
    if words == [] then m
    else
      var at := addr + 4 * (|words| - 1);
      WrapsAligned(at);
      PutWord(LoadWords(m, addr, words[..|words| - 1]), Wrapped(at), words[|words| - 1])
  }

  lemma ByteSplit(value: Word)
    ensures Join(ByteOf(value, 0), ByteOf(value, 1), ByteOf(value, 2), ByteOf(value, 3)) == value
  {
    var high := value / 0x100;
    var higher := high / 0x100;
    DivTwice(value, 0x100, 0x100);
    DivTwice(value, 0x1_0000, 0x100);
    assert value == 0x100 * high + ByteOf(value, 0);
    assert high == 0x100 * higher + ByteOf(value, 1);
    assert higher == 0x100 * ByteOf(value, 3) + ByteOf(value, 2);
  }

  lemma JoinSplit(b0: Byte, b1: Byte, b2: Byte, b3: Byte)
    ensures var v := Join(b0, b1, b2, b3);
            ByteOf(v, 0) == b0 && ByteOf(v, 1) == b1 && ByteOf(v, 2) == b2 && ByteOf(v, 3) == b3
  {
    var v := Join(b0, b1, b2, b3);
    var top := b2 + 0x100 * (b3 as int);
    var mid := b1 + 0x100 * top;
    DivUnique(v, 0x100, mid, b0);
    DivUnique(mid, 0x100, top, b1);
    DivTwice(v, 0x100, 0x100);
    DivUnique(top, 0x100, b3, b2);
    DivTwice(v, 0x1_0000, 0x100);
  }

  lemma HalvesOf(value: Word)
    ensures JoinHalf(ByteOf(value, 0), ByteOf(value, 1)) == value % 0x1_0000
    ensures JoinHalf(ByteOf(value, 2), ByteOf(value, 3)) == value / 0x1_0000
  {
    ByteSplit(value);
    DivUnique(value, 0x1_0000, JoinHalf(ByteOf(value, 2), ByteOf(value, 3)), JoinHalf(ByteOf(value, 0), ByteOf(value, 1)));
  }

  /** The byte order, little-endian: the halves and bytes of a stored word, lowest first. */
  lemma PartsAfterPut(m: Bytes, addr: Word, value: Word)
    requires WordAt(m, addr)
    ensures var m' := PutWord(m, addr, value);
            && ReadHalf(m', addr) == Some(value % 0x1_0000)
            && ReadHalf(m', addr + 2) == Some(value / 0x1_0000)
            && ReadByte(m', addr) == Some(value % 256)
            && ReadByte(m', addr + 1) == Some((value / 256) % 256)
            && ReadByte(m', addr + 2) == Some((value / 0x1_0000) % 256)
            && ReadByte(m', addr + 3) == Some(value / 0x100_0000)
  {
    HalvesOf(value);
    var m' := PutWord(m, addr, value);
    assert m'[addr] == ByteOf(value, 0) && m'[addr + 1] == ByteOf(value, 1);
    assert m'[addr + 2] == ByteOf(value, 2) && m'[addr + 3] == ByteOf(value, 3);
    hide PutWord, JoinHalf;
  }

  /** A half-word store is read back, low byte first, and keeps every other byte. */
  lemma PartsAfterPutHalf(m: Bytes, addr: Word, value: Half)
    requires HalfAt(m, addr)
    ensures var m' := PutHalf(m, addr, value);
            && ReadHalf(m', addr) == Some(value)
            && ReadByte(m', addr) == Some(value % 256)
            && ReadByte(m', addr + 1) == Some(value / 256)
            && forall i: nat | i < |m| && i != addr && i != addr + 1 :: m'[i] == m[i]
  {
  }

  /** A word store is read back at its own address and nowhere else. */
  lemma ReadAfterPut(m: Bytes, addr: Word, value: Word, at: Word)
    requires WordAt(m, addr)
    ensures ReadWord(PutWord(m, addr, value), at) == if at == addr then Some(value) else ReadWord(m, at)
  {
    if at == addr {
      ByteSplit(value);
    } else if WordAt(m, at) {
      var m' := PutWord(m, addr, value);
      assert at + 4 <= addr || addr + 4 <= at;
      assert m'[at] == m[at] && m'[at + 1] == m[at + 1] && m'[at + 2] == m[at + 2] && m'[at + 3] == m[at + 3];
    }
  }

  /** Storing what a word already holds changes nothing. */
  lemma PutSame(m: Bytes, addr: Word)
    requires WordAt(m, addr)
    ensures PutWord(m, addr, ReadWord(m, addr).value) == m
  {
    hide Join, ByteOf;
    JoinSplit(m[addr], m[addr + 1], m[addr + 2], m[addr + 3]);
  }

  /** Stores to different words commute. */
  lemma PutCommutes(m: Bytes, a: Word, x: Word, b: Word, y: Word)
    requires WordAt(m, a) && WordAt(m, b) && a != b
    ensures PutWord(PutWord(m, a, x), b, y) == PutWord(PutWord(m, b, y), a, x)
  {
    assert a + 4 <= b || b + 4 <= a;
    var l := PutWord(PutWord(m, a, x), b, y);
    var r := PutWord(PutWord(m, b, y), a, x);
    forall i | 0 <= i < |m| ensures l[i] == r[i] {}
  }

  lemma LoadNothing(m: Bytes, addr: Word)
    requires addr % 4 == 0 && addr <= |m|
    ensures LoadWords(m, addr, []) == m
  {
  }

  lemma LoadOneMore(m: Bytes, addr: Word, words: seq<Word>, i: nat)
    requires addr % 4 == 0 && i < |words| && addr + 4 * |words| <= |m|
    ensures WordAt(m, Wrapped(addr + 4 * i))
    ensures LoadWords(m, addr, words[..i + 1]) ==
            PutWord(LoadWords(m, addr, words[..i]), Wrapped(addr + 4 * i), words[i])
  {
    hide PutWord;
    WrapsAligned(addr + 4 * i);
    assert words[..i + 1][..i] == words[..i];
  }

  const WORDS_ADDRESSABLE: nat := 0x4000_0000

  /** Fewer than 2^30 words apart, two words of an image are stored at different addresses. */
  lemma WrapsApart(addr: nat, j: nat, k: nat)
    requires j < k < j + WORDS_ADDRESSABLE
    ensures Wrapped(addr + 4 * j) != Wrapped(addr + 4 * k)
  {
  }

  predicate InImage(addr: nat, n: nat, i: nat) {
    exists k: nat :: k < n && Wrapped(addr + 4 * k) <= i < Wrapped(addr + 4 * k) + 4
  }

  /** A loaded image holds its words, in order: all of them unless there are more than 32-bit
      addresses, and then the last 2^30. The rest of memory is left alone. */
  lemma {:induction false} LoadedImage(m: Bytes, addr: Word, words: seq<Word>)
    requires addr % 4 == 0
    requires addr + 4 * |words| <= |m|
    ensures forall k: nat :: |words| - WORDS_ADDRESSABLE <= k < |words| ==>
              ReadWord(LoadWords(m, addr, words), Wrapped(addr + 4 * k)) == Some(words[k])
    ensures forall i: nat :: i < |m| && !InImage(addr, |words|, i) ==> LoadWords(m, addr, words)[i] == m[i]
  {
    hide LoadWords, ReadWord, Wrapped, PutWord, InImage;
    if words == [] {
      LoadNothing(m, addr);
    } else {
      var n := |words| - 1;
      LoadedImage(m, addr, words[..n]);
      LoadOneMore(m, addr, words, n);
      assert words[..n + 1] == words;
      forall k: nat | |words| - WORDS_ADDRESSABLE <= k < |words|
        ensures ReadWord(LoadWords(m, addr, words), Wrapped(addr + 4 * k)) == Some(words[k])
      {
        ReadAfterPut(LoadWords(m, addr, words[..n]), Wrapped(addr + 4 * n), words[n], Wrapped(addr + 4 * k));
        if k < n {
          WrapsApart(addr, k, n);
          assert words[..n][k] == words[k];
        }
      }
      forall i: nat | i < |m| && !InImage(addr, |words|, i)
        ensures LoadWords(m, addr, words)[i] == m[i]
      {
        ImageGrows(addr, n, i);
        KeptByte(LoadWords(m, addr, words[..n]), Wrapped(addr + 4 * n), words[n], i);
      }
    }
  }

  lemma ImageGrows(addr: nat, n: nat, i: nat)
    ensures InImage(addr, n + 1, i) <==> InImage(addr, n, i) || Wrapped(addr + 4 * n) <= i < Wrapped(addr + 4 * n) + 4
  {
    hide Wrapped;
    if InImage(addr, n, i) {
      var k: nat :| k < n && Wrapped(addr + 4 * k) <= i < Wrapped(addr + 4 * k) + 4;
      assert k < n + 1;
    }
  }

  lemma KeptByte(m: Bytes, addr: Word, value: Word, i: nat)
    requires WordAt(m, addr) && i < |m| && !(addr <= i < addr + 4)
    ensures PutWord(m, addr, value)[i] == m[i]
  {
  }

  class MemoryUnit {
    const data: array<Byte>

    constructor (size: nat)
      ensures fresh(data) && data.Length == size
      ensures data[..] == seq(size, _ => 0)
    {
      data := new Byte[size](_ => 0);
      new;
      assert data[..] == seq(size, _ => 0);
    }

    ghost function Contents(): Bytes
      reads this, data
    {
      data[..]
    }

    method ReadWordAt(addr: Word) returns (word: Option<Word>)
      ensures word == ReadWord(Contents(), addr)
    {
      if addr % 4 != 0 || addr + 4 > data.Length {
        return None;
      }
      return Some(Join(data[addr], data[addr + 1], data[addr + 2], data[addr + 3]));
    }

    method ReadHalfAt(addr: Word) returns (half: Option<Half>)
      ensures half == ReadHalf(Contents(), addr)
    {
      if addr % 2 != 0 || addr + 2 > data.Length {
        return None;
      }
      return Some(JoinHalf(data[addr], data[addr + 1]));
    }

    method ReadByteAt(addr: Word) returns (b: Option<Byte>)
      ensures b == ReadByte(Contents(), addr)
    {
      if addr + 1 > data.Length {
        return None;
      }
      return Some(data[addr]);
    }

    method WriteWordAt(addr: Word, value: Word) returns (ok: bool)
      modifies data
      ensures (Contents(), ok) == WriteWord(old(Contents()), addr, value)
    {
      if addr % 4 != 0 || addr + 4 > data.Length {
        return false;
      }
      ghost var before := data[..];
      data[addr] := ByteOf(value, 0);
      data[addr + 1] := ByteOf(value, 1);
      data[addr + 2] := ByteOf(value, 2);
      data[addr + 3] := ByteOf(value, 3);
      assert data[..] == PutWord(before, addr, value);
      return true;
    }

    method WriteHalfAt(addr: Word, value: Half) returns (ok: bool)
      modifies data
      ensures ok == HalfAt(old(Contents()), addr)
      ensures Contents() == if ok then PutHalf(old(Contents()), addr, value) else old(Contents())
    {
      if addr % 2 != 0 || addr + 2 > data.Length {
        return false;
      }
      ghost var before := data[..];
      data[addr] := value % 0x100;
      data[addr + 1] := value / 0x100;
      assert data[..] == PutHalf(before, addr, value);
      return true;
    }

    method WriteByteAt(addr: Word, value: Byte) returns (ok: bool)
      modifies data
      ensures ok == InBounds(old(Contents()), addr, 1)
      ensures Contents() == if ok then old(Contents())[addr := value] else old(Contents())
    {
      if addr + 1 > data.Length {
        return false;
      }
      ghost var before := data[..];
      data[addr] := value;
      assert data[..] == before[addr := value];
      return true;
    }

    /** Bulk load. A misaligned base is a caller bug the source aborts on. */
    method Load(addr: Word, words: seq<Word>) returns (ok: bool)
      requires addr % 4 == 0
      modifies data
      ensures ok == (addr + 4 * |words| <= data.Length)
      ensures Contents() == if ok then LoadWords(old(Contents()), addr, words) else old(Contents())
    {
      if addr + 4 * |words| > data.Length {
        return false;
      }
      hide LoadWords, Wrapped, PutWord;
      ghost var before := data[..];
      LoadNothing(before, addr);
      assert words[..0] == [];
      for i := 0 to |words|
        invariant data[..] == LoadWords(before, addr, words[..i])
      {
        LoadOneMore(before, addr, words, i);
        var stored := WriteWordAt(Wrapped(addr + 4 * i), words[i]);
      }
      assert words[..|words|] == words;
      return true;
    }

    method Reset()
      modifies data
      ensures Contents() == seq(data.Length, _ => 0)
    {
      for i := 0 to data.Length
        invariant forall k :: 0 <= k < i ==> data[k] == 0
      {
        data[i] := 0;
      }
      assert data[..] == seq(data.Length, _ => 0);
    }
  }
}
