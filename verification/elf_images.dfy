/** ELF32 files written out byte by byte, as the System V ABI lays them out, and read back. */
module ElfImages {
  import opened Elf
  import opened Memory
  import opened Words

  /** Byte `k` of a little-endian field. */
  function B(v: Word, k: nat): Byte
    requires k < 4
  {
    if k == 0 then v % 256 else if k == 1 then (v / 256) % 256 else if k == 2 then (v / 0x1_0000) % 256 else v / 0x100_0000
  }

  // The fields of the file header that a loader does not need.
  datatype Unread = Unread(
    abi: Byte, version: Word, shoff: Word, flags: Word, ehsize: Half, shentsize: Half, shnum: Half, shstrndx: Half)

  /** Byte `k` of an Elf32_Ehdr: identification, type, machine, version, entry, program and
      section header offsets, flags and six half-words of sizes and counts. */
  function EhdrByte(h: FileHeader, u: Unread, k: nat): Byte {
    if k < 16 then
      (match k
       case 0 => 0x7F
       case 1 => 0x45
       case 2 => 0x4C
       case 3 => 0x46
       case 4 => 1
       case 5 => 1
       case 6 => 1
       case 7 => u.abi
       case _ => 0)
    else if k < 18 then B(h.etype, k - 16)
    else if k < 20 then B(h.machine, k - 18)
    else if k < 24 then B(u.version, k - 20)
    else if k < 28 then B(h.entry, k - 24)
    else if k < 32 then B(h.phoff, k - 28)
    else if k < 36 then B(u.shoff, k - 32)
    else if k < 40 then B(u.flags, k - 36)
    else if k < 42 then B(u.ehsize, k - 40)
    else if k < 44 then B(h.phentsize, k - 42)
    else if k < 46 then B(h.phnum, k - 44)
    else if k < 48 then B(u.shentsize, k - 46)
    else if k < 50 then B(u.shnum, k - 48)
    else B(u.shstrndx, k % 2)
  }

  function EhdrBytes(h: FileHeader, u: Unread): (b: Bytes)
    ensures |b| == 52
  {
    seq(52, k requires 0 <= k < 52 => EhdrByte(h, u, k))
  }

  // The fields of a program header that a loader does not need.
  datatype Spare = Spare(paddr: Word, flags: Word, align: Word)

  /** Byte `k` of an Elf32_Phdr: type, offset, virtual and physical address, file and
      memory size, flags, alignment. */
  function PhdrByte(p: ProgramHeader, x: Spare, k: nat): Byte {
    if k < 4 then B(p.ptype, k)
    else if k < 8 then B(p.offset, k - 4)
    else if k < 12 then B(p.vaddr, k - 8)
    else if k < 16 then B(x.paddr, k - 12)
    else if k < 20 then B(p.filesz, k - 16)
    else if k < 24 then B(p.memsz, k - 20)
    else if k < 28 then B(x.flags, k - 24)
    else B(x.align, k % 4)
  }

  function PhdrBytes(p: ProgramHeader, x: Spare): (b: Bytes)
    ensures |b| == 32
  {
    seq(32, k requires 0 <= k < 32 => PhdrByte(p, x, k))
  }

  // ---- Single fields are read back ----

  predicate WordBytes(b: Bytes, k: nat, v: Word) {
    k + 4 <= |b| && b[k] == B(v, 0) && b[k + 1] == B(v, 1) && b[k + 2] == B(v, 2) && b[k + 3] == B(v, 3)
  }

  predicate HalfBytes(b: Bytes, k: nat, v: Half) {
    k + 2 <= |b| && b[k] == B(v, 0) && b[k + 1] == B(v, 1)
  }

  lemma WordRead(file: Bytes, from: nat, b: Bytes, k: nat, v: Word)
    requires from + |b| <= |file| && file[from..from + |b|] == b && WordBytes(b, k, v)
    ensures WordOf(file, from + k) == v
  {
    var i: nat := from + k;
    assert file[i] == b[k] && file[i + 1] == b[k + 1] && file[i + 2] == b[k + 2] && file[i + 3] == b[k + 3];
    ByteSplit(v);
    assert B(v, 0) == ByteOf(v, 0) && B(v, 1) == ByteOf(v, 1) && B(v, 2) == ByteOf(v, 2) && B(v, 3) == ByteOf(v, 3);
    hide Join, B, ByteOf;
  }

  lemma HalfRead(file: Bytes, from: nat, b: Bytes, k: nat, v: Half)
    requires from + |b| <= |file| && file[from..from + |b|] == b && HalfBytes(b, k, v)
    ensures HalfOf(file, from + k) == v
  {
    var i: nat := from + k;
    assert file[i] == b[k] && file[i + 1] == b[k + 1];
  }

  /** Every field of the file header is where the ABI puts it. */
  lemma FileHeaderRead(file: Bytes, h: FileHeader, u: Unread)
    requires |file| >= 52 && file[..52] == EhdrBytes(h, u)
    ensures FileHeaderOf(file) == h
    ensures file[..6] == [0x7F, 0x45, 0x4C, 0x46, 1, 1]
  {
    hide WordOf, HalfOf, B;
    var b := EhdrBytes(h, u);
    assert file[..6] == b[..6];
    HalfRead(file, 0, b, 16, h.etype);
    HalfRead(file, 0, b, 18, h.machine);
    WordRead(file, 0, b, 24, h.entry);
    WordRead(file, 0, b, 28, h.phoff);
    HalfRead(file, 0, b, 42, h.phentsize);
    HalfRead(file, 0, b, 44, h.phnum);
  }

  lemma ProgramHeaderRead(file: Bytes, at: nat, p: ProgramHeader, x: Spare)
    requires at + 32 <= |file| && file[at..at + 32] == PhdrBytes(p, x)
    ensures HeaderAt(file, at) == p
  {
    hide WordOf, B;
    var b := PhdrBytes(p, x);
    WordRead(file, at, b, 0, p.ptype);
    WordRead(file, at, b, 4, p.offset);
    WordRead(file, at, b, 8, p.vaddr);
    WordRead(file, at, b, 16, p.filesz);
    WordRead(file, at, b, 20, p.memsz);
  }

  // ---- A file with these segments ----

  function DataSize(segs: seq<Segment>): nat {
    if segs == [] then 0 else |segs[0].data| + DataSize(segs[1..])
  }

  function AllData(segs: seq<Segment>): (b: Bytes)
    ensures |b| == DataSize(segs)
  {
    if segs == [] then [] else segs[0].data + AllData(segs[1..])
  }

  function LoadHeader(s: Segment, at: Word): ProgramHeader {
    ProgramHeader(1, at, s.vaddr, s.filesz, s.memsz)
  }

  /** The table for `segs`, whose data starts at file offset `at`. */
  function TableBytes(segs: seq<Segment>, at: nat, x: Spare): (b: Bytes)
    requires at + DataSize(segs) < WORD_LIMIT
    ensures |b| == 32 * |segs|
  {
    if segs == [] then [] else PhdrBytes(LoadHeader(segs[0], at), x) + TableBytes(segs[1..], at + |segs[0].data|, x)
  }

  predicate Writable(segs: seq<Segment>) {
    0 < |segs| < 0x1_0000 && AllSound(segs) && 52 + 32 * |segs| + DataSize(segs) < WORD_LIMIT
  }

  /** Header, table, data. */
  function Written(etype: Half, entry: Word, segs: seq<Segment>, u: Unread, x: Spare): Bytes
    requires Writable(segs)
  {
    EhdrBytes(FileHeader(etype, 8, entry, 52, 32, |segs|), u) + TableBytes(segs, 52 + 32 * |segs|, x) + AllData(segs)
  }

  lemma {:induction false} DataAt(segs: seq<Segment>, i: nat)
    requires i < |segs|
    ensures DataSize(segs[..i]) + |segs[i].data| <= DataSize(segs)
    ensures AllData(segs)[DataSize(segs[..i])..DataSize(segs[..i]) + |segs[i].data|] == segs[i].data
  {
    if i == 0 {
      assert segs[..0] == [];
    } else {
      DataAt(segs[1..], i - 1);
      assert segs[..i][1..] == segs[1..][..i - 1];
      var n, at := |segs[0].data|, DataSize(segs[1..][..i - 1]);
      assert AllData(segs)[n + at..n + at + |segs[i].data|] == AllData(segs[1..])[at..at + |segs[i].data|];
    }
  }

  lemma {:induction false} EntryAt(segs: seq<Segment>, at: nat, x: Spare, i: nat)
    requires at + DataSize(segs) < WORD_LIMIT && i < |segs|
    ensures at + DataSize(segs[..i]) < WORD_LIMIT
    ensures TableBytes(segs, at, x)[32 * i..32 * i + 32] == PhdrBytes(LoadHeader(segs[i], at + DataSize(segs[..i])), x)
  {
    hide PhdrBytes, LoadHeader;
    if i == 0 {
      assert segs[..0] == [];
    } else {
      var n := |segs[0].data|;
      EntryAt(segs[1..], at + n, x, i - 1);
      assert segs[..i][1..] == segs[1..][..i - 1];
      assert TableBytes(segs, at, x)[32 * i..32 * i + 32] == TableBytes(segs[1..], at + n, x)[32 * (i - 1)..32 * (i - 1) + 32];
    }
  }

  lemma WrittenHeader(etype: Half, entry: Word, segs: seq<Segment>, u: Unread, x: Spare)
    requires Writable(segs) && (etype == 1 || etype == 2)
    ensures var file := Written(etype, entry, segs, u, x);
            && TableInFile(file) && |file| == 52 + 32 * |segs| + DataSize(segs)
            && FileHeaderOf(file) == FileHeader(etype, 8, entry, 52, 32, |segs|)
  {
    var file := Written(etype, entry, segs, u, x);
    hide EhdrBytes, FileHeaderOf, AllSound, TableBytes, AllData;
    var h := FileHeader(etype, 8, entry, 52, 32, |segs|);
    assert file[..52] == EhdrBytes(h, u);
    FileHeaderRead(file, h, u);
  }

  /** The three parts of a written file, by position. */
  lemma WrittenParts(etype: Half, entry: Word, segs: seq<Segment>, u: Unread, x: Spare)
    requires Writable(segs)
    ensures var file := Written(etype, entry, segs, u, x); var at := 52 + 32 * |segs|;
            && |file| == at + DataSize(segs)
            && file[52..at] == TableBytes(segs, at, x) && file[at..] == AllData(segs)
  {
    hide EhdrBytes, TableBytes, AllData, AllSound;
  }

  lemma SubSlice(file: Bytes, from: nat, to: nat, i: nat, j: nat)
    requires from <= to <= |file| && i <= j <= to - from
    ensures file[from + i..from + j] == file[from..to][i..j]
  {
    assert forall k :: 0 <= k < j - i ==> file[from..to][i..j][k] == file[from + i + k];
  }

  lemma EntryUsable(file: Bytes, p: ProgramHeader, s: Segment)
    requires SoundSegment(s) && p == LoadHeader(s, p.offset)
    requires p.offset + |s.data| <= |file| && file[p.offset..p.offset + |s.data|] == s.data
    ensures Usable(p, |file|) && Contributes(p) && SegmentOf(file, p) == s
  {
  }

  /** Header `i` of the written file, and the segment the reader makes of it. */
  lemma WrittenEntry(etype: Half, entry: Word, segs: seq<Segment>, u: Unread, x: Spare, i: nat)
    requires Writable(segs) && (etype == 1 || etype == 2) && i < |segs|
    ensures var file := Written(etype, entry, segs, u, x);
            && |file| == 52 + 32 * |segs| + DataSize(segs)
            && var p := HeaderAt(file, 52 + 32 * i);
               Usable(p, |file|) && Contributes(p) && SegmentOf(file, p) == segs[i]
  {
    hide Written, PhdrBytes, LoadHeader, HeaderAt, TableBytes, AllData, DataSize, SoundSegment, Usable,
         Contributes, SegmentOf;
    var file := Written(etype, entry, segs, u, x);
    var at := 52 + 32 * |segs|;
    var s, before := segs[i], DataSize(segs[..i]);
    WrittenParts(etype, entry, segs, u, x);
    EntryAt(segs, at, x, i);
    SubSlice(file, 52, at, 32 * i, 32 * i + 32);
    ProgramHeaderRead(file, 52 + 32 * i, LoadHeader(s, at + before), x);
    DataAt(segs, i);
    SubSlice(file, at, |file|, before, before + |s.data|);
    assert LoadHeader(s, at + before).offset == at + before by { OffsetOf(s, at + before); }
    EntryUsable(file, HeaderAt(file, 52 + 32 * i), s);
  }

  lemma OffsetOf(s: Segment, at: Word)
    ensures LoadHeader(s, at).offset == at
  {
  }

  lemma {:induction false} SegmentsAre(file: Bytes, hs: seq<ProgramHeader>, segs: seq<Segment>)
    requires |hs| == |segs|
    requires forall i :: 0 <= i < |hs| ==> Contributes(hs[i]) && SegmentOf(file, hs[i]) == segs[i]
    ensures Segments(file, hs) == segs
  {
    hide Contributes, SegmentOf;
    if hs != [] {
      var n := |hs| - 1;
      SegmentsAre(file, hs[..n], segs[..n]);
      assert segs == segs[..n] + [segs[n]];
    }
  }

  /** Reading undoes writing: any sound segments, at any entry point, whatever the fields
      a loader does not need hold. */
  lemma ParsedWritten(etype: Half, entry: Word, segs: seq<Segment>, u: Unread, x: Spare)
    requires Writable(segs) && (etype == 1 || etype == 2)
    ensures Parsed(Written(etype, entry, segs, u, x)) == ElfImage(segs, entry, None)
  {
    hide Written, TableInFile, FileHeaderOf, HeaderAt, Usable, Contributes, SegmentOf, Segments, EntryError,
         Parsed, AllSound;
    var file := Written(etype, entry, segs, u, x);
    WrittenHeader(etype, entry, segs, u, x);
    var hs := Table(file);
    forall i | 0 <= i < |segs|
      ensures Usable(hs[i], |file|) && Contributes(hs[i]) && SegmentOf(file, hs[i]) == segs[i]
    {
      TableEntry(file, i);
      WrittenEntry(etype, entry, segs, u, x, i);
    }
    SegmentsAre(file, hs, segs);
    ParsedStops(file, |hs|);
    assert hs[..|hs|] == hs;
  }

  // ---- Refusals ----

  /** The verdict on a file header, in numbers, for every value of its fields. */
  lemma HeaderVerdict(file: Bytes, h: FileHeader, u: Unread)
    requires |file| >= 52 && file[..52] == EhdrBytes(h, u)
    ensures HeaderError(file) ==
            if h.machine != 8 then Some(WrongMachine(h.machine))
            else if h.etype != 1 && h.etype != 2 then Some(WrongType)
            else if h.phnum == 0 || h.phoff == 0 then Some(NoProgramHeaders)
            else if h.phentsize != 32 then Some(BadEntrySize(h.phentsize))
            else if h.phoff + 32 * h.phnum > |file| then Some(TableOutsideFile)
            else None
  {
    hide EhdrBytes, FileHeaderOf;
    FileHeaderRead(file, h, u);
    assert file[..4] == file[..6][..4];
    assert file[4] == file[..6][4] && file[5] == file[..6][5];
  }

  /** The identification bytes: each wrong one has its own error. */
  lemma IdentityVerdict(file: Bytes)
    ensures HeaderError(file) == Some(TooShort) <==> |file| < 52
    ensures |file| >= 52 ==>
              && (HeaderError(file) == Some(BadMagic) <==> !(file[0] == 0x7F && file[1] == 0x45 && file[2] == 0x4C && file[3] == 0x46))
              && (HeaderError(file) == Some(NotElf32) <==>
                    file[0] == 0x7F && file[1] == 0x45 && file[2] == 0x4C && file[3] == 0x46 && file[4] != 1)
              && (HeaderError(file) == Some(NotLittleEndian) <==>
                    file[0] == 0x7F && file[1] == 0x45 && file[2] == 0x4C && file[3] == 0x46 && file[4] == 1 && file[5] != 1)
  {
    hide FileHeaderOf;
    if |file| >= 52 {
      assert file[..4] == [file[0], file[1], file[2], file[3]];
    }
  }

  /** The error of a header that cannot be used: which check fails first. */
  lemma EntryVerdict(file: Bytes, i: nat)
    requires TableInFile(file) && i < |Table(file)|
    requires (forall k :: 0 <= k < i ==> Usable(Table(file)[k], |file|)) && !Usable(Table(file)[i], |file|)
    ensures var p := Table(file)[i];
            && p.ptype == 1 && (p.memsz > 0 || p.filesz > 0)
            && Parsed(file).error == Some(if p.filesz > p.memsz then MemoryBelowFile(i)
                                          else if p.vaddr + p.memsz > 0x1_0000_0000 then WrapsAddressSpace(i)
                                          else DataOutsideFile(i))
  {
    hide Table, FileHeaderOf, TableInFile, Segments;
    ParsedStops(file, i);
  }
}
