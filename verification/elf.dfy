/** The ELF32 reader (`parse_elf`): which files it accepts, what it reports of the
    others, and the segments it extracts. */
module Elf {
  import opened Memory
  import opened Words

  const HEADER_SIZE := 52
  const ENTRY_SIZE := 32
  const EM_MIPS := 8
  const ET_REL := 1
  const ET_EXEC := 2
  const PT_LOAD := 1

  datatype ElfError =
    | TooShort
    | BadMagic
    | NotElf32
    | NotLittleEndian
    | WrongMachine(machine: Half)
    | WrongType
    | NoProgramHeaders
    | BadEntrySize(size: Half)
    | TableOutsideFile
    | MemoryBelowFile(index: nat)
    | WrapsAddressSpace(index: nat)
    | DataOutsideFile(index: nat)
    | NoSegments

  datatype Segment = Segment(vaddr: Word, filesz: Word, memsz: Word, data: Bytes)

  datatype ElfImage = ElfImage(segments: seq<Segment>, entry: Word, error: Option<ElfError>)

  function HalfOf(file: Bytes, at: nat): Half
    requires at + 2 <= |file|
  {
    JoinHalf(file[at], file[at + 1])
  }

  function WordOf(file: Bytes, at: nat): Word
    requires at + 4 <= |file|
  {
    Join(file[at], file[at + 1], file[at + 2], file[at + 3])
  }

  datatype FileHeader = FileHeader(etype: Half, machine: Half, entry: Word, phoff: Word, phentsize: Half, phnum: Half)

  datatype ProgramHeader = ProgramHeader(ptype: Word, offset: Word, vaddr: Word, filesz: Word, memsz: Word)

  function FileHeaderOf(file: Bytes): FileHeader
    requires |file| >= HEADER_SIZE
  {
    FileHeader(HalfOf(file, 16), HalfOf(file, 18), WordOf(file, 24), WordOf(file, 28), HalfOf(file, 42), HalfOf(file, 44))
  }

  /** The header is an ELF32 little-endian MIPS header with a program-header table that
      lies in the file. */
  predicate TableInFile(file: Bytes) {
    |file| >= HEADER_SIZE &&
    var h := FileHeaderOf(file);
    && file[..6] == [0x7F, 0x45, 0x4C, 0x46, 1, 1]
    && h.machine == EM_MIPS && (h.etype == ET_EXEC || h.etype == ET_REL)
    && h.phnum > 0 && h.phoff > 0 && h.phentsize == ENTRY_SIZE
    && h.phoff + h.phnum * ENTRY_SIZE <= |file|
  }

  function HeaderAt(file: Bytes, at: nat): ProgramHeader
    requires at + ENTRY_SIZE <= |file|
  {
    ProgramHeader(WordOf(file, at), WordOf(file, at + 4), WordOf(file, at + 8), WordOf(file, at + 16), WordOf(file, at + 20))
  }

  /** The program-header table. */
  function Table(file: Bytes): (hs: seq<ProgramHeader>)
    requires TableInFile(file)
    ensures |hs| == FileHeaderOf(file).phnum
  {
    var h := FileHeaderOf(file);
    seq(h.phnum, i requires 0 <= i < h.phnum => HeaderAt(file, h.phoff + i * ENTRY_SIZE))
  }

  /** Headers the reader looks at: loadable ones with something to load. */
  predicate Contributes(p: ProgramHeader) {
    p.ptype == PT_LOAD && (p.filesz > 0 || p.memsz > 0)
  }

  predicate FitsFile(p: ProgramHeader, size: nat) {
    && p.filesz <= p.memsz
    && p.vaddr + p.memsz <= WORD_LIMIT
    && (p.filesz > 0 ==> p.offset + p.filesz <= size)
  }

  /** A header that can be skipped or loaded. */
  predicate Usable(p: ProgramHeader, size: nat) {
    Contributes(p) ==> FitsFile(p, size)
  }

  /** Defined on every header; meant for usable ones. */
  function SegmentOf(file: Bytes, p: ProgramHeader): Segment {
    Segment(p.vaddr, p.filesz, p.memsz,
            if 0 < p.filesz <= |file| - p.offset then file[p.offset..p.offset + p.filesz] else [])
  }

  function HeaderError(file: Bytes): Option<ElfError> {
    if |file| < HEADER_SIZE then Some(TooShort)
    else
      var h := FileHeaderOf(file);
      if file[..4] != [0x7F, 0x45, 0x4C, 0x46] then Some(BadMagic)
      else if file[4] != 1 then Some(NotElf32)
      else if file[5] != 1 then Some(NotLittleEndian)
      else if h.machine != EM_MIPS then Some(WrongMachine(h.machine))
      else if h.etype != ET_EXEC && h.etype != ET_REL then Some(WrongType)
      else if h.phnum == 0 || h.phoff == 0 then Some(NoProgramHeaders)
      else if h.phentsize != ENTRY_SIZE then Some(BadEntrySize(h.phentsize))
      else if h.phoff + h.phnum * ENTRY_SIZE > |file| then Some(TableOutsideFile)
      else None
  }

  lemma HeaderErrorExact(file: Bytes)
    ensures HeaderError(file).None? <==> TableInFile(file)
  {
    if |file| >= HEADER_SIZE {
      var start: Bytes := [0x7F, 0x45, 0x4C, 0x46, 1, 1];
      assert file[..4] == file[..6][..4];
      assert file[..6] == file[..4] + [file[4], file[5]];
      assert start[..4] == [0x7F, 0x45, 0x4C, 0x46];
      assert start == start[..4] + [1, 1];
    }
  }

  function EntryError(p: ProgramHeader, i: nat): ElfError {
    if p.memsz < p.filesz then MemoryBelowFile(i)
    else if p.vaddr + p.memsz > WORD_LIMIT then WrapsAddressSpace(i)
    else DataOutsideFile(i)
  }

  /** The first header that cannot be used, or their count. */
  function FirstUnusable(hs: seq<ProgramHeader>, size: nat): (r: nat)
    ensures r <= |hs|
    ensures forall k :: 0 <= k < r ==> Usable(hs[k], size)
    ensures r < |hs| ==> !Usable(hs[r], size)
  {
    if hs == [] || !Usable(hs[0], size) then 0 else 1 + FirstUnusable(hs[1..], size)
  }

  /** The segments of the headers in `hs` that contribute one. */
  function Segments(file: Bytes, hs: seq<ProgramHeader>): seq<Segment> {
    if hs == [] then []
    else
      var p := hs[|hs| - 1];
      Segments(file, hs[..|hs| - 1]) + if Contributes(p) then [SegmentOf(file, p)] else []
  }

  /** What the reader returns: on a bad header, the segments before it. */
  function Parsed(file: Bytes): ElfImage {
    HeaderErrorExact(file);
    match HeaderError(file)
    case Some(e) => ElfImage([], 0, Some(e))
    case None =>
      var entry := FileHeaderOf(file).entry;
      var hs := Table(file);
      var bad := FirstUnusable(hs, |file|);
      var segments := Segments(file, hs[..bad]);
      ElfImage(segments, entry,
               if bad < |hs| then Some(EntryError(hs[bad], bad))
               else if segments == [] then Some(NoSegments) else None)
  }

  /** The accepted files, stated without the reader's order of checks. */
  ghost predicate Acceptable(file: Bytes) {
    && TableInFile(file)
    && (forall p :: p in Table(file) ==> Usable(p, |file|))
    && (exists p :: p in Table(file) && Contributes(p))
  }

  lemma {:induction false} SegmentsPresent(file: Bytes, hs: seq<ProgramHeader>)
    ensures Segments(file, hs) != [] <==> exists p :: p in hs && Contributes(p)
  {
    if hs != [] {
      SegmentsPresent(file, hs[..|hs| - 1]);
      assert hs == hs[..|hs| - 1] + [hs[|hs| - 1]];
    }
  }

  lemma AcceptedExactly(file: Bytes)
    ensures Parsed(file).error.None? <==> Acceptable(file)
  {
    hide FileHeaderOf, TableInFile, Table, Usable, Contributes, EntryError;
    HeaderErrorExact(file);
    if TableInFile(file) {
      var hs := Table(file);
      var bad := FirstUnusable(hs, |file|);
      assert hs[..|hs|] == hs;
      SegmentsPresent(file, hs);
      assert bad < |hs| ==> hs[bad] in hs;
    }
  }

  /** A segment as `elf_loader.h` documents it, placed inside the address space. */
  predicate SoundSegment(s: Segment) {
    && |s.data| == s.filesz <= s.memsz
    && 0 < s.memsz
    && s.vaddr + s.memsz <= WORD_LIMIT
  }

  predicate AllSound(segments: seq<Segment>) {
    forall i :: 0 <= i < |segments| ==> SoundSegment(segments[i])
  }

  predicate FromFile(file: Bytes, data: Bytes) {
    exists at :: 0 <= at <= |file| && data <= file[at..]
  }

  /** Every extracted segment is sound and its data lies in the file. */
  lemma {:induction false} SegmentsSound(file: Bytes, hs: seq<ProgramHeader>)
    requires forall i :: 0 <= i < |hs| ==> Usable(hs[i], |file|)
    ensures AllSound(Segments(file, hs)) && forall s :: s in Segments(file, hs) ==> FromFile(file, s.data)
  {
    if hs != [] {
      SegmentsSound(file, hs[..|hs| - 1]);
      DataInFile(file, hs[|hs| - 1]);
    }
  }

  lemma DataInFile(file: Bytes, p: ProgramHeader)
    requires Usable(p, |file|)
    ensures Contributes(p) ==> SoundSegment(SegmentOf(file, p)) && FromFile(file, SegmentOf(file, p).data)
  {
    if 0 < p.filesz <= |file| - p.offset {
      assert SegmentOf(file, p).data <= file[p.offset..];
    } else {
      assert SegmentOf(file, p).data <= file[0..];
    }
  }

  lemma ParsedSound(file: Bytes)
    ensures AllSound(Parsed(file).segments)
    ensures forall s :: s in Parsed(file).segments ==> FromFile(file, s.data)
  {
    HeaderErrorExact(file);
    if TableInFile(file) {
      hide FileHeaderOf, TableInFile, Table, Usable, SoundSegment, FromFile;
      var hs := Table(file);
      SegmentsSound(file, hs[..FirstUnusable(hs, |file|)]);
    }
  }

  /** `chosen` lists the contributing headers of `hs`, in order. */
  ghost predicate Selects(hs: seq<ProgramHeader>, chosen: seq<nat>) {
    && (forall a, b :: 0 <= a < b < |chosen| ==> chosen[a] < chosen[b])
    && (forall a :: 0 <= a < |chosen| ==> chosen[a] < |hs| && Contributes(hs[chosen[a]]))
    && (forall i :: 0 <= i < |hs| && Contributes(hs[i]) ==> i in chosen)
  }

  /** Each contributing header gives one segment, in the table's order. */
  lemma {:induction false} SegmentsInOrder(file: Bytes, hs: seq<ProgramHeader>, chosen: seq<nat>)
    requires Selects(hs, chosen)
    ensures |Segments(file, hs)| == |chosen|
    ensures forall a :: 0 <= a < |chosen| ==>
              chosen[a] < |hs| && Segments(file, hs)[a] == SegmentOf(file, hs[chosen[a]])
    decreases hs
  {
    hide Contributes, SegmentOf;
    if chosen != [] {
      ChosenExist(hs, chosen);
    }
    if hs != [] {
      var n := |hs| - 1;
      if Contributes(hs[n]) {
        var a :| 0 <= a < |chosen| && chosen[a] == n;
        assert chosen[|chosen| - 1] <= n;
        assert a == |chosen| - 1;
        SegmentsInOrder(file, hs[..n], chosen[..a]);
      } else {
        SegmentsInOrder(file, hs[..n], chosen);
      }
    }
  }

  lemma ChosenExist(hs: seq<ProgramHeader>, chosen: seq<nat>)
    requires Selects(hs, chosen) && chosen != []
    ensures hs != []
  {
    assert Contributes(hs[chosen[0]]);
  }

  method ParseElf(file: Bytes) returns (image: ElfImage)
    ensures image == Parsed(file)
  {
    hide Join, JoinHalf, Table, FirstUnusable, Segments;
    HeaderErrorExact(file);
    if |file| < HEADER_SIZE {
      return ElfImage([], 0, Some(TooShort));
    }
    var h := FileHeaderOf(file);
    if file[0] != 0x7F || file[1] != 0x45 || file[2] != 0x4C || file[3] != 0x46 {
      return ElfImage([], 0, Some(BadMagic));
    }
    if file[4] != 1 {
      return ElfImage([], 0, Some(NotElf32));
    }
    if file[5] != 1 {
      return ElfImage([], 0, Some(NotLittleEndian));
    }
    if h.machine != EM_MIPS {
      return ElfImage([], 0, Some(WrongMachine(h.machine)));
    }
    if h.etype != ET_EXEC && h.etype != ET_REL {
      return ElfImage([], 0, Some(WrongType));
    }
    if h.phnum == 0 || h.phoff == 0 {
      return ElfImage([], 0, Some(NoProgramHeaders));
    }
    if h.phentsize != ENTRY_SIZE {
      return ElfImage([], 0, Some(BadEntrySize(h.phentsize)));
    }
    if h.phoff + h.phnum * h.phentsize > |file| {
      return ElfImage([], 0, Some(TableOutsideFile));
    }
    image := ReadSegments(file);
  }

  /** What the reader returns once header `i` is the first unusable one, or all are usable. */
  lemma ParsedStops(file: Bytes, i: nat)
    requires TableInFile(file)
    requires i <= |Table(file)| && (forall k :: 0 <= k < i ==> Usable(Table(file)[k], |file|))
    requires i < |Table(file)| ==> !Usable(Table(file)[i], |file|)
    ensures var segments := Segments(file, Table(file)[..i]);
            Parsed(file) == ElfImage(segments, FileHeaderOf(file).entry,
                                     if i < |Table(file)| then Some(EntryError(Table(file)[i], i))
                                     else if segments == [] then Some(NoSegments) else None)
  {
    HeaderErrorExact(file);
    hide Table, FileHeaderOf, TableInFile, Usable, Segments, EntryError;
    StopsAt(Table(file), |file|, i);
  }

  lemma SegmentsNext(file: Bytes, hs: seq<ProgramHeader>, i: nat)
    requires i < |hs|
    ensures Segments(file, hs[..i + 1]) ==
            Segments(file, hs[..i]) + if Contributes(hs[i]) then [SegmentOf(file, hs[i])] else []
  {
    assert hs[..i + 1][..i] == hs[..i];
    hide Contributes, SegmentOf;
  }

  lemma HeaderPresent(file: Bytes)
    requires TableInFile(file)
    ensures |file| >= HEADER_SIZE
  {
  }

  lemma TableEntry(file: Bytes, i: nat)
    requires TableInFile(file) && i < FileHeaderOf(file).phnum
    ensures var h := FileHeaderOf(file);
            && h.phoff + i * ENTRY_SIZE + ENTRY_SIZE <= |file|
            && Table(file)[i] == HeaderAt(file, h.phoff + i * ENTRY_SIZE)
  {
    hide HeaderAt, FileHeaderOf;
  }

  method ReadSegments(file: Bytes) returns (image: ElfImage)
    requires TableInFile(file)
    ensures image == Parsed(file)
  {
    hide FileHeaderOf, TableInFile, Table, Parsed, HeaderAt, SegmentOf, Segments, EntryError, Usable, Contributes;
    HeaderPresent(file);
    var entry, phoff, phnum := FileHeaderOf(file).entry, FileHeaderOf(file).phoff, FileHeaderOf(file).phnum;
    var segments: seq<Segment> := [];
    ghost var hs := Table(file);
    SegmentsOfNone(file);
    assert hs[..0] == [];
    for i := 0 to phnum
      invariant forall k :: 0 <= k < i ==> Usable(hs[k], |file|)
      invariant segments == Segments(file, hs[..i])
    {
      TableEntry(file, i);
      var p := HeaderAt(file, phoff + i * ENTRY_SIZE);
      SegmentsNext(file, hs, i);
      var bad, found := ReadHeader(file, p, i);
      if bad.Some? {
        ParsedStops(file, i);
        return ElfImage(segments, entry, bad);
      }
      segments := segments + found;
    }
    ParsedStops(file, phnum);
    image := ElfImage(segments, entry, if segments == [] then Some(NoSegments) else None);
  }

  /** One header: skipped, refused, or a segment. */
  method ReadHeader(file: Bytes, p: ProgramHeader, i: nat) returns (e: Option<ElfError>, found: seq<Segment>)
    ensures e == if Usable(p, |file|) then None else Some(EntryError(p, i))
    ensures e.None? ==> found == if Contributes(p) then [SegmentOf(file, p)] else []
  {
    e, found := None, [];
    if p.ptype == PT_LOAD && !(p.filesz == 0 && p.memsz == 0) {
      var segment;
      e, segment := ReadSegment(file, p, i);
      if e.None? {
        found := [segment];
      }
    }
  }

  lemma SegmentsOfNone(file: Bytes)
    ensures Segments(file, []) == []
  {
  }

  lemma StopsAt(hs: seq<ProgramHeader>, size: nat, i: nat)
    requires i <= |hs|
    requires forall k :: 0 <= k < i ==> Usable(hs[k], size)
    requires i < |hs| ==> !Usable(hs[i], size)
    ensures FirstUnusable(hs, size) == i
  {
  }

  method ReadSegment(file: Bytes, p: ProgramHeader, i: nat) returns (e: Option<ElfError>, segment: Segment)
    requires Contributes(p)
    ensures e == if FitsFile(p, |file|) then None else Some(EntryError(p, i))
    ensures e.None? ==> segment == SegmentOf(file, p)
  {
    segment := Segment(p.vaddr, p.filesz, p.memsz, []);
    if p.memsz < p.filesz {
      return Some(MemoryBelowFile(i)), segment;
    }
    if p.vaddr + p.memsz > WORD_LIMIT {
      return Some(WrapsAddressSpace(i)), segment;
    }
    e := None;
    if p.filesz > 0 {
      if p.offset + p.filesz > |file| {
        return Some(DataOutsideFile(i)), segment;
      }
      segment := segment.(data := file[p.offset..p.offset + p.filesz]);
    }
  }
}
