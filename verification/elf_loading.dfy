/** Loading an image into a processor (`load_elf_into_processor`): segment after segment,
    file bytes and then zeros, until one leaves memory. */
module ElfLoading {
  import opened Elf
  import opened Memory
  import opened Words
  import Isa

  /** The data of a segment is as long as `elf_loader.h` says: the loader indexes it by filesz. */
  predicate DataSized(segments: seq<Segment>) {
    forall i :: 0 <= i < |segments| ==> |segments[i].data| == segments[i].filesz
  }

  /** The bytes a segment puts in memory; no zeros if its memory size is the smaller one. */
  function Footprint(s: Segment): (b: Bytes)
    ensures |b| == |s.data| + if s.filesz < s.memsz then s.memsz - s.filesz else 0
  {
    s.data + seq(if s.filesz < s.memsz then s.memsz - s.filesz else 0, _ => 0)
  }

  /** Memory with `bytes` written from `addr` on, the addresses computed in 32 bits. */
  function Lay(m: Bytes, addr: nat, bytes: Bytes): (m': Bytes)
    ensures |m'| == |m|
  {
    if bytes == [] then m
    else
      var before := Lay(m, addr, bytes[..|bytes| - 1]);
      var at := Wrapped(addr + |bytes| - 1);
      if at < |m| then before[at := bytes[|bytes| - 1]] else before
  }

  /** How many of `n` bytes are written before a write falls outside memory. */
  function Reach(addr: Word, n: nat, size: nat): (r: nat)
    ensures r <= n
  {
    if size >= WORD_LIMIT || addr + n <= size then n else if size <= addr then 0 else size - addr
  }

  /** Writes succeed up to there, and the next one, if there is one, is refused. */
  lemma ReachExactly(addr: Word, n: nat, size: nat, off: nat)
    requires off <= Reach(addr, n, size) && off < n
    ensures Wrapped(addr + off) < size <==> off < Reach(addr, n, size)
  {
  }

  predicate Fits(s: Segment, size: nat) {
    Reach(s.vaddr, |Footprint(s)|, size) == |Footprint(s)|
  }

  /** What a segment leaves in memory: the bytes before the first refused write. */
  function Laid(m: Bytes, s: Segment): (m': Bytes)
    ensures |m'| == |m|
  {
    Lay(m, s.vaddr, Footprint(s)[..Reach(s.vaddr, |Footprint(s)|, |m|)])
  }

  function LayAll(m: Bytes, segments: seq<Segment>): (m': Bytes)
    ensures |m'| == |m|
  {
    if segments == [] then m else Laid(LayAll(m, segments[..|segments| - 1]), segments[|segments| - 1])
  }

  /** The first segment that does not fit, or their count. */
  function FirstMisfit(segments: seq<Segment>, size: nat): (i: nat)
    ensures i <= |segments|
    ensures forall k :: 0 <= k < i ==> Fits(segments[k], size)
    ensures i < |segments| ==> !Fits(segments[i], size)
  {
    if segments == [] || !Fits(segments[0], size) then 0 else 1 + FirstMisfit(segments[1..], size)
  }

  predicate Touches(s: Segment, k: nat) {
    s.vaddr <= k < s.vaddr + s.memsz
  }

  /** The last segment over byte `k`, or -1. */
  function Deciding(segments: seq<Segment>, k: nat): (j: int)
    ensures -1 <= j < |segments|
    ensures j >= 0 ==> Touches(segments[j], k)
    ensures forall later :: j < later < |segments| ==> !Touches(segments[later], k)
  {
    if segments == [] then -1
    else if Touches(segments[|segments| - 1], k) then |segments| - 1
    else Deciding(segments[..|segments| - 1], k)
  }

  /** Writing from `addr` on without wrapping replaces exactly those bytes. */
  lemma {:induction false} LaidByte(m: Bytes, addr: Word, bytes: Bytes, k: nat)
    requires addr + |bytes| <= WORD_LIMIT && k < |m|
    ensures Lay(m, addr, bytes)[k] == if addr <= k < addr + |bytes| then bytes[k - addr] else m[k]
  {
    if bytes != [] {
      LaidByte(m, addr, bytes[..|bytes| - 1], k);
      WrapsAligned(addr + |bytes| - 1);
    }
  }

  lemma SegmentByte(m: Bytes, s: Segment, k: nat)
    requires SoundSegment(s) && k < |m|
    ensures Laid(m, s)[k] == if !Touches(s, k) then m[k]
                             else if k - s.vaddr < s.filesz then s.data[k - s.vaddr] else 0
  {
    var bytes := Footprint(s);
    LaidByte(m, s.vaddr, bytes[..Reach(s.vaddr, |bytes|, |m|)], k);
  }

  /** The in-order overlay, byte by byte: the last segment over a byte decides it, with
      file data first and zeros behind; a byte under no segment keeps its old value. */
  lemma {:induction false} OverlayByte(m: Bytes, segments: seq<Segment>, k: nat)
    requires AllSound(segments)
    requires k < |m|
    ensures LayAll(m, segments)[k] ==
            var j := Deciding(segments, k);
            if j < 0 then m[k]
            else if k - segments[j].vaddr < segments[j].filesz then segments[j].data[k - segments[j].vaddr]
            else 0
  {
    hide Laid, Touches;
    if segments != [] {
      var n := |segments| - 1;
      OverlayByte(m, segments[..n], k);
      assert AllSound(segments[..n]) && SoundSegment(segments[n]);
      SegmentByte(LayAll(m, segments[..n]), segments[n], k);
    }
  }

  method LoadIntoProcessor(cpu: Isa.SingleCycleCpu, image: ElfImage) returns (ok: bool)
    requires cpu.Valid() && DataSized(image.segments)
    modifies cpu`pc, cpu.mem.data
    ensures cpu.Valid()
    ensures ok == (image.error.None? && FirstMisfit(image.segments, |old(cpu.View()).mem|) == |image.segments|)
    ensures cpu.View() == old(cpu.View()).(
              mem := if image.error.Some? then old(cpu.View()).mem else LaidUpTo(old(cpu.View()).mem, image.segments),
              pc := if ok then image.entry else old(cpu.View()).pc)
  {
    if image.error.Some? {
      return false;
    }
    ok := LoadSegments(cpu.mem, image.segments);
    if ok {
      cpu.pc := image.entry;
    }
  }

  /** All segments, or those up to the first misfit and of that one what comes before its
      first refused write. */
  function LaidUpTo(m: Bytes, segments: seq<Segment>): (m': Bytes) {
    var n := FirstMisfit(segments, |m|);
    LayAll(m, if n < |segments| then segments[..n + 1] else segments)
  }

  method LoadSegments(mem: MemoryUnit, segments: seq<Segment>) returns (ok: bool)
    requires DataSized(segments)
    modifies mem.data
    ensures ok == (FirstMisfit(segments, mem.data.Length) == |segments|)
    ensures mem.Contents() == LaidUpTo(old(mem.Contents()), segments)
  {
    hide Laid, FirstMisfit, Fits;
    ghost var before := mem.Contents();
    for i := 0 to |segments|
      invariant forall j :: 0 <= j < i ==> Fits(segments[j], |before|)
      invariant mem.Contents() == LayAll(before, segments[..i])
    {
      assert segments[..i + 1][..i] == segments[..i];
      var fits := LoadSegment(mem, segments[i]);
      if !fits {
        MisfitAt(segments, |before|, i);
        return false;
      }
    }
    assert segments[..|segments|] == segments;
    MisfitAt(segments, |before|, |segments|);
    return true;
  }

  lemma MisfitAt(segments: seq<Segment>, size: nat, i: nat)
    requires i <= |segments| && (i < |segments| ==> !Fits(segments[i], size))
    requires forall j :: 0 <= j < i ==> Fits(segments[j], size)
    ensures FirstMisfit(segments, size) == i
  {
  }

  lemma FootprintAt(s: Segment, off: nat)
    requires |s.data| == s.filesz && off < |Footprint(s)|
    ensures Footprint(s)[off] == if off < s.filesz then s.data[off] else 0
  {
  }

  lemma LayStep(m: Bytes, addr: nat, bytes: Bytes, off: nat)
    requires off < |bytes| && Wrapped(addr + off) < |m|
    ensures Lay(m, addr, bytes[..off + 1]) == Lay(m, addr, bytes[..off])[Wrapped(addr + off) := bytes[off]]
  {
    assert bytes[..off + 1][..off] == bytes[..off];
  }

  /** One write of the loader, at offset `off`: refused exactly at the reach of the segment. */
  method WriteOffset(mem: MemoryUnit, addr: Word, off: nat, value: Byte, ghost before: Bytes, ghost bytes: Bytes)
    returns (ok: bool)
    requires |before| == mem.data.Length && off < |bytes| && bytes[off] == value
    requires off <= Reach(addr, |bytes|, |before|)
    requires mem.Contents() == Lay(before, addr, bytes[..off])
    modifies mem.data
    ensures ok <==> off < Reach(addr, |bytes|, |before|)
    ensures mem.Contents() == Lay(before, addr, bytes[..if ok then off + 1 else off])
  {
    hide Reach, Lay;
    ReachExactly(addr, |bytes|, |before|, off);
    if Wrapped(addr + off) < mem.data.Length {
      LayStep(before, addr, bytes, off);
    }
    ok := mem.WriteByteAt(Wrapped(addr + off), value);
  }

  method LoadSegment(mem: MemoryUnit, s: Segment) returns (fits: bool)
    requires |s.data| == s.filesz
    modifies mem.data
    ensures fits == Fits(s, mem.data.Length)
    ensures mem.Contents() == Laid(old(mem.Contents()), s)
  {
    ghost var before := mem.Contents();
    ghost var bytes := Footprint(s);
    hide Reach, Lay;
    LayNothing(before, s.vaddr);
    assert bytes[..0] == [];
    fits := WriteData(mem, s, before);
    if fits {
      fits := WriteZeros(mem, s, before);
      assert bytes[..|bytes|] == bytes;
    }
  }

  /** The offset the loops of `LoadSegment` have reached: they stop where a write is refused. */
  ghost predicate Written(mem: MemoryUnit, s: Segment, before: Bytes, off: nat)
    reads mem, mem.data
  {
    && |before| == mem.data.Length
    && off <= Reach(s.vaddr, |Footprint(s)|, |before|)
    && mem.Contents() == Lay(before, s.vaddr, Footprint(s)[..off])
  }

  method WriteData(mem: MemoryUnit, s: Segment, ghost before: Bytes) returns (ok: bool)
    requires |s.data| == s.filesz && Written(mem, s, before, 0)
    modifies mem.data
    ensures if ok then Written(mem, s, before, s.filesz)
            else Reach(s.vaddr, |Footprint(s)|, |before|) < |Footprint(s)|
                 && Written(mem, s, before, Reach(s.vaddr, |Footprint(s)|, |before|))
  {
    hide Reach, Lay;
    for off := 0 to s.filesz
      invariant Written(mem, s, before, off)
    {
      FootprintAt(s, off);
      ok := WriteOffset(mem, s.vaddr, off, s.data[off], before, Footprint(s));
      if !ok {
        return;
      }
    }
    return true;
  }

  method WriteZeros(mem: MemoryUnit, s: Segment, ghost before: Bytes) returns (ok: bool)
    requires |s.data| == s.filesz && Written(mem, s, before, s.filesz)
    modifies mem.data
    ensures if ok then Written(mem, s, before, |Footprint(s)|)
            else Reach(s.vaddr, |Footprint(s)|, |before|) < |Footprint(s)|
                 && Written(mem, s, before, Reach(s.vaddr, |Footprint(s)|, |before|))
  {
    hide Reach, Lay;
    var off := s.filesz;
    while off < s.memsz
      invariant s.filesz <= off <= |Footprint(s)|
      invariant Written(mem, s, before, off)
    {
      FootprintAt(s, off);
      ok := WriteOffset(mem, s.vaddr, off, 0, before, Footprint(s));
      if !ok {
        return;
      }
      off := off + 1;
    }
    return true;
  }

  lemma LayNothing(m: Bytes, addr: nat)
    ensures Lay(m, addr, []) == m
  {
  }

  lemma AllFit(segments: seq<Segment>, size: nat)
    requires AllSound(segments)
    ensures FirstMisfit(segments, size) == |segments| <==> forall s :: s in segments ==> s.vaddr + s.memsz <= size
  {
    assert forall i :: 0 <= i < |segments| ==> SoundSegment(segments[i]);
    if FirstMisfit(segments, size) < |segments| {
      assert segments[FirstMisfit(segments, size)] in segments;
    }
  }

  /** A parsed file loads exactly when it was accepted and every segment's memory range
      fits; the program counter is then the entry point. */
  method LoadFile(cpu: Isa.SingleCycleCpu, file: Bytes) returns (ok: bool)
    requires cpu.Valid()
    modifies cpu`pc, cpu.mem.data
    ensures cpu.Valid()
    ensures ok == (Acceptable(file) && forall s :: s in Parsed(file).segments ==> s.vaddr + s.memsz <= |old(cpu.View()).mem|)
    ensures ok ==> AllSound(Parsed(file).segments) && cpu.View() == old(cpu.View()).(
                     mem := LayAll(old(cpu.View()).mem, Parsed(file).segments), pc := FileHeaderOf(file).entry)
    ensures !ok ==> cpu.View() == old(cpu.View()).(mem := cpu.mem.Contents())
  {
    var image := ParseElf(file);
    ParsedSound(file);
    AcceptedExactly(file);
    ok := LoadIntoProcessor(cpu, image);
    AllFit(image.segments, |cpu.mem.Contents()|);
  }
}
