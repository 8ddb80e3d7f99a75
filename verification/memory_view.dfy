/** The incremental memory view (`MemoryWidget::updateDisplay`): a cached copy patched
    in place, and the ranges of bytes that changed since the last refresh. */
module MemoryView {
  import opened Memory
  import opened Words

  const PAGE := 4096
  const MAX_RUNS := 256

  datatype Range = Range(first: nat, length: nat) {
    function End(): nat { first + length }
  }

  /** A run added to a list of runs: it continues the last one when they touch. */
  function Extend(rs: seq<Range>, start: nat, length: nat): (r: seq<Range>)
    ensures |rs| <= |r| <= |rs| + 1 && r != []
  {
    if rs != [] && rs[|rs| - 1].End() == start
    then rs[..|rs| - 1] + [Range(rs[|rs| - 1].first, rs[|rs| - 1].length + length)]
    else rs + [Range(start, length)]
  }

  /** The same under the cap on recorded runs. */
  function AddRun(rs: seq<Range>, start: nat, length: nat): (r: seq<Range>)
    ensures r != []
  {
    if (rs != [] && rs[|rs| - 1].End() == start) || |rs| < MAX_RUNS then Extend(rs, start, length) else rs
  }

  function Capped(rs: seq<Range>): seq<Range> {
    if |rs| <= MAX_RUNS then rs else rs[..MAX_RUNS]
  }

  /** At most 256 runs are kept, the first ones. */
  lemma CappedRuns(rs: seq<Range>)
    ensures Capped(rs) <= rs && |Capped(rs)| == if |rs| < 256 then |rs| else 256
  {
  }

  /** The runs of differing bytes among the first `n`, built one byte at a time. */
  function Runs(now: Bytes, was: Bytes, n: nat): (rs: seq<Range>)
    requires n <= |now| == |was|
    ensures forall i :: 0 <= i < |rs| ==> rs[i].End() <= n
    ensures forall i :: 0 <= i < |rs| - 1 ==> rs[i].End() < n
  {
    if n == 0 then []
    else if now[n - 1] == was[n - 1] then Runs(now, was, n - 1)
    else Extend(Runs(now, was, n - 1), n - 1, 1)
  }

  predicate Inside(rs: seq<Range>, k: nat) {
    exists i :: 0 <= i < |rs| && rs[i].first <= k < rs[i].End()
  }

  /** In order, non-empty, never touching, and covering exactly the bytes that differ:
      the maximal runs of differing bytes. */
  ghost predicate AreMaximalRuns(rs: seq<Range>, now: Bytes, was: Bytes, n: nat)
    requires n <= |now| == |was|
  {
    && (forall i :: 0 <= i < |rs| ==> rs[i].length > 0 && rs[i].End() <= n)
    && (forall i, j :: 0 <= i < j < |rs| ==> rs[i].End() < rs[j].first)
    && (forall k :: 0 <= k < n ==> (Inside(rs, k) <==> now[k] != was[k]))
  }

  lemma {:induction false} RunsAreMaximal(now: Bytes, was: Bytes, n: nat)
    requires n <= |now| == |was|
    ensures AreMaximalRuns(Runs(now, was, n), now, was, n)
  {
    hide AreMaximalRuns, Extend;
    if n > 0 {
      RunsAreMaximal(now, was, n - 1);
      if now[n - 1] != was[n - 1] {
        OneMoreByte(Runs(now, was, n - 1), now, was, n - 1);
      } else {
        OneSameByte(Runs(now, was, n - 1), now, was, n - 1);
      }
    } else {
      NoBytes(now, was);
    }
  }

  lemma NoBytes(now: Bytes, was: Bytes)
    requires |now| == |was|
    ensures AreMaximalRuns([], now, was, 0)
  {
  }

  lemma OneSameByte(rs: seq<Range>, now: Bytes, was: Bytes, at: nat)
    requires at < |now| == |was| && now[at] == was[at]
    requires AreMaximalRuns(rs, now, was, at)
    ensures AreMaximalRuns(rs, now, was, at + 1)
  {
    hide Inside;
    LastCovers(rs, at);
  }

  lemma OneMoreByte(rs: seq<Range>, now: Bytes, was: Bytes, at: nat)
    requires at < |now| == |was| && now[at] != was[at]
    requires AreMaximalRuns(rs, now, was, at)
    ensures AreMaximalRuns(Extend(rs, at, 1), now, was, at + 1)
  {
    hide Inside;
    forall k | 0 <= k < at + 1 ensures Inside(Extend(rs, at, 1), k) <==> now[k] != was[k] {
      ExtendCovers(rs, at, k);
    }
  }

  lemma ExtendCovers(rs: seq<Range>, at: nat, k: nat)
    requires forall i :: 0 <= i < |rs| ==> rs[i].length > 0 && rs[i].End() <= at
    ensures Inside(Extend(rs, at, 1), k) <==> Inside(rs, k) || k == at
  {
    var after := Extend(rs, at, 1);
    if Inside(rs, k) {
      var i :| 0 <= i < |rs| && rs[i].first <= k < rs[i].End();
      assert after[i].first <= k < after[i].End();
    }
    if k == at {
      assert after[|after| - 1].first <= k < after[|after| - 1].End();
    }
    if Inside(after, k) && k != at {
      var i :| 0 <= i < |after| && after[i].first <= k < after[i].End();
      assert i < |rs| && rs[i].first <= k < rs[i].End();
    }
  }

  /** There is only one list of maximal runs. */
  lemma {:induction false} MaximalRunsUnique(rs: seq<Range>, now: Bytes, was: Bytes, n: nat)
    requires n <= |now| == |was|
    requires AreMaximalRuns(rs, now, was, n)
    ensures rs == Runs(now, was, n)
    decreases n
  {
    if rs != [] {
      RunsNeedBytes(rs, now, was, n);
    }
    if n > 0 {
      Shortened(rs, now, was, n);
      MaximalRunsUnique(WithoutByte(rs, n - 1), now, was, n - 1);
    }
  }

  lemma RunsNeedBytes(rs: seq<Range>, now: Bytes, was: Bytes, n: nat)
    requires n <= |now| == |was|
    requires AreMaximalRuns(rs, now, was, n) && rs != []
    ensures n > 0
  {
    assert rs[0].length > 0;
  }

  /** A list of runs with the byte at `at`, its very last, taken away. */
  function WithoutByte(rs: seq<Range>, at: nat): seq<Range> {
    if rs == [] || rs[|rs| - 1].End() != at + 1 then rs
    else if rs[|rs| - 1].length <= 1 then rs[..|rs| - 1]
    else rs[..|rs| - 1] + [Range(rs[|rs| - 1].first, rs[|rs| - 1].length - 1)]
  }

  lemma Shortened(rs: seq<Range>, now: Bytes, was: Bytes, n: nat)
    requires 0 < n <= |now| == |was|
    requires AreMaximalRuns(rs, now, was, n)
    ensures AreMaximalRuns(WithoutByte(rs, n - 1), now, was, n - 1)
    ensures rs == if now[n - 1] == was[n - 1] then WithoutByte(rs, n - 1) else Extend(WithoutByte(rs, n - 1), n - 1, 1)
  {
    LastCovers(rs, n);
    StillOrdered(rs, n);
    hide Inside, WithoutByte, Extend;
    forall k | 0 <= k < n - 1 ensures Inside(WithoutByte(rs, n - 1), k) <==> now[k] != was[k] {
      WithoutByteCovers(rs, n - 1, k);
    }
  }

  lemma StillOrdered(rs: seq<Range>, n: nat)
    requires n > 0
    requires forall i :: 0 <= i < |rs| ==> rs[i].length > 0 && rs[i].End() <= n
    requires forall i, j :: 0 <= i < j < |rs| ==> rs[i].End() < rs[j].first
    ensures var w := WithoutByte(rs, n - 1);
            && (forall i :: 0 <= i < |w| ==> w[i].length > 0 && w[i].End() <= n - 1)
            && (forall i, j :: 0 <= i < j < |w| ==> w[i].End() < w[j].first)
            && (rs != [] && rs[|rs| - 1].End() == n ==> rs == Extend(w, n - 1, 1))
            && (rs == [] || rs[|rs| - 1].End() != n ==> rs == w)
  {
    forall i | 0 <= i < |rs| - 1 ensures rs[i].End() < n - 1 {
      LastIsHighest(rs, i);
    }
  }

  lemma LastIsHighest(rs: seq<Range>, i: nat)
    requires i < |rs| - 1
    requires forall i :: 0 <= i < |rs| ==> rs[i].length > 0
    requires forall i, j :: 0 <= i < j < |rs| ==> rs[i].End() < rs[j].first
    ensures rs[i].End() < rs[|rs| - 1].End() - 1
  {
    assert rs[i].End() < rs[|rs| - 1].first;
  }

  lemma LastCovers(rs: seq<Range>, n: nat)
    requires forall i :: 0 <= i < |rs| ==> rs[i].length > 0 && rs[i].End() <= n
    requires forall i, j :: 0 <= i < j < |rs| ==> rs[i].End() < rs[j].first
    ensures n > 0 ==> (Inside(rs, n - 1) <==> rs != [] && rs[|rs| - 1].End() == n)
    ensures !Inside(rs, n)
  {
    forall i | 0 <= i < |rs| - 1 ensures rs[i].End() < n - 1 {
      LastIsHighest(rs, i);
    }
  }

  lemma WithoutByteCovers(rs: seq<Range>, at: nat, k: nat)
    requires k < at
    ensures Inside(WithoutByte(rs, at), k) <==> Inside(rs, k)
  {
    var w := WithoutByte(rs, at);
    if Inside(rs, k) {
      var i :| 0 <= i < |rs| && rs[i].first <= k < rs[i].End();
      assert w[i].first <= k < w[i].End();
    }
    if Inside(w, k) {
      var i :| 0 <= i < |w| && w[i].first <= k < w[i].End();
      assert rs[i].first <= k < rs[i].End();
    }
  }

  lemma {:induction false} RunsOverEqual(now: Bytes, was: Bytes, from: nat, to: nat)
    requires from <= to <= |now| == |was|
    requires now[from..to] == was[from..to]
    ensures Runs(now, was, to) == Runs(now, was, from)
  {
    if from < to {
      assert now[to - 1] == now[from..to][to - 1 - from] == was[to - 1];
      assert now[from..to - 1] == now[from..to][..to - 1 - from];
      assert was[from..to - 1] == was[from..to][..to - 1 - from];
      RunsOverEqual(now, was, from, to - 1);
    }
  }

  lemma {:induction false} RunsOverDiffering(now: Bytes, was: Bytes, from: nat, to: nat)
    requires from < to <= |now| == |was|
    requires forall k :: from <= k < to ==> now[k] != was[k]
    ensures Runs(now, was, to) == Extend(Runs(now, was, from), from, to - from)
  {
    hide Extend;
    if from < to - 1 {
      RunsOverDiffering(now, was, from, to - 1);
      ExtendTwice(Runs(now, was, from), from, to - 1 - from);
    }
  }

  lemma ExtendTwice(rs: seq<Range>, start: nat, length: nat)
    ensures Extend(Extend(rs, start, length), start + length, 1) == Extend(rs, start, length + 1)
  {
  }

  /** Dropping runs past the cap as they come equals cutting the whole list: a dropped
      run is never continued by a later one, and neither is the last one kept. */
  lemma CapCommutes(now: Bytes, was: Bytes, start: nat, length: nat)
    requires start <= |now| == |was|
    ensures Capped(Extend(Runs(now, was, start), start, length)) == AddRun(Capped(Runs(now, was, start)), start, length)
  {
  }

  /** The snapshot while it is patched: new bytes before `i`, old ones from there on. */
  ghost predicate PatchedUpTo(shown: Bytes, now: Bytes, was: Bytes, i: nat) {
    && |shown| == |now| == |was| && i <= |now|
    && (forall k :: 0 <= k < i ==> shown[k] == now[k])
    && (forall k :: i <= k < |shown| ==> shown[k] == was[k])
  }

  lemma PatchedOverEqual(shown: Bytes, now: Bytes, was: Bytes, from: nat, to: nat)
    requires PatchedUpTo(shown, now, was, from) && from <= to <= |now|
    requires shown[from..to] == now[from..to]
    ensures PatchedUpTo(shown, now, was, to) && now[from..to] == was[from..to]
  {
    forall k | from <= k < to ensures shown[k] == now[k] {
      assert shown[from..to][k - from] == now[from..to][k - from];
    }
  }

  lemma NoRunsYet(now: Bytes, was: Bytes)
    requires |now| == |was|
    ensures Capped(Runs(now, was, 0)) == []
  {
  }

  class View {
    var snapshot: array?<Byte>
    var changed: seq<Range>
    var highlighted: seq<Range>

    constructor ()
      ensures snapshot == null && changed == [] && highlighted == []
    {
      snapshot, changed, highlighted := null, [], [];
    }

    /** The painted ranges are the recorded ones. */
    predicate Valid()
      reads this
    {
      highlighted == changed
    }

    method UpdateDisplay(mem: MemoryUnit)
      requires Valid() && snapshot != mem.data
      modifies this, snapshot
      ensures Valid() && snapshot != null && snapshot != mem.data
      ensures snapshot[..] == mem.Contents() == old(mem.Contents())
      ensures var known := old(snapshot) != null && old(snapshot).Length == mem.data.Length;
              && (known ==> snapshot == old(snapshot))
              && changed == if known
                            then Capped(Runs(mem.Contents(), old(if snapshot == null then [] else snapshot[..]), mem.data.Length))
                            else []
    {
      var hadHighlights := changed != [];
      changed := [];
      if snapshot == null || snapshot.Length != mem.data.Length {
        snapshot := new Byte[mem.data.Length](i requires 0 <= i < mem.data.Length reads mem.data => mem.data[i]);
        highlighted := [];
        return;
      }
      var dirty := Patch(snapshot, mem.data);
      if hadHighlights || dirty {
        highlighted := changed;
      }
    }

    method Patch(shown: array<Byte>, now: array<Byte>) returns (dirty: bool)
      requires shown != now && shown.Length == now.Length && changed == []
      modifies this`changed, shown
      ensures shown[..] == now[..]
      ensures changed == Capped(Runs(now[..], old(shown[..]), now.Length))
      ensures dirty == (changed != [])
    {
      hide Runs, Capped;
      ghost var next, was := now[..], shown[..];
      NoRunsYet(next, was);
      var page := 0;
      dirty := false;
      while page < now.Length
        invariant page <= now.Length && now[..] == next
        invariant PatchedUpTo(shown[..], next, was, page)
        invariant changed == Capped(Runs(next, was, page))
        invariant dirty == (changed != [])
      {
        var end := if page + PAGE < now.Length then page + PAGE else now.Length;
        if now[page..end] != shown[page..end] {
          dirty := PatchPage(shown, now, page, end, was, dirty);
        } else {
          assert shown[..][page..end] == next[page..end];
          PatchedOverEqual(shown[..], next, was, page, end);
          RunsOverEqual(next, was, page, end);
        }
        page := end;
      }
    }

    method PatchPage(shown: array<Byte>, now: array<Byte>, page: nat, end: nat, ghost was: Bytes, dirtyIn: bool)
      returns (dirty: bool)
      requires shown != now && page <= end <= shown.Length == now.Length == |was|
      requires PatchedUpTo(shown[..], now[..], was, page)
      requires changed == Capped(Runs(now[..], was, page))
      requires dirtyIn == (changed != [])
      modifies this`changed, shown
      ensures PatchedUpTo(shown[..], now[..], was, end)
      ensures changed == Capped(Runs(now[..], was, end))
      ensures dirty == (changed != [])
    {
      hide Extend, Capped, AddRun;
      ghost var next := now[..];
      var i := page;
      dirty := dirtyIn;
      while i < end
        invariant page <= i <= end && now[..] == next
        invariant PatchedUpTo(shown[..], next, was, i)
        invariant changed == Capped(Runs(next, was, i))
        invariant dirty == (changed != [])
      {
        assert now[i] == next[i] && shown[i] == shown[..][i] == was[i];
        if now[i] == shown[i] {
          i := i + 1;
        } else {
          var start := i;
          i := RunEnd(shown, now, start, end);
          assert forall k :: start <= k < i ==> now[k] == next[k] && shown[k] == shown[..][k];
          RunsOverDiffering(next, was, start, i);
          CapCommutes(next, was, start, i - start);
          PatchRun(shown, now, start, i);
          dirty := true;
        }
      }
    }

    /** Where the run of differing bytes that begins at `start` ends, within the page. */
    method RunEnd(shown: array<Byte>, now: array<Byte>, start: nat, end: nat) returns (i: nat)
      requires start < end <= shown.Length == now.Length && now[start] != shown[start]
      ensures start < i <= end
      ensures forall k :: start <= k < i ==> now[k] != shown[k]
      ensures i < end ==> now[i] == shown[i]
    {
      i := start;
      while i < end && now[i] != shown[i]
        invariant start <= i <= end
        invariant forall k :: start <= k < i ==> now[k] != shown[k]
      {
        i := i + 1;
      }
    }

    /** Copy one changed run and record it. */
    method PatchRun(shown: array<Byte>, now: array<Byte>, start: nat, end: nat)
      requires shown != now && start <= end <= shown.Length == now.Length
      modifies this`changed, shown
      ensures forall k :: 0 <= k < shown.Length ==> shown[k] == if start <= k < end then now[k] else old(shown[k])
      ensures changed == AddRun(old(changed), start, end - start)
    {
      forall k | start <= k < end {
        shown[k] := now[k];
      }
      Record(start, end - start);
    }

    method Record(start: nat, length: nat)
      modifies this`changed
      ensures changed == AddRun(old(changed), start, length)
    {
      if changed != [] && changed[|changed| - 1].End() == start {
        var last := changed[|changed| - 1];
        changed := changed[..|changed| - 1] + [Range(last.first, last.length + length)];
      } else if |changed| < MAX_RUNS {
        changed := changed + [Range(start, length)];
      }
    }
  }
}
