/** What the trace table recovers: for any flow of instructions through the stages, its
    rows are exactly the dynamic instructions of the visible window. */
module TraceRows {
  import opened Words
  import opened Pipeline
  import opened Trace

  /** What really happened in one stage in one cycle: nothing shown, or the instruction
      fetched in cycle `id`. */
  datatype Seen = Blank | Seen(id: nat, pc: Word, raw: Word)

  type Log = seq<seq<Seen>>

  /** Stage `st` in cycle `k`; cycles count from 1. */
  function At(log: Log, k: int, st: int): Seen {
    if 1 <= k <= |log| && 0 <= st < |log[k - 1]| then log[k - 1][st] else Blank
  }

  /** Instructions enter at IF, move one stage a cycle, and wait at most one cycle before ID. */
  predicate Arrives(log: Log, k: int, st: int) {
    At(log, k, st).Seen? ==>
      if st == 0 then At(log, k, st).id == k
      else if st == 1 then
        At(log, k - 1, 0) == At(log, k, 1) ||
        (At(log, k - 1, 0).Blank? && At(log, k - 1, 1).Blank? && At(log, k - 2, 0) == At(log, k, 1))
      else At(log, k - 1, st - 1) == At(log, k, st)
  }

  predicate Apart(log: Log, k: int, st: int, st': int) {
    st != st' && At(log, k, st).Seen? && At(log, k, st').Seen? ==> At(log, k, st).id != At(log, k, st').id
  }

  ghost predicate Flow(log: Log) {
    && (forall k, st :: 0 <= st ==> Arrives(log, k, st))
    && (forall k, st, st' :: Apart(log, k, st, st'))
  }

  /** The snapshots fed to the table show what the log says. */
  predicate Shows(ps: PipelineState, log: Log, k: nat) {
    && |ps.stages| == 5 && ps.cycle == k
    && forall st :: 0 <= st < 5 ==> ShowsStage(ps.stages[st], At(log, k, st))
  }

  predicate ShowsStage(snap: StageSnapshot, seen: Seen) {
    && (Shown(snap) <==> seen.Seen?)
    && (Shown(snap) ==> snap.pc == seen.pc && snap.raw == seen.raw)
  }

  // ---- One cycle per stage ----

  lemma {:induction false} BackToId(log: Log, k: int, st: int)
    requires Flow(log) && At(log, k, st).Seen? && 1 <= st
    ensures At(log, k - st + 1, 1) == At(log, k, st)
    decreases st
  {
    if st != 1 {
      assert Arrives(log, k, st);
      BackToId(log, k - 1, st - 1);
    }
  }

  lemma IdCycle(log: Log, k: int)
    requires Flow(log) && At(log, k, 1).Seen?
    ensures var id := At(log, k, 1).id;
            && (k == id + 1 || k == id + 2)
            && At(log, id, 0) == At(log, k, 1)
            && (k == id + 2 ==> At(log, id + 1, 1).Blank? && At(log, id + 1, 0).Blank?)
  {
    assert Arrives(log, k, 1) && Arrives(log, k - 1, 0) && Arrives(log, k - 2, 0);
  }

  /** An instruction passes each stage once, in order. */
  lemma StagesInOrder(log: Log, k: int, st: int, k': int, st': int)
    requires Flow(log) && At(log, k, st).Seen? && At(log, k', st').Seen?
    requires At(log, k, st).id == At(log, k', st').id
    requires 0 <= st <= st'
    ensures st < st' ==> k < k'
    ensures st == st' ==> k == k'
    ensures At(log, k, st) == At(log, k', st')
  {
    assert Arrives(log, k, st) && Arrives(log, k', st');
    if 1 <= st' {
      BackToId(log, k', st');
      IdCycle(log, k' - st' + 1);
    }
    if 1 <= st {
      BackToId(log, k, st);
      IdCycle(log, k - st + 1);
    }
  }

  // ---- The table ----

  /** Fetch cycles that increase along the rows. */
  predicate InFetchOrder(rows: seq<Row>) {
    forall i, j :: 0 <= i < j < |rows| ==> rows[i].cell[0] < rows[j].cell[0]
  }

  /** The table during cycle `k`, with stages `done` and above entered, complete from cycle `lo` on. */
  ghost predicate RowsOk(log: Log, k: nat, rows: seq<Row>, done: int, lo: nat) {
    && (forall i :: 0 <= i < |rows| ==> rows[i].cell[0] != 0)
    && InFetchOrder(rows)
    && (forall i, st :: 0 <= i < |rows| && 0 <= st < 5 && rows[i].cell[st] != 0 ==> CellOk(log, k, rows[i], st, done))
    && (forall j, st :: lo <= j && 0 <= st < 5 && (j < k || (j == k && done <= st)) && At(log, j, st).Seen? ==>
          InTable(rows, At(log, j, st).id, st, j))
  }

  predicate CellOk(log: Log, k: nat, r: Row, st: nat, done: int)
    requires st < 5
  {
    && r.cell[st] <= k
    && (r.cell[st] == k ==> done <= st)
    && At(log, r.cell[st], st) == Seen(r.cell[0], r.pc, r.raw)
  }

  ghost predicate InTable(rows: seq<Row>, id: nat, st: nat, j: nat)
    requires st < 5
  {
    exists i :: 0 <= i < |rows| && rows[i].cell[0] == id && rows[i].cell[st] == j
  }

  lemma SameRow(log: Log, k: nat, rows: seq<Row>, done: int, lo: nat, i: nat, j: nat)
    requires RowsOk(log, k, rows, done, lo) && i < |rows| && j < |rows|
    requires rows[i].cell[0] == rows[j].cell[0]
    ensures i == j
  {
  }

  /** The row of the instruction now in stage `s` was last seen in stage `s - 1`. */
  lemma TrueRow(log: Log, k: nat, rows: seq<Row>, s: nat, lo: nat) returns (i: nat)
    requires Flow(log) && RowsOk(log, k, rows, s + 1, lo) && 1 <= s < 5
    requires At(log, k, s).Seen? && (lo <= k - 2 || lo <= 1)
    ensures i < |rows| && rows[i].cell[0] == At(log, k, s).id && rows[i].pc == At(log, k, s).pc && rows[i].raw == At(log, k, s).raw
    ensures rows[i].LastStage() == s - 1 && rows[i].LastCycle() < k
    ensures At(log, rows[i].LastCycle(), s - 1) == At(log, k, s)
    ensures rows[i].LastCycle() == k - 1 || (rows[i].LastCycle() == k - 2 && At(log, k - 1, s - 1).Blank?)
  {
    var seen := At(log, k, s);
    var from := k - 1;
    assert Arrives(log, k, s);
    if s == 1 && At(log, k - 1, 0) != seen {
      from := k - 2;
    }
    assert At(log, from, s - 1) == seen && 1 <= from;
    assert InTable(rows, seen.id, s - 1, from);
    i :| 0 <= i < |rows| && rows[i].cell[0] == seen.id && rows[i].cell[s - 1] == from;
    assert CellOk(log, k, rows[i], s - 1, s + 1);
    forall st | s <= st < 5 ensures rows[i].cell[st] == 0 {
      if rows[i].cell[st] != 0 {
        assert CellOk(log, k, rows[i], st, s + 1);
        assert Apart(log, k, s, st);
        StagesInOrder(log, k, s, rows[i].cell[st], st);
        assert false;
      }
    }
  }

  /** The latest eligible row is the instruction's own: an instruction squashed at the
      same PC was last seen earlier. */
  lemma BestIsTrue(log: Log, k: nat, rows: seq<Row>, s: nat, lo: nat, i: nat, best: int)
    requires RowsOk(log, k, rows, s + 1, lo) && 1 <= s < 5 && At(log, k, s).Seen?
    requires i < |rows| && rows[i].cell[0] == At(log, k, s).id && rows[i].pc == At(log, k, s).pc
    requires rows[i].LastStage() == s - 1 && rows[i].LastCycle() < k
    requires At(log, rows[i].LastCycle(), s - 1) == At(log, k, s)
    requires rows[i].LastCycle() == k - 1 || (rows[i].LastCycle() == k - 2 && At(log, k - 1, s - 1).Blank?)
    requires BestRow(rows, At(log, k, s).pc, s, k, best)
    ensures best == i
  {
    assert Eligible(rows[i], At(log, k, s).pc, s, k);
    assert CellOk(log, k, rows[best], s - 1, s + 1);
    hide CellOk;
    SameRow(log, k, rows, s + 1, lo, i, best);
  }

  lemma PlaceYounger(log: Log, k: nat, rows: seq<Row>, snap: StageSnapshot, s: nat, after: seq<Row>, lo: nat)
    requires Flow(log) && RowsOk(log, k, rows, s + 1, lo) && 1 <= s < 5
    requires Placed(rows, snap, s, k, after) && ShowsStage(snap, At(log, k, s)) && Shown(snap)
    requires 1 <= k && (lo <= k - 2 || lo <= 1)
    ensures RowsOk(log, k, after, s, lo)
  {
    hide Flow, RowsOk, At;
    var i := TrueRow(log, k, rows, s, lo);
    var best :| BestRow(rows, snap.pc, s, k, best) && after == Entered(rows, snap, s, k, best);
    BestIsTrue(log, k, rows, s, lo, i, best);
    CellEntered(log, k, rows, best, s, after, lo);
  }

  /** Entering cycle `k` into stage `s` of the right row keeps the table right. */
  lemma CellEntered(log: Log, k: nat, rows: seq<Row>, i: nat, s: nat, after: seq<Row>, lo: nat)
    requires RowsOk(log, k, rows, s + 1, lo) && 1 <= s < 5 && i < |rows|
    requires rows[i].LastStage() == s - 1 && At(log, k, s) == Seen(rows[i].cell[0], rows[i].pc, rows[i].raw)
    requires after == rows[i := rows[i].(cell := rows[i].cell[s := k])]
    ensures RowsOk(log, k, after, s, lo)
  {
    forall j, st | 0 <= j < |after| && 0 <= st < 5 && after[j].cell[st] != 0
      ensures CellOk(log, k, after[j], st, s)
    {
      if !(j == i && st == s) {
        assert CellOk(log, k, rows[j], st, s + 1);
      }
    }
    forall j, st | lo <= j && 0 <= st < 5 && (j < k || (j == k && s <= st)) && At(log, j, st).Seen?
      ensures InTable(after, At(log, j, st).id, st, j)
    {
      var id := At(log, j, st).id;
      if j == k && st == s {
        assert after[i].cell[0] == id && after[i].cell[st] == j;
      } else {
        assert InTable(rows, id, st, j);
        var r :| 0 <= r < |rows| && rows[r].cell[0] == id && rows[r].cell[st] == j;
        assert after[r].cell[0] == id && after[r].cell[st] == j;
      }
    }
  }

  /** A fetch always opens a row of its own, below all others. */
  lemma PlaceFetched(log: Log, k: nat, rows: seq<Row>, snap: StageSnapshot, after: seq<Row>, lo: nat)
    requires Flow(log) && RowsOk(log, k, rows, 1, lo) && 1 <= k
    requires Placed(rows, snap, 0, k, after) && ShowsStage(snap, At(log, k, 0)) && Shown(snap)
    ensures RowsOk(log, k, after, 0, lo)
  {
    var row := Row(snap.pc, snap.raw, NO_CELLS[0 := k]);
    assert Arrives(log, k, 0);
    assert after == rows + [row] by {
      assert forall i :: 0 <= i < |rows| ==> rows[i].LastStage() >= 0;
    }
    forall i | 0 <= i < |rows| ensures rows[i].cell[0] < k {
      assert CellOk(log, k, rows[i], 0, 1);
    }
    forall j, st | 0 <= j < |after| && 0 <= st < 5 && after[j].cell[st] != 0
      ensures CellOk(log, k, after[j], st, 0)
    {
      if j < |rows| {
        assert CellOk(log, k, rows[j], st, 1);
      }
    }
    forall j, st | lo <= j && 0 <= st < 5 && (j < k || (j == k && 0 <= st)) && At(log, j, st).Seen?
      ensures InTable(after, At(log, j, st).id, st, j)
    {
      var id := At(log, j, st).id;
      if j == k && st == 0 {
        assert after[|rows|].cell[0] == id && after[|rows|].cell[st] == j;
      } else {
        assert InTable(rows, id, st, j);
        var r :| 0 <= r < |rows| && rows[r].cell[0] == id && rows[r].cell[st] == j;
        assert after[r].cell[0] == id && after[r].cell[st] == j;
      }
    }
  }

  lemma PlaceOk(log: Log, k: nat, rows: seq<Row>, snap: StageSnapshot, s: nat, after: seq<Row>, lo: nat)
    requires Flow(log) && RowsOk(log, k, rows, s + 1, lo) && s < 5
    requires Placed(rows, snap, s, k, after) && ShowsStage(snap, At(log, k, s))
    requires 1 <= k && (lo <= k - 2 || lo <= 1)
    ensures RowsOk(log, k, after, s, lo)
  {
    if Shown(snap) {
      if s == 0 {
        PlaceFetched(log, k, rows, snap, after, lo);
      } else {
        PlaceYounger(log, k, rows, snap, s, after, lo);
      }
    } else {
      NothingShown(log, k, rows, s, lo);
    }
  }

  lemma NothingShown(log: Log, k: nat, rows: seq<Row>, s: nat, lo: nat)
    requires RowsOk(log, k, rows, s + 1, lo) && s < 5 && At(log, k, s).Blank?
    ensures RowsOk(log, k, rows, s, lo)
  {
    forall i, st | 0 <= i < |rows| && 0 <= st < 5 && rows[i].cell[st] != 0
      ensures CellOk(log, k, rows[i], st, s)
    {
      assert CellOk(log, k, rows[i], st, s + 1);
    }
  }

  // ---- The window ----

  lemma {:induction false} VisibleIsRecent(rows: seq<Row>, first: nat)
    ensures forall i :: 0 <= i < |Visible(rows, first)| ==> Visible(rows, first)[i].LastCycle() >= first
    ensures forall i :: 0 <= i < |rows| && rows[i].LastCycle() >= first ==> rows[i] in Visible(rows, first)
    ensures forall i :: 0 <= i < |Visible(rows, first)| ==> Visible(rows, first)[i] in rows
  {
    if rows != [] {
      var n := |rows| - 1;
      VisibleIsRecent(rows[..n], first);
      assert rows == rows[..n] + [rows[n]];
    }
  }

  lemma {:induction false} VisibleInOrder(rows: seq<Row>, first: nat)
    requires InFetchOrder(rows)
    ensures InFetchOrder(Visible(rows, first))
  {
    if rows != [] {
      var n := |rows| - 1;
      VisibleInOrder(rows[..n], first);
      var v := Visible(rows[..n], first);
      forall i | 0 <= i < |v| ensures v[i].cell[0] < rows[n].cell[0] {
        var j := VisibleFrom(rows[..n], first, i);
        assert rows[j] == v[i];
      }
    }
  }

  /** Scrolling keeps, in order, exactly the rows last seen inside the window. */
  lemma VisibleRows(rows: seq<Row>, first: nat)
    requires InFetchOrder(rows)
    ensures var v := Visible(rows, first);
            && InFetchOrder(v)
            && (forall i :: 0 <= i < |v| ==> v[i] in rows && v[i].LastCycle() >= first)
            && (forall i :: 0 <= i < |rows| && rows[i].LastCycle() >= first ==> rows[i] in v)
  {
    hide Visible, InFetchOrder;
    VisibleIsRecent(rows, first);
    VisibleInOrder(rows, first);
  }

  lemma ScrollOk(log: Log, k: nat, rows: seq<Row>, lo: nat, first: nat)
    requires Flow(log) && RowsOk(log, k, rows, 0, lo) && lo <= first
    ensures RowsOk(log, k, Visible(rows, first), 0, first)
  {
    VisibleRows(rows, first);
    ScrolledCells(log, k, rows, lo, first);
    forall j, st | first <= j && 0 <= st < 5 && (j < k || (j == k && 0 <= st)) && At(log, j, st).Seen?
      ensures InTable(Visible(rows, first), At(log, j, st).id, st, j)
    {
      StaysInTable(log, k, rows, lo, first, j, st);
    }
  }

  lemma {:induction false} VisibleFrom(rows: seq<Row>, first: nat, i: nat) returns (j: nat)
    requires i < |Visible(rows, first)|
    ensures j < |rows| && rows[j] == Visible(rows, first)[i]
  {
    var n := |rows| - 1;
    if i < |Visible(rows[..n], first)| {
      j := VisibleFrom(rows[..n], first, i);
    } else {
      j := n;
    }
  }

  lemma ScrolledCells(log: Log, k: nat, rows: seq<Row>, lo: nat, first: nat)
    requires RowsOk(log, k, rows, 0, lo)
    ensures var v := Visible(rows, first);
            forall i, st :: 0 <= i < |v| && 0 <= st < 5 && v[i].cell[st] != 0 ==> CellOk(log, k, v[i], st, 0)
  {
    hide CellOk, Visible;
    var v := Visible(rows, first);
    forall i, st | 0 <= i < |v| && 0 <= st < 5 && v[i].cell[st] != 0
      ensures CellOk(log, k, v[i], st, 0)
    {
      var j := VisibleFrom(rows, first, i);
      assert CellOk(log, k, rows[j], st, 0);
    }
  }

  lemma StaysInTable(log: Log, k: nat, rows: seq<Row>, lo: nat, first: nat, j: nat, st: nat)
    requires Flow(log) && RowsOk(log, k, rows, 0, lo) && lo <= first <= j
    requires st < 5 && j <= k && At(log, j, st).Seen?
    ensures InTable(Visible(rows, first), At(log, j, st).id, st, j)
  {
    var v := Visible(rows, first);
    VisibleRows(rows, first);
    var id := At(log, j, st).id;
    assert InTable(rows, id, st, j);
    var r :| 0 <= r < |rows| && rows[r].cell[0] == id && rows[r].cell[st] == j;
    LastIsLatest(log, k, rows[r], st);
    hide Visible, Flow, At;
    assert rows[r] in v;
    var i :| 0 <= i < |v| && v[i] == rows[r];
    assert v[i].cell[0] == id && v[i].cell[st] == j;
  }

  lemma LastIsLatest(log: Log, k: nat, r: Row, st: nat)
    requires Flow(log) && st < 5 && 0 != r.cell[st]
    requires forall s :: 0 <= s < 5 && r.cell[s] != 0 ==> CellOk(log, k, r, s, 0)
    ensures r.cell[st] <= r.LastCycle()
  {
    var last := r.LastStage();
    assert CellOk(log, k, r, st, 0) && CellOk(log, k, r, last, 0);
    StagesInOrder(log, r.cell[st], st, r.cell[last], last);
  }

  lemma NextCycle(log: Log, k: nat, rows: seq<Row>, lo: nat)
    requires RowsOk(log, k, rows, 0, lo)
    ensures RowsOk(log, k + 1, rows, 5, lo)
  {
    forall i, st | 0 <= i < |rows| && 0 <= st < 5 && rows[i].cell[st] != 0
      ensures CellOk(log, k + 1, rows[i], st, 5)
    {
      assert CellOk(log, k, rows[i], st, 0);
    }
  }

  lemma StagesPlacedOk(log: Log, k: nat, rows: seq<Row>, ps: PipelineState, lo: nat,
                       r4: seq<Row>, r3: seq<Row>, r2: seq<Row>, r1: seq<Row>, r0: seq<Row>)
    requires Flow(log) && RowsOk(log, k, rows, 5, lo) && Shows(ps, log, k)
    requires 1 <= k && (lo <= k - 2 || lo <= 1)
    requires Placed(rows, ps.stages[4], 4, k, r4) && Placed(r4, ps.stages[3], 3, k, r3)
    requires Placed(r3, ps.stages[2], 2, k, r2) && Placed(r2, ps.stages[1], 1, k, r1) && Placed(r1, ps.stages[0], 0, k, r0)
    ensures RowsOk(log, k, r0, 0, lo)
  {
    hide Flow, RowsOk, Placed, ShowsStage;
    PlaceOk(log, k, rows, ps.stages[4], 4, r4, lo);
    PlaceOk(log, k, r4, ps.stages[3], 3, r3, lo);
    PlaceOk(log, k, r3, ps.stages[2], 2, r2, lo);
    PlaceOk(log, k, r2, ps.stages[1], 1, r1, lo);
    PlaceOk(log, k, r1, ps.stages[0], 0, r0, lo);
  }

  /** One update takes a right table to a right table. */
  lemma UpdateOk(log: Log, k: nat, rows: seq<Row>, ps: PipelineState, after: seq<Row>)
    requires Flow(log) && RowsOk(log, k, rows, 0, FirstVisible(k))
    requires Shows(ps, log, k + 1) && Updated(rows, k, ps, after)
    ensures RowsOk(log, k + 1, after, 0, FirstVisible(k + 1))
  {
    hide Flow, RowsOk, Placed, ShowsStage;
    var r4, r3, r2, r1, r0 :|
      && Placed(if Restarts(ps.cycle, k) then [] else rows, ps.stages[4], 4, ps.cycle, r4)
      && Placed(r4, ps.stages[3], 3, ps.cycle, r3)
      && Placed(r3, ps.stages[2], 2, ps.cycle, r2)
      && Placed(r2, ps.stages[1], 1, ps.cycle, r1)
      && Placed(r1, ps.stages[0], 0, ps.cycle, r0)
      && after == Visible(r0, FirstVisible(ps.cycle));
    var lo := FirstVisible(k);
    NextCycle(log, k, rows, lo);
    StagesPlacedOk(log, k + 1, rows, ps, lo, r4, r3, r2, r1, r0);
    ScrollOk(log, k + 1, r0, lo, FirstVisible(k + 1));
  }

  // ---- Scrolling, restarting and keeping ----

  lemma NotLater(log: Log, k: nat, rows: seq<Row>, lo: nat)
    requires RowsOk(log, k, rows, 0, lo)
    ensures forall i :: 0 <= i < |rows| ==> rows[i].LastCycle() <= k
  {
    forall i | 0 <= i < |rows| ensures rows[i].LastCycle() <= k {
      var last := rows[i].LastStage();
      assert last >= 0 ==> CellOk(log, k, rows[i], last, 0);
    }
  }

  /** After an update every row was last seen less than 20 cycles ago. */
  lemma LastSeen(rows: seq<Row>, last: nat, ps: PipelineState, after: seq<Row>)
    requires |ps.stages| == 5 && Updated(rows, last, ps, after) && ps.cycle > 0
    ensures forall i :: 0 <= i < |after| ==> after[i].LastCycle() >= 1 && after[i].LastCycle() > ps.cycle - 20
  {
    hide Placed;
    var r4, r3, r2, r1, r0 :|
      && Placed(if Restarts(ps.cycle, last) then [] else rows, ps.stages[4], 4, ps.cycle, r4)
      && Placed(r4, ps.stages[3], 3, ps.cycle, r3)
      && Placed(r3, ps.stages[2], 2, ps.cycle, r2)
      && Placed(r2, ps.stages[1], 1, ps.cycle, r1)
      && Placed(r1, ps.stages[0], 0, ps.cycle, r0)
      && after == Visible(r0, FirstVisible(ps.cycle));
    VisibleIsRecent(r0, FirstVisible(ps.cycle));
  }

  /** Every cell is of this cycle. */
  predicate OnlyCycle(rows: seq<Row>, cycle: nat) {
    forall i, st :: 0 <= i < |rows| && 0 <= st < 5 ==> rows[i].cell[st] == 0 || rows[i].cell[st] == cycle
  }

  /** The same row, perhaps seen in one more stage. */
  predicate Extends(r: Row, r': Row) {
    && r'.pc == r.pc && r'.raw == r.raw
    && (forall st :: 0 <= st < 5 && r.cell[st] != 0 ==> r'.cell[st] == r.cell[st])
    && r'.LastCycle() >= r.LastCycle()
  }

  predicate AllExtended(rows: seq<Row>, after: seq<Row>) {
    |rows| <= |after| && forall i :: 0 <= i < |rows| ==> Extends(rows[i], after[i])
  }

  lemma PlacedExtends(rows: seq<Row>, snap: StageSnapshot, s: nat, cycle: nat, after: seq<Row>)
    requires s < 5 && Placed(rows, snap, s, cycle, after)
    ensures AllExtended(rows, after)
    ensures OnlyCycle(rows, cycle) ==> OnlyCycle(after, cycle)
  {
    if Shown(snap) {
      var best :| BestRow(rows, snap.pc, s, cycle, best) && after == Entered(rows, snap, s, cycle, best);
      if best >= 0 {
        assert Eligible(rows[best], snap.pc, s, cycle);
      }
    }
  }

  lemma ExtendsTrans(a: seq<Row>, b: seq<Row>, c: seq<Row>)
    requires AllExtended(a, b) && AllExtended(b, c)
    ensures AllExtended(a, c)
  {
    forall i | 0 <= i < |a| ensures Extends(a[i], c[i]) {
      assert Extends(a[i], b[i]) && Extends(b[i], c[i]);
    }
  }

  /** A cycle number that does not go up, or jumps by more than 20, starts a new table:
      only this cycle is in it. Otherwise every row seen in the last 20 cycles stays. */
  lemma RestartsExactly(rows: seq<Row>, last: nat, ps: PipelineState, after: seq<Row>)
    requires |ps.stages| == 5 && Updated(rows, last, ps, after)
    ensures ps.cycle <= last || ps.cycle > last + 20 ==> OnlyCycle(after, ps.cycle)
    ensures last < ps.cycle <= last + 20 ==>
              forall i :: 0 <= i < |rows| && rows[i].LastCycle() > ps.cycle - 20 && rows[i].LastCycle() > 0 ==>
                exists r :: r in after && Extends(rows[i], r)
  {
    hide Placed, Extends;
    var kept := if Restarts(ps.cycle, last) then [] else rows;
    var r4, r3, r2, r1, r0 :|
      && Placed(kept, ps.stages[4], 4, ps.cycle, r4)
      && Placed(r4, ps.stages[3], 3, ps.cycle, r3)
      && Placed(r3, ps.stages[2], 2, ps.cycle, r2)
      && Placed(r2, ps.stages[1], 1, ps.cycle, r1)
      && Placed(r1, ps.stages[0], 0, ps.cycle, r0)
      && after == Visible(r0, FirstVisible(ps.cycle));
    PlacedAll(kept, ps, r4, r3, r2, r1, r0);
    VisibleIsRecent(r0, FirstVisible(ps.cycle));
    forall i | 0 <= i < |kept| && kept[i].LastCycle() > ps.cycle - 20 && kept[i].LastCycle() > 0
      ensures exists r :: r in after && Extends(kept[i], r)
    {
      assert Extends(kept[i], r0[i]);
      LaterThan(kept[i], r0[i]);
    }
  }

  lemma LaterThan(r: Row, r': Row)
    requires Extends(r, r')
    ensures r'.LastCycle() >= r.LastCycle()
  {
  }

  lemma PlacedAll(rows: seq<Row>, ps: PipelineState, r4: seq<Row>, r3: seq<Row>, r2: seq<Row>, r1: seq<Row>, r0: seq<Row>)
    requires |ps.stages| == 5
    requires Placed(rows, ps.stages[4], 4, ps.cycle, r4) && Placed(r4, ps.stages[3], 3, ps.cycle, r3)
    requires Placed(r3, ps.stages[2], 2, ps.cycle, r2) && Placed(r2, ps.stages[1], 1, ps.cycle, r1)
    requires Placed(r1, ps.stages[0], 0, ps.cycle, r0)
    ensures AllExtended(rows, r0)
    ensures OnlyCycle(rows, ps.cycle) ==> OnlyCycle(r0, ps.cycle)
  {
    hide Placed, AllExtended, OnlyCycle;
    PlacedExtends(rows, ps.stages[4], 4, ps.cycle, r4);
    PlacedExtends(r4, ps.stages[3], 3, ps.cycle, r3);
    PlacedExtends(r3, ps.stages[2], 2, ps.cycle, r2);
    PlacedExtends(r2, ps.stages[1], 1, ps.cycle, r1);
    PlacedExtends(r1, ps.stages[0], 0, ps.cycle, r0);
    ExtendsTrans(rows, r4, r3);
    ExtendsTrans(rows, r3, r2);
    ExtendsTrans(rows, r2, r1);
    ExtendsTrans(rows, r1, r0);
  }
}
