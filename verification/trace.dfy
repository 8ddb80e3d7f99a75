/** The pipeline-trace table (`PipelineTraceWidget::updateCycle`): it reconstructs
    dynamic instructions from per-stage snapshots that carry only a PC. */
module Trace {
  import opened Words
  import opened Pipeline

  const MAX_CYCLES: nat := 20

  type Cells = c: seq<nat> | |c| == 5 witness [0, 0, 0, 0, 0]

  const NO_CELLS: Cells := [0, 0, 0, 0, 0]

  /** One dynamic instruction: the cycle in which it occupied each stage, 0 if not seen there. */
  datatype Row = Row(pc: Word, raw: Word, cell: Cells) {
    function LastStage(): (s: int)
      ensures -1 <= s < 5
      ensures s >= 0 ==> cell[s] != 0
      ensures forall k :: s < k < 5 ==> cell[k] == 0
    {
      if cell[4] != 0 then 4 else if cell[3] != 0 then 3 else if cell[2] != 0 then 2
      else if cell[1] != 0 then 1 else if cell[0] != 0 then 0 else -1
    }

    function LastCycle(): nat {
      if LastStage() < 0 then 0 else cell[LastStage()]
    }
  }

  predicate Shown(snap: StageSnapshot) {
    snap.valid && !snap.stalled && !snap.flushed
  }

  /** A row the instruction seen at `pc` in stage `s` may continue. */
  predicate Eligible(r: Row, pc: Word, s: int, cycle: nat) {
    r.pc == pc && r.LastStage() == s - 1 && r.LastCycle() < cycle
  }

  /** The eligible row seen last, if there is one. */
  ghost predicate BestRow(rows: seq<Row>, pc: Word, s: int, cycle: nat, best: int) {
    && -1 <= best < |rows|
    && (best == -1 ==> forall i :: 0 <= i < |rows| ==> !Eligible(rows[i], pc, s, cycle))
    && (best >= 0 ==>
          Eligible(rows[best], pc, s, cycle) &&
          (forall i :: 0 <= i < |rows| && Eligible(rows[i], pc, s, cycle) ==> rows[i].LastCycle() <= rows[best].LastCycle()) &&
          (forall i :: 0 <= i < best && Eligible(rows[i], pc, s, cycle) ==> rows[i].LastCycle() < rows[best].LastCycle()))
  }

  /** The table once the instruction has been entered into row `best`, or into a new one. */
  function Entered(rows: seq<Row>, snap: StageSnapshot, s: nat, cycle: nat, best: int): seq<Row>
    requires s < 5 && best < |rows|
  {
    if best >= 0 then rows[best := rows[best].(cell := rows[best].cell[s := cycle])]
    else rows + [Row(snap.pc, snap.raw, NO_CELLS[s := cycle])]
  }

  /** `after` is `rows` with the instruction seen in stage `s` entered. */
  ghost predicate Placed(rows: seq<Row>, snap: StageSnapshot, s: nat, cycle: nat, after: seq<Row>)
    requires s < 5
  {
    if !Shown(snap) then after == rows
    else
      exists best :: BestRow(rows, snap.pc, s, cycle, best) && after == Entered(rows, snap, s, cycle, best)
  }

  function FirstVisible(cycle: nat): nat {
    if cycle > MAX_CYCLES then cycle - MAX_CYCLES + 1 else 1
  }

  function Visible(rows: seq<Row>, first: nat): (v: seq<Row>)
  {
    if rows == [] then []
    else Visible(rows[..|rows| - 1], first) +
         if rows[|rows| - 1].LastCycle() < first then [] else [rows[|rows| - 1]]
  }

  predicate Restarts(cycle: nat, lastCycle: nat) {
    cycle <= lastCycle || cycle - lastCycle > MAX_CYCLES
  }

  /** `after` is the table once `ps` has been entered, oldest stage first. */
  ghost predicate Updated(rows: seq<Row>, lastCycle: nat, ps: PipelineState, after: seq<Row>)
    requires |ps.stages| == 5
  {
    exists r4, r3, r2, r1, r0 ::
      && Placed(if Restarts(ps.cycle, lastCycle) then [] else rows, ps.stages[4], 4, ps.cycle, r4)
      && Placed(r4, ps.stages[3], 3, ps.cycle, r3)
      && Placed(r3, ps.stages[2], 2, ps.cycle, r2)
      && Placed(r2, ps.stages[1], 1, ps.cycle, r1)
      && Placed(r1, ps.stages[0], 0, ps.cycle, r0)
      && after == Visible(r0, FirstVisible(ps.cycle))
  }

  class TraceTable {
    var rows: seq<Row>
    var lastCycle: nat

    constructor ()
      ensures rows == [] && lastCycle == 0
    {
      rows, lastCycle := [], 0;
    }

    method Clear()
      modifies this
      ensures rows == [] && lastCycle == 0
    {
      rows, lastCycle := [], 0;
    }

    method FindRow(pc: Word, s: nat, cycle: nat) returns (best: int)
      requires s < 5
      ensures BestRow(rows, pc, s, cycle, best)
    {
      best := -1;
      for i := 0 to |rows|
        invariant -1 <= best < i
        invariant BestRow(rows[..i], pc, s, cycle, best)
      {
        var r := rows[i];
        if !(r.pc != pc || r.LastStage() != s - 1 || r.LastCycle() >= cycle) {
          if best == -1 || r.LastCycle() > rows[best].LastCycle() {
            best := i;
          }
        }
        assert rows[..i + 1] == rows[..i] + [r];
      }
      assert rows[..|rows|] == rows;
    }

    method Place(snap: StageSnapshot, s: nat, cycle: nat)
      requires s < 5
      modifies this`rows
      ensures Placed(old(rows), snap, s, cycle, rows)
    {
      if !snap.valid || snap.stalled || snap.flushed {
        return;
      }
      var found := FindRow(snap.pc, s, cycle);
      var best := found;
      if best == -1 {
        rows := rows + [Row(snap.pc, snap.raw, NO_CELLS)];
        best := |rows| - 1;
      }
      rows := rows[best := rows[best].(cell := rows[best].cell[s := cycle])];
      assert rows == Entered(old(rows), snap, s, cycle, found);
    }

    method UpdateCycle(ps: PipelineState)
      requires |ps.stages| == 5
      modifies this
      ensures Updated(old(rows), old(lastCycle), ps, rows)
      ensures lastCycle == ps.cycle
    {
      var cycle := ps.cycle;
      if cycle <= lastCycle || cycle - lastCycle > MAX_CYCLES {
        rows := [];
      }
      lastCycle := cycle;
      ghost var seen := [rows];
      var s := 4;
      while s >= 0
        invariant -1 <= s <= 4 && lastCycle == cycle
        invariant |seen| == 5 - s && seen[4 - s] == rows
        invariant seen[0] == if Restarts(cycle, old(lastCycle)) then [] else old(rows)
        invariant forall k :: s < k < 5 ==> Placed(seen[4 - k], ps.stages[k], k, cycle, seen[5 - k])
      {
        Place(ps.stages[s], s, cycle);
        seen := seen + [rows];
        s := s - 1;
      }
      rows := Visible(rows, FirstVisible(cycle));
      assert Placed(seen[0], ps.stages[4], 4, cycle, seen[1]);
      assert Placed(seen[1], ps.stages[3], 3, cycle, seen[2]);
      assert Placed(seen[2], ps.stages[2], 2, cycle, seen[3]);
      assert Placed(seen[3], ps.stages[1], 1, cycle, seen[4]);
      assert Placed(seen[4], ps.stages[0], 0, cycle, seen[5]);
    }
  }
}
