/** The trace table fed by the pipeline: its rows are the dynamic instructions of the run. */
module TracePipeline {
  import opened Words
  import opened Cp0
  import opened PipelineUnits
  import opened Pipeline
  import opened Refinement
  import opened Invariance
  import opened Runs
  import opened Halting
  import opened Trace
  import opened TraceRows

  /** The cycle in which the instruction of each pipeline register was fetched: the
      identity the hardware does not carry. */
  datatype Tags = Tags(ifId: nat, idEx: nat, exMem: nat, memWb: nat)

  /** IF/ID keeps its instruction for one more cycle. */
  predicate Holds(s: State) {
    LoadUseHazard(s.idEx, s.ifId) && FlushTarget(RunStages(s)).None?
  }

  function NextTags(s: State, t: Tags): Tags {
    Tags(if Holds(s) then t.ifId else s.cycle + 1, t.ifId, t.idEx, t.exMem)
  }

  function TagsAt(s: State, n: nat): Tags {
    if n == 0 then Tags(0, 0, 0, 0) else NextTags(Run(s, n - 1), TagsAt(s, n - 1))
  }

  function Occupant(snap: StageSnapshot, id: nat): Seen {
    if Shown(snap) then Seen(id, snap.pc, snap.raw) else Blank
  }

  /** Which instruction each stage really worked on in the cycle that starts in `s`. */
  function LogRow(s: State, t: Tags): (row: seq<Seen>)
    ensures |row| == 5
  {
    var st := Step(s).ps.stages;
    [Occupant(st[0], s.cycle + 1), Occupant(st[1], t.ifId), Occupant(st[2], t.idEx), Occupant(st[3], t.exMem), Occupant(st[4], t.memWb)]
  }

  function PipelineLog(s: State, n: nat): (log: Log)
    ensures |log| == n
  {
    if n == 0 then [] else PipelineLog(s, n - 1) + [LogRow(Run(s, n - 1), TagsAt(s, n - 1))]
  }

  /** Older instructions were fetched earlier; behind an instruction in EX, IF/ID is fresh. */
  predicate TagsOk(s: State, t: Tags) {
    && t.ifId <= s.cycle && t.idEx <= s.cycle && t.exMem <= s.cycle && t.memWb <= s.cycle
    && (s.ifId.valid && s.idEx.valid ==> t.ifId == s.cycle)
    && (s.ifId.valid ==> t.idEx < t.ifId || !s.idEx.valid)
    && (s.ifId.valid ==> t.exMem < t.ifId || !s.exMem.valid)
    && (s.ifId.valid ==> t.memWb < t.ifId || !s.memWb.valid)
    && (s.idEx.valid ==> t.exMem < t.idEx || !s.exMem.valid)
    && (s.idEx.valid ==> t.memWb < t.idEx || !s.memWb.valid)
    && (s.exMem.valid ==> t.memWb < t.exMem || !s.memWb.valid)
  }

  /** Where the contents of the pipeline registers come from. */
  lemma RegisterSources(s: State)
    requires Inv(s)
    ensures var n := Step(s).state; var st := Step(s).ps.stages;
            && n.cycle == s.cycle + 1
            && (Holds(s) && n.ifId.valid ==> n.ifId == s.ifId && s.idEx.valid && !n.idEx.valid && st[0].stalled && st[1].stalled)
            && (!Holds(s) && n.ifId.valid ==> !st[0].stalled && !st[0].flushed && st[0].pc == n.ifId.pc && st[0].raw == n.ifId.instr
                                              && st[0].valid == !n.ifId.fetchFault)
            && (n.idEx.valid ==> s.ifId.valid && !st[1].stalled && !st[1].flushed && n.idEx.pc == s.ifId.pc
                                 && n.idEx.decoded.raw == s.ifId.instr
                                 && (n.idEx.earlyTrap == Some(ExceptionCode.AdEL) <==> s.ifId.fetchFault))
            && (n.exMem.valid ==> s.idEx.valid && s.idEx.earlyTrap.None? && n.exMem.pc == s.idEx.pc && n.exMem.raw == s.idEx.decoded.raw)
            && (n.memWb.valid ==> s.exMem.valid && n.memWb.pc == s.exMem.pc && n.memWb.raw == s.exMem.raw)
  {
    StepKeeps(s);
    NextMemWb(s);
    NextExMem(s);
    ExShape(s);
    ExKeepsWord(s);
    MemKeepsWord(s.mem, s.exMem);
    FetchStage(s);
    DecodeRegisterSource(s);
  }

  lemma ExKeepsWord(s: State)
    ensures ExOf(s).next.valid ==> ExOf(s).next.raw == s.idEx.decoded.raw
  {
    hide ForwardOperands;
  }

  lemma MemKeepsWord(mem: seq<Byte>, x: ExMem)
    ensures var y := MemoryAccess(mem, x).next; y.valid ==> x.valid && y.pc == x.pc && y.raw == x.raw
  {
  }

  lemma WaitingState(s: State)
    ensures var n := Step(s).state;
            Holds(s) && n.ifId.valid ==> n.ifId == s.ifId && s.idEx.valid && !n.idEx.valid
    ensures Step(s).state.ifId.valid ==> (Step(s).ps.loadStall <==> Holds(s))
    ensures Step(s).state.cycle == s.cycle + 1
  {
    assert LoadUseHazard(s.idEx, s.ifId) ==> s.idEx.valid;
    hide Fetch, LoadUseHazard, DecodeStage, MemoryAccess, WriteBack, ExecuteStage, NextCp0;
  }

  lemma FetchStage(s: State)
    requires Inv(s)
    ensures var n := Step(s).state; var st := Step(s).ps.stages;
            && n.cycle == s.cycle + 1
            && (Holds(s) && n.ifId.valid ==> n.ifId == s.ifId && s.idEx.valid && !n.idEx.valid && st[0].stalled && st[1].stalled)
            && (!Holds(s) && n.ifId.valid ==> !st[0].stalled && !st[0].flushed && st[0].pc == n.ifId.pc && st[0].raw == n.ifId.instr
                                              && st[0].valid == !n.ifId.fetchFault)
  {
    hide Step, Inv, Holds, ExecuteStage, MemoryAccess;
    WaitingState(s);
    StagesShown(s);
  }

  lemma DecodeRegisterSource(s: State)
    requires Inv(s)
    ensures var n := Step(s).state; var st := Step(s).ps.stages;
            n.idEx.valid ==> s.ifId.valid && !st[1].stalled && !st[1].flushed && n.idEx.pc == s.ifId.pc
                             && n.idEx.decoded.raw == s.ifId.instr
                             && (n.idEx.earlyTrap == Some(ExceptionCode.AdEL) <==> s.ifId.fetchFault)
  {
    var id := DecodeStage(WriteBack(s.regs, s.memWb), s.ifId).next;
    if s.ifId.valid {
      HeldDecode(WriteBack(s.regs, s.memWb), s.ifId);
    }
    assert s.ifId.valid ==> id.pc == s.ifId.pc && id.decoded.raw == s.ifId.instr
                            && (id.earlyTrap == Some(ExceptionCode.AdEL) <==> s.ifId.fetchFault);
    hide Inv, Held, Fetch, DecodeStage, MemoryAccess, WriteBack, ExecuteStage, LoadUseHazard, NextCp0;
  }

  lemma TagsKept(s: State, t: Tags)
    requires Inv(s) && TagsOk(s, t)
    ensures TagsOk(Step(s).state, NextTags(s, t))
  {
    hide Inv, Step, Holds;
    RegisterSources(s);
  }

  /** The snapshots of ID, EX, MEM and WB show the registers the cycle started with. */
  lemma BackSnapshots(s: State)
    ensures var st := Step(s).ps.stages;
            && |st| == 5
            && st[1].valid == (s.ifId.valid && !s.ifId.fetchFault) && st[1].pc == s.ifId.pc && st[1].raw == s.ifId.instr
            && st[2] == StageSnapshot(s.idEx.valid && s.idEx.earlyTrap != Some(ExceptionCode.AdEL), false, false, s.idEx.pc, s.idEx.decoded.raw)
            && st[3] == StageSnapshot(s.exMem.valid, false, false, s.exMem.pc, s.exMem.raw)
            && st[4] == StageSnapshot(s.memWb.valid, false, false, s.memWb.pc, s.memWb.raw)
  {
    hide RunStages, NextState, FlushTarget;
  }

  /** The log row in terms of the pipeline registers. */
  lemma RowRegisters(s: State, t: Tags)
    ensures var r := LogRow(s, t);
            && (r[1].Seen? ==> s.ifId.valid && !s.ifId.fetchFault && r[1] == Seen(t.ifId, s.ifId.pc, s.ifId.instr))
            && r[2] == (if s.idEx.valid && s.idEx.earlyTrap != Some(ExceptionCode.AdEL)
                        then Seen(t.idEx, s.idEx.pc, s.idEx.decoded.raw) else Blank)
            && r[3] == (if s.exMem.valid then Seen(t.exMem, s.exMem.pc, s.exMem.raw) else Blank)
            && r[4] == (if s.memWb.valid then Seen(t.memWb, s.memWb.pc, s.memWb.raw) else Blank)
  {
    BackSnapshots(s);
    hide Step;
  }

  /** How the log row explains what ends up in IF/ID and ID/EX. */
  lemma RowFront(s: State, t: Tags)
    requires Inv(s)
    ensures var n := Step(s).state; var r := LogRow(s, t);
            && (n.ifId.valid && !n.ifId.fetchFault && !Holds(s) ==> r[0] == Seen(s.cycle + 1, n.ifId.pc, n.ifId.instr))
            && (n.ifId.valid && Holds(s) ==> n.ifId == s.ifId && s.idEx.valid && !n.idEx.valid && r[0].Blank? && r[1].Blank?)
            && (n.idEx.valid && n.idEx.earlyTrap != Some(ExceptionCode.AdEL) ==>
                  r[1] == Seen(t.ifId, n.idEx.pc, n.idEx.decoded.raw))
  {
    FetchStage(s);
    DecodeRegisterSource(s);
    BackSnapshots(s);
    hide Step, Inv, Holds;
  }

  /** What the stages worked on follows from the cycle before. */
  lemma RowFollows(s: State, t: Tags)
    requires Inv(s)
    ensures var n := Step(s).state; var r := LogRow(s, t); var r' := LogRow(n, NextTags(s, t));
            && (r'[1].Seen? && !Holds(s) ==> r[0] == r'[1])
            && (r'[1].Seen? && Holds(s) ==> r[0].Blank? && r[1].Blank? && s.idEx.valid && n.ifId == s.ifId && n.ifId.valid)
            && (r'[2].Seen? ==> r[1] == r'[2])
            && (r'[3].Seen? ==> r[2] == r'[3])
            && (r'[4].Seen? ==> r[3] == r'[4])
  {
    RegisterSources(s);
    RowFront(s, t);
    RowRegisters(s, t);
    RowRegisters(Step(s).state, NextTags(s, t));
    hide Inv, Step, Holds, LogRow;
  }

  /** In one cycle every stage works on a different instruction. */
  lemma RowApart(s: State, t: Tags, st: nat, st': nat)
    requires TagsOk(s, t) && st < st' < 5
    ensures var r := LogRow(s, t); r[st].Seen? && r[st'].Seen? ==> r[st].id > r[st'].id
  {
    RowRegisters(s, t);
    RowFetchId(s, t);
    hide Step, LogRow;
  }

  lemma RowFetchId(s: State, t: Tags)
    ensures LogRow(s, t)[0].Seen? ==> LogRow(s, t)[0].id == s.cycle + 1
  {
    hide Step;
  }

  lemma {:induction false} RunTags(s: State, n: nat)
    requires Drained(s) && s.cycle == 0
    ensures Run(s, n).cycle == n && TagsOk(Run(s, n), TagsAt(s, n)) && Inv(Run(s, n))
  {
    hide Inv, Step, Holds;
    EmptyPipeline(s);
    RunKeeps(s, n);
    if n != 0 {
      RunTags(s, n - 1);
      TagsKept(Run(s, n - 1), TagsAt(s, n - 1));
      RegisterSources(Run(s, n - 1));
    }
  }

  lemma {:induction false} LogAt(s: State, n: nat, k: int)
    requires 1 <= k <= n
    ensures PipelineLog(s, n)[k - 1] == LogRow(Run(s, k - 1), TagsAt(s, k - 1))
  {
    hide Step, LogRow;
    if k < n {
      LogAt(s, n - 1, k);
    }
  }

  function RowOf(s: State, k: int): (row: seq<Seen>)
    requires 1 <= k
    ensures |row| == 5
  {
    LogRow(Run(s, k - 1), TagsAt(s, k - 1))
  }

  lemma AtInLog(s: State, n: nat, k: int, st: int)
    ensures At(PipelineLog(s, n), k, st) == if 1 <= k <= n && 0 <= st < 5 then RowOf(s, k)[st] else Blank
  {
    hide Step, LogRow;
    if 1 <= k <= n {
      LogAt(s, n, k);
    }
  }

  /** The log holds exactly what the snapshots show as valid, not stalled and not flushed. */
  lemma LogShows(s: State, n: nat, k: int, st: nat)
    requires 1 <= k <= n && st < 5
    ensures var snap := Step(Run(s, k - 1)).ps.stages[st]; var seen := At(PipelineLog(s, n), k, st);
            && (seen.Seen? <==> snap.valid && !snap.stalled && !snap.flushed)
            && (seen.Seen? ==> seen.pc == snap.pc && seen.raw == snap.raw)
  {
    hide Step, At, PipelineLog;
    AtInLog(s, n, k, st);
  }

  /** Two consecutive rows of the log. */
  lemma RowsFollow(s: State, k: int)
    requires Drained(s) && s.cycle == 0 && 2 <= k
    ensures var q := Run(s, k - 2); var r := RowOf(s, k - 1); var r' := RowOf(s, k);
            && (r'[1].Seen? && !Holds(q) ==> r[0] == r'[1])
            && (r'[1].Seen? && Holds(q) ==> r[0].Blank? && r[1].Blank?)
            && (r'[2].Seen? ==> r[1] == r'[2])
            && (r'[3].Seen? ==> r[2] == r'[3])
            && (r'[4].Seen? ==> r[3] == r'[4])
  {
    hide Inv, Step, TagsOk, LogRow, Drained, Holds;
    RunTags(s, k - 2);
    RowFollows(Run(s, k - 2), TagsAt(s, k - 2));
  }

  /** An instruction that waited in IF/ID was fetched two cycles ago. */
  lemma HeldWasFetched(s: State, k: nat)
    requires Drained(s) && s.cycle == 0 && 3 <= k && Holds(Run(s, k - 2)) && RowOf(s, k)[1].Seen?
    ensures RowOf(s, k - 2)[0] == RowOf(s, k)[1]
  {
    hide Inv, Step, TagsOk, Drained, Holds, LogRow, NextTags;
    RunTags(s, k - 2);
    RunTags(s, k - 3);
    var q, t := Run(s, k - 3), TagsAt(s, k - 3);
    assert Run(s, k - 2) == Step(q).state && TagsAt(s, k - 2) == NextTags(q, t);
    assert Run(s, k - 1) == Step(Step(q).state).state && TagsAt(s, k - 1) == NextTags(Step(q).state, NextTags(q, t));
    hide Run, TagsAt;
    HeldTwice(q, t);
  }

  lemma HeldTwice(q: State, t: Tags)
    requires Inv(q) && Inv(Step(q).state) && Holds(Step(q).state)
    requires var p := Step(q).state; LogRow(Step(p).state, NextTags(p, NextTags(q, t)))[1].Seen?
    ensures var p := Step(q).state; LogRow(q, t)[0] == LogRow(Step(p).state, NextTags(p, NextTags(q, t)))[1]
  {
    hide Inv, Step, Holds, LogRow, NextTags;
    var p := Step(q).state;
    WaitingWord(p, NextTags(q, t));
    FreshBehindEx(q, t);
  }

  /** What a held instruction looks like in ID one cycle later. */
  lemma WaitingWord(p: State, t: Tags)
    requires Inv(p) && Holds(p) && LogRow(Step(p).state, NextTags(p, t))[1].Seen?
    ensures p.idEx.valid && p.ifId.valid && !p.ifId.fetchFault
    ensures LogRow(Step(p).state, NextTags(p, t))[1] == Seen(t.ifId, p.ifId.pc, p.ifId.instr)
  {
    RowFollows(p, t);
    RowRegisters(Step(p).state, NextTags(p, t));
    hide Inv, Step, LogRow;
  }

  lemma ArrivesInLog(s: State, n: nat, k: int, st: nat)
    requires Drained(s) && s.cycle == 0
    ensures Arrives(PipelineLog(s, n), k, st)
  {
    hide Inv, Step, TagsOk, Drained, Holds;
    AtInLog(s, n, k, st);
    AtInLog(s, n, k - 1, st - 1);
    AtInLog(s, n, k - 1, 1);
    AtInLog(s, n, k - 2, 0);
    if 1 <= k <= n && st < 5 && RowOf(s, k)[st].Seen? {
      if st == 0 {
        RunTags(s, k - 1);
      } else if k == 1 {
        FirstCycleBlank(s, st);
        assert false;
      } else {
        hide LogRow, RowOf;
        RowsFollow(s, k);
        if st == 1 && Holds(Run(s, k - 2)) {
          NotFirst(s);
          assert k != 2;
          HeldWasFetched(s, k);
        }
      }
    }
  }

  lemma ApartInLog(s: State, n: nat, k: int, st: int, st': int)
    requires Drained(s) && s.cycle == 0
    ensures Apart(PipelineLog(s, n), k, st, st')
  {
    hide Inv, Step, TagsOk, Drained, LogRow;
    AtInLog(s, n, k, st);
    AtInLog(s, n, k, st');
    if 1 <= k <= n && 0 <= st < 5 && 0 <= st' < 5 {
      RunTags(s, k - 1);
      if st < st' {
        RowApart(Run(s, k - 1), TagsAt(s, k - 1), st, st');
      } else if st' < st {
        RowApart(Run(s, k - 1), TagsAt(s, k - 1), st', st);
      }
    }
  }

  lemma FirstCycleBlank(s: State, st: nat)
    requires Drained(s) && 1 <= st < 5
    ensures LogRow(s, Tags(0, 0, 0, 0))[st].Blank?
  {
    RowRegisters(s, Tags(0, 0, 0, 0));
    hide Step, LogRow;
  }

  lemma NotFirst(s: State)
    requires Drained(s)
    ensures !Holds(s)
  {
  }

  /** Behind an instruction in EX, IF/ID was fetched in the cycle before. */
  lemma FreshBehindEx(q: State, t: Tags)
    requires Inv(q)
    requires var p := Step(q).state; p.idEx.valid && p.ifId.valid && !p.ifId.fetchFault
    ensures var p := Step(q).state; LogRow(q, t)[0] == Seen(NextTags(q, t).ifId, p.ifId.pc, p.ifId.instr)
  {
    RowFront(q, t);
    hide Inv, Step, LogRow;
  }

  lemma PipelineFlows(s: State, n: nat)
    requires Drained(s) && s.cycle == 0
    ensures Flow(PipelineLog(s, n))
  {
    hide Drained, PipelineLog;
    var log := PipelineLog(s, n);
    forall k, st | 0 <= st ensures Arrives(log, k, st) {
      ArrivesInLog(s, n, k, st);
    }
    forall k, st, st' ensures Apart(log, k, st, st') {
      ApartInLog(s, n, k, st, st');
    }
  }

  /** The tables a trace widget goes through when it is given every cycle of a run. */
  ghost predicate FedEveryCycle(s: State, n: nat, tables: seq<seq<Row>>) {
    && |tables| == n + 1 && tables[0] == []
    && forall k: nat | k < n :: Updated(tables[k], k, Step(Run(s, k)).ps, tables[k + 1])
  }

  lemma {:induction false} TableAfter(s: State, n: nat, tables: seq<seq<Row>>, k: nat)
    requires Drained(s) && s.cycle == 0 && FedEveryCycle(s, n, tables) && k <= n
    ensures RowsOk(PipelineLog(s, n), k, tables[k], 0, FirstVisible(k))
  {
    var log := PipelineLog(s, n);
    hide Step, Drained, Flow, Updated, Inv, Shows, TagsOk, At, PipelineLog;
    if k != 0 {
      hide RowsOk;
      TableAfter(s, n, tables, k - 1);
      PipelineFlows(s, n);
      LogAt(s, n, k);
      RunTags(s, k - 1);
      ShowsRow(Run(s, k - 1), TagsAt(s, k - 1), log, k);
      UpdateOk(log, k - 1, tables[k - 1], Step(Run(s, k - 1)).ps, tables[k]);
    }
  }

  lemma ShowsRow(s: State, t: Tags, log: Log, k: nat)
    requires 1 <= k <= |log| && log[k - 1] == LogRow(s, t) && s.cycle == k - 1
    ensures Shows(Step(s).ps, log, k)
  {
    hide RunStages, NextState, FlushTarget;
  }

  /** Rows that have left the window are gone. */
  lemma InWindow(s: State, n: nat, tables: seq<seq<Row>>)
    requires Drained(s) && s.cycle == 0 && FedEveryCycle(s, n, tables)
    ensures forall i :: 0 <= i < |tables[n]| ==> n - 20 < tables[n][i].LastCycle() <= n
  {
    hide Step, Drained, Flow, Shows, At, PipelineLog, Inv, Updated, TagsOk, RowsOk, Holds, LogRow;
    TableAfter(s, n, tables, n);
    NotLater(PipelineLog(s, n), n, tables[n], FirstVisible(n));
    if n > 0 {
      RunTags(s, n - 1);
      CycleShown(Run(s, n - 1));
      LastSeen(tables[n - 1], n - 1, Step(Run(s, n - 1)).ps, tables[n]);
    }
  }

  lemma CycleShown(s: State)
    ensures Step(s).ps.cycle == s.cycle + 1 && |Step(s).ps.stages| == 5
  {
    hide RunStages, NextState, FlushTarget;
  }

  /** The trace shows dynamic instructions. After every cycle of a run from reset, each
      row holds the history of exactly one fetched instruction, the one fetched in the
      cycle its IF cell names, even when several instructions at one PC are in flight;
      a row's cycles increase along the stages; rows are distinct, in fetch order; and
      the table holds the last 20 cycles: every stage occupied in one of them is in it,
      and every row was last seen in one of them. */
  lemma TraceShowsInstructions(s: State, n: nat, tables: seq<seq<Row>>)
    requires Drained(s) && s.cycle == 0 && FedEveryCycle(s, n, tables)
    ensures var rows := tables[n]; var log := PipelineLog(s, n);
            && (forall i, st :: 0 <= i < |rows| && 0 <= st < 5 && rows[i].cell[st] != 0 ==>
                  At(log, rows[i].cell[st], st) == Seen(rows[i].cell[0], rows[i].pc, rows[i].raw))
            && (forall i, st, st' :: 0 <= i < |rows| && 0 <= st < st' < 5 && rows[i].cell[st] != 0 && rows[i].cell[st'] != 0 ==>
                  rows[i].cell[st] < rows[i].cell[st'])
            && (forall i, j :: 0 <= i < j < |rows| ==> rows[i].cell[0] < rows[j].cell[0])
            && (forall k, st :: n - 20 < k <= n && 0 <= st < 5 && At(log, k, st).Seen? ==>
                  InTable(rows, At(log, k, st).id, st, k))
            && (forall i :: 0 <= i < |rows| ==> n - 20 < rows[i].LastCycle() <= n)
  {
    var rows, log := tables[n], PipelineLog(s, n);
    TableAfter(s, n, tables, n);
    PipelineFlows(s, n);
    InWindow(s, n, tables);
    forall i, st | 0 <= i < |rows| && 0 <= st < 5 && rows[i].cell[st] != 0
      ensures At(log, rows[i].cell[st], st) == Seen(rows[i].cell[0], rows[i].pc, rows[i].raw)
    {
      assert CellOk(log, n, rows[i], st, 0);
    }
    forall i, st, st' | 0 <= i < |rows| && 0 <= st < st' < 5 && rows[i].cell[st] != 0 && rows[i].cell[st'] != 0
      ensures rows[i].cell[st] < rows[i].cell[st']
    {
      StagesInOrder(log, rows[i].cell[st], st, rows[i].cell[st'], st');
    }
  }
}
