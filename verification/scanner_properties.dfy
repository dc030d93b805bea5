/**
 Properties of the sweep scan that relate several scans or several cells: where a scan
 starts, how a scan resumes, what the batch size hint changes, and what the scanner makes
 of a cell with one or two versions.
 */
module ScannerProperties {
  import opened Wrappers
  import opened Ordering
  import opened Sequences
  import opened Bytes
  import opened Cells
  import opened Scanner

  /** The candidate's cell has a row at or after `row`. */
  function FromRow(row: Bytes): CandidateCellForSweeping -> bool {
    (c: CandidateCellForSweeping) => LexLessEq(row, c.cell.row)
  }

  /** The candidate's cell has a row before `row`. */
  function BeforeRow(row: Bytes): CandidateCellForSweeping -> bool {
    (c: CandidateCellForSweeping) => LexLess(c.cell.row, row)
  }

  // ---------------------------------------------------------------------------
  // Start row, resumption, batch size
  // ---------------------------------------------------------------------------

  /**
   Starting a scan at `row` returns exactly the candidates of the scan from an earlier
   start whose row is at or after `row`: every cell of the start row, whatever its
   column, and every cell of a later row.
   */
  lemma StartRowIsRowGranular(h: History, req: CandidateCellForSweepingRequest, row: Bytes)
    requires LexLessEq(req.startRowInclusive, row)
    ensures VisibleCandidates(h, req.(startRowInclusive := row))
         == Filter(FromRow(row), VisibleCandidates(h, req))
  {
    var req' := req.(startRowInclusive := row);
    var r := Filter(FromRow(row), VisibleCandidates(h, req));
    VisibleCandidatesAscending(h, req);
    FilterSorted(FromRow(row), VisibleCandidates(h, req), CellBefore);
    FilteredScanSound(h, req, row);
    FilteredScanComplete(h, req, row);
    VisibleCandidatesIsSweepResult(h, req');
    SweepResultUnique(h, req', r, VisibleCandidates(h, req'));
  }

  lemma FilteredScanSound(h: History, req: CandidateCellForSweepingRequest, row: Bytes)
    ensures OnlyCellsNeedingSweep(h, req.(startRowInclusive := row),
                                  Filter(FromRow(row), VisibleCandidates(h, req)))
  {
    var req' := req.(startRowInclusive := row);
    assert PolicyOf(req') == PolicyOf(req);
    var all := VisibleCandidates(h, req);
    var r := Filter(FromRow(row), all);
    VisibleCandidatesSound(h, req);
    forall i | 0 <= i < |r|
      ensures InScan(h, req', r[i].cell)
      ensures NeedsSweeping(h[r[i].cell], PolicyOf(req'))
      ensures r[i] == CandidateFor(r[i].cell, h[r[i].cell], PolicyOf(req'))
    {
      assert r[i] in all;
      var k :| 0 <= k < |all| && all[k] == r[i];
    }
  }

  lemma FilteredScanComplete(h: History, req: CandidateCellForSweepingRequest, row: Bytes)
    requires LexLessEq(req.startRowInclusive, row)
    ensures EveryCellNeedingSweep(h, req.(startRowInclusive := row),
                                  Filter(FromRow(row), VisibleCandidates(h, req)))
  {
    var req' := req.(startRowInclusive := row);
    assert PolicyOf(req') == PolicyOf(req);
    var all := VisibleCandidates(h, req);
    VisibleCandidatesComplete(h, req);
    forall c | InScan(h, req', c) && NeedsSweeping(h[c], PolicyOf(req'))
      ensures exists i :: 0 <= i < |Filter(FromRow(row), all)| && Filter(FromRow(row), all)[i].cell == c
    {
      LexLessEqTransitive(req.startRowInclusive, row, c.row);
      assert InScan(h, req, c);
      assert exists k :: 0 <= k < |all| && all[k].cell == c;
      CellInFilteredScan(all, row, c);
    }
  }

  lemma CellInFilteredScan(all: seq<CandidateCellForSweeping>, row: Bytes, c: Cell)
    requires exists k :: 0 <= k < |all| && all[k].cell == c
    requires LexLessEq(row, c.row)
    ensures exists i :: 0 <= i < |Filter(FromRow(row), all)| && Filter(FromRow(row), all)[i].cell == c
  {
    var r := Filter(FromRow(row), all);
    var k :| 0 <= k < |all| && all[k].cell == c;
    assert FromRow(row)(all[k]);
    assert all[k] in all;
    assert all[k] in r;
    var i :| 0 <= i < |r| && r[i] == all[k];
  }

  /**
   Resuming: a scan is the part of it before `row` followed by the scan that starts at
   `row`. Restarting from the row of the last cell handed out, with the same sweep
   timestamp, therefore loses nothing.
   */
  lemma ResumeAtRow(h: History, req: CandidateCellForSweepingRequest, row: Bytes)
    requires LexLessEq(req.startRowInclusive, row)
    ensures VisibleCandidates(h, req)
         == Filter(BeforeRow(row), VisibleCandidates(h, req))
          + VisibleCandidates(h, req.(startRowInclusive := row))
  {
    var all := VisibleCandidates(h, req);
    VisibleCandidatesAscending(h, req);
    forall x: CandidateCellForSweeping
      ensures FromRow(row)(x) == !BeforeRow(row)(x)
    {
      LexLessEqIsNotGreater(row, x.cell.row);
    }
    forall i, j | 0 <= i < j < |all| && BeforeRow(row)(all[j])
      ensures BeforeRow(row)(all[i])
    {
      assert CellBefore(all[i], all[j]);
      if all[i].cell.row != all[j].cell.row {
        LexLessTransitive(all[i].cell.row, all[j].cell.row, row);
      }
    }
    assert PrefixClosed(BeforeRow(row), all);
    FilterSplitsPrefix(BeforeRow(row), FromRow(row), all);
    StartRowIsRowGranular(h, req, row);
  }

  /**
   The batch size hint shapes the batches only: read under any hint, the scan gives what
   it gives under the request's own hint, and cut under any hint, the request's candidates
   read as the visible candidates.
   */
  lemma BatchSizeHintIsAdvisory(h: History, req: CandidateCellForSweepingRequest, hint: Option<int>)
    ensures ReadAll(h, req.(batchSizeHint := hint)) == ReadAll(h, req)
    ensures GetAllCandidates(Batches(RawCandidates(h, req), hint)) == VisibleCandidates(h, req)
  {
    var req' := req.(batchSizeHint := hint);
    assert PolicyOf(req') == PolicyOf(req);
    assert forall c :: InScan(h, req', c) <==> InScan(h, req, c);
    assert ScanOrder(h, req') == ScanOrder(h, req) by {
      CellLessIsStrictTotalOrder();
      SortedUnique(ScanOrder(h, req'), ScanOrder(h, req), CellLess);
    }
    assert RawCandidates(h, req') == RawCandidates(h, req);
    ReadAllIsSweepResult(h, req');
    ReadAllIsSweepResult(h, req);
  }

  /** The scan of a table whose cells in range all need sweeping hands out every one of them. */
  lemma EveryCellInRangeNeedsSweeping(h: History, req: CandidateCellForSweepingRequest)
    requires forall c :: InScan(h, req, c) ==> NeedsSweeping(h[c], PolicyOf(req))
    ensures CellsOf(VisibleCandidates(h, req)) == ScanOrder(h, req)
  {
    var r := VisibleCandidates(h, req);
    VisibleCandidatesIsSweepResult(h, req);
    SweepResultCells(h, req, r);
    CellLessIsStrictTotalOrder();
    SortedUnique(CellsOf(r), ScanOrder(h, req), CellLess);
  }

  /**
   A table of one cell in range yields that cell's candidate when it has timestamps, else
   nothing, and a caller reads just that.
   */
  lemma SingleCellScan(c: Cell, v: Versions, req: CandidateCellForSweepingRequest)
    requires LexLessEq(req.startRowInclusive, c.row)
    ensures var r := CandidateFor(c, v, PolicyOf(req));
      VisibleCandidates(map[c := v], req) == if HasTimestamps(r) then [r] else []
    ensures var r := CandidateFor(c, v, PolicyOf(req));
      ReadAll(map[c := v], req) == if HasTimestamps(r) then [r] else []
  {
    ReadAllIsSweepResult(map[c := v], req);
    var h := map[c := v];
    CellLessIsStrictTotalOrder();
    SortedUnique(ScanOrder(h, req), [c], CellLess);
    var raw := RawCandidates(h, req);
    assert raw == [CandidateFor(c, v, PolicyOf(req))];
  }

  // ---------------------------------------------------------------------------
  // Cells with one or two versions
  // ---------------------------------------------------------------------------

  /**
   A single version at or above the minimum uncommitted start timestamp may belong to a
   transaction that has not committed: it is handed out on its own, whatever the policy.
   */
  lemma SingleRecentVersionIsCandidate(c: Cell, ts: Timestamp, value: Bytes, p: CellPolicy)
    requires ts < p.sweepTimestamp && ts !in p.timestampsToIgnore
    requires ts >= p.minUncommittedStartTimestamp
    ensures CandidateFor(c, map[ts := value], p) == Candidate(c, [ts], value == [], 1)
  {
    var v := map[ts := value];
    assert ExaminedTimestamps(v, p) == {ts};
    assert EligibleTimestamps(v, p) == {ts};
    SingleVersionTimestamps(c, v, p, ts);
  }

  /**
   A single version below the minimum uncommitted start timestamp is handed out only when
   the policy checks for empty latest values and the value is empty; it then comes out as
   `[ts]` with its latest value empty.
   */
  lemma SingleOldVersion(c: Cell, ts: Timestamp, value: Bytes, p: CellPolicy)
    requires ts < p.sweepTimestamp && ts !in p.timestampsToIgnore
    requires ts < p.minUncommittedStartTimestamp
    ensures HasTimestamps(CandidateFor(c, map[ts := value], p))
        <==> p.shouldCheckIfLatestValueIsEmpty && value == []
    ensures p.shouldCheckIfLatestValueIsEmpty && value == [] ==>
      CandidateFor(c, map[ts := value], p) == Candidate(c, [ts], true, 1)
  {
    var v := map[ts := value];
    assert ExaminedTimestamps(v, p) == {ts};
    assert EligibleTimestamps(v, p) == {ts};
    SweepNeededMeansNeedsSweeping(v, p);
    if p.shouldCheckIfLatestValueIsEmpty && value == [] {
      SingleVersionTimestamps(c, v, p, ts);
    }
  }

  lemma SingleVersionTimestamps(c: Cell, v: Versions, p: CellPolicy, ts: Timestamp)
    requires EligibleTimestamps(v, p) == {ts} && ExaminedTimestamps(v, p) == {ts}
    requires HasTimestamps(CandidateFor(c, v, p))
    ensures CandidateFor(c, v, p) == Candidate(c, [ts], v[ts] == [], 1)
  {
    var r := CandidateFor(c, v, p).sortedTimestamps;
    assert r[0] == ts;
    IntOrders();
    SortedUnique(r, [ts], IntLess);
  }

  /**
   Two versions below the sweep timestamp are always handed out, oldest first, whatever
   the minimum uncommitted start timestamp and the policy.
   */
  lemma TwoVersionsAreCandidate(c: Cell, t1: Timestamp, v1: Bytes, t2: Timestamp, v2: Bytes, p: CellPolicy)
    requires t1 < t2 < p.sweepTimestamp
    requires t1 !in p.timestampsToIgnore && t2 !in p.timestampsToIgnore
    ensures CandidateFor(c, map[t1 := v1, t2 := v2], p) == Candidate(c, [t1, t2], v2 == [], 2)
  {
    var v := map[t1 := v1, t2 := v2];
    TwoVersionsEligible(t1, v1, t2, v2, p);
    SweepNeededMeansNeedsSweeping(v, p);
    var r := CandidateFor(c, v, p);
    IntOrders();
    SortedUnique(r.sortedTimestamps, [t1, t2], IntLess);
  }

  lemma TwoVersionsEligible(t1: Timestamp, v1: Bytes, t2: Timestamp, v2: Bytes, p: CellPolicy)
    requires t1 < t2 < p.sweepTimestamp
    requires t1 !in p.timestampsToIgnore && t2 !in p.timestampsToIgnore
    ensures ExaminedTimestamps(map[t1 := v1, t2 := v2], p) == {t1, t2}
    ensures EligibleTimestamps(map[t1 := v1, t2 := v2], p) == {t1, t2}
  {
    assert ExaminedTimestamps(map[t1 := v1, t2 := v2], p) == {t1, t2};
  }
}
