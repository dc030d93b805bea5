/**
 The scenarios of the shared sweep-candidate test suite, stated as lemmas about the model.

 A test writes versions with a small builder: `put(row, col, ts)` writes the value
 `{1, 2, 3}`, `putEmpty(row, col, ts)` writes the empty value (a deletion marker), and
 `store()` writes everything; of two writes to the same cell and timestamp the later one
 is kept. Cells are addressed by number through `Cells.CellOf`. What a test reads is the
 concatenation of the scan's batches without the candidates that carry no timestamps,
 `Scanner.ReadAll`, which is `Scanner.VisibleCandidates` whatever the batch size hint.
 */
module SweepTests {
  import opened Wrappers
  import opened Ordering
  import opened Sequences
  import opened Bytes
  import opened Cells
  import opened Scanner
  import opened ScannerProperties

  // ---------------------------------------------------------------------------
  // The test data builder
  // ---------------------------------------------------------------------------

  datatype TestPut = TestPut(row: Int32, col: Int32, ts: Timestamp, value: Bytes)

  /** `put(row, col, ts)`: a non-empty value. */
  function Put(row: Int32, col: Int32, ts: Timestamp): TestPut {
    TestPut(row, col, ts, [1, 2, 3])
  }

  /** `putEmpty(row, col, ts)`: the empty value. */
  function PutEmpty(row: Int32, col: Int32, ts: Timestamp): TestPut {
    TestPut(row, col, ts, [])
  }

  function PutCell(p: TestPut): Cell {
    CellOf(p.row, p.col)
  }

  /** `puts[i]` is the last write of `value` to cell `c` at timestamp `ts`. */
  predicate IsLastWrite(puts: seq<TestPut>, i: int, c: Cell, ts: Timestamp, value: Bytes) {
    && 0 <= i < |puts|
    && PutCell(puts[i]) == c && puts[i].ts == ts && puts[i].value == value
    && forall j :: i < j < |puts| ==> !(PutCell(puts[j]) == c && puts[j].ts == ts)
  }

  /** The table after writing `p` to `h`: `p`'s value at `p`'s cell and timestamp. */
  function Write(h: History, p: TestPut): History {
    var v := if PutCell(p) in h then h[PutCell(p)] else map[];
    h[PutCell(p) := v[p.ts := p.value]]
  }

  /** The table after `store()`: the writes applied in order. */
  function Store(puts: seq<TestPut>): History {
    if puts == [] then map[] else Write(Store(puts[..|puts| - 1]), puts[|puts| - 1])
  }

  /** A cell is stored exactly when something was written to it. */
  lemma {:induction false} StoreCells(puts: seq<TestPut>, c: Cell)
    ensures c in Store(puts) <==> exists i :: 0 <= i < |puts| && PutCell(puts[i]) == c
  {
    if puts != [] {
      var init := puts[..|puts| - 1];
      StoreCells(init, c);
      assert forall i :: 0 <= i < |init| ==> init[i] == puts[i];
    }
  }

  /** A stored cell has a version exactly at the timestamps written to it. */
  lemma {:induction false} StoreVersions(puts: seq<TestPut>, c: Cell, ts: Timestamp)
    ensures c in Store(puts) && ts in Store(puts)[c] <==>
      exists i :: 0 <= i < |puts| && PutCell(puts[i]) == c && puts[i].ts == ts
  {
    if puts != [] {
      var init := puts[..|puts| - 1];
      StoreVersions(init, c, ts);
      assert forall i :: 0 <= i < |init| ==> init[i] == puts[i];
    }
  }

  /** Each stored version holds the value written to it last. */
  lemma {:induction false} StoreKeepsLastWrite(puts: seq<TestPut>, c: Cell, ts: Timestamp)
    requires c in Store(puts) && ts in Store(puts)[c]
    ensures exists i :: IsLastWrite(puts, i, c, ts, Store(puts)[c][ts])
  {
    var init := puts[..|puts| - 1];
    var p := puts[|puts| - 1];
    if PutCell(p) == c && p.ts == ts {
      assert IsLastWrite(puts, |puts| - 1, c, ts, Store(puts)[c][ts]);
    } else {
      assert c in Store(init) && ts in Store(init)[c];
      StoreKeepsLastWrite(init, c, ts);
      var i :| IsLastWrite(init, i, c, ts, Store(init)[c][ts]);
      assert IsLastWrite(puts, i, c, ts, Store(puts)[c][ts]);
    }
  }

  /** `conservativeRequest`: ignores the invalid-value timestamp, does not check emptiness. */
  function ConservativeRequest(startRow: Bytes, sweepTs: Timestamp, minUncommittedTs: Timestamp): CandidateCellForSweepingRequest {
    Request(startRow, sweepTs, minUncommittedTs, false, {InvalidValueTimestamp}, None)
  }

  /** `thoroughRequest`: ignores no timestamp and checks whether the latest value is empty. */
  function ThoroughRequest(startRow: Bytes, sweepTs: Timestamp, minUncommittedTs: Timestamp): CandidateCellForSweepingRequest {
    Request(startRow, sweepTs, minUncommittedTs, true, {}, None)
  }

  /** The timestamp of the invalid value (`Value.INVALID_VALUE_TIMESTAMP`). */
  const InvalidValueTimestamp: Timestamp := -1

  // ---------------------------------------------------------------------------
  // One cell
  // ---------------------------------------------------------------------------

  lemma StoreOnePut(p: TestPut)
    ensures Store([p]) == map[PutCell(p) := map[p.ts := p.value]]
  {
  }

  /** A single version above the minimum uncommitted timestamp is handed out. */
  lemma ReturnCandidateIfPossiblyUncommittedTimestamp()
    ensures ReadAll(Store([Put(1, 1, 10)]), ConservativeRequest([], 40, 5))
         == [Candidate(CellOf(1, 1), [10], false, 1)]
  {
    var req := ConservativeRequest([], 40, 5);
    StoreOnePut(Put(1, 1, 10));
    SingleRecentVersionIsCandidate(CellOf(1, 1), 10, [1, 2, 3], PolicyOf(req));
    SingleCellScan(CellOf(1, 1), map[10 := [1, 2, 3]], req);
  }

  /** A single committed non-empty version is not handed out. */
  lemma DoNotReturnCandidateIfOnlyCommittedTimestamp()
    ensures ReadAll(Store([Put(1, 1, 10)]), ConservativeRequest([], 40, 30)) == []
  {
    var req := ConservativeRequest([], 40, 30);
    StoreOnePut(Put(1, 1, 10));
    SingleOldVersion(CellOf(1, 1), 10, [1, 2, 3], PolicyOf(req));
    SingleCellScan(CellOf(1, 1), map[10 := [1, 2, 3]], req);
  }

  /** Two committed versions are handed out together, oldest first. */
  lemma ReturnCandidateIfTwoCommittedTimestamps()
    ensures ReadAll(Store([Put(1, 1, 10), Put(1, 1, 20)]), ConservativeRequest([], 40, 30))
         == [Candidate(CellOf(1, 1), [10, 20], false, 2)]
  {
    var req := ConservativeRequest([], 40, 30);
    var c := CellOf(1, 1);
    assert Store([Put(1, 1, 10), Put(1, 1, 20)]) == map[c := map[10 := [1, 2, 3], 20 := [1, 2, 3]]] by {
      assert [Put(1, 1, 10), Put(1, 1, 20)][..1] == [Put(1, 1, 10)];
      StoreOnePut(Put(1, 1, 10));
    }
    TwoVersionsAreCandidate(c, 10, [1, 2, 3], 20, [1, 2, 3], PolicyOf(req));
    SingleCellScan(c, map[10 := [1, 2, 3], 20 := [1, 2, 3]], req);
  }

  /** A committed deletion is left alone by a conservative request. */
  lemma DoNotReturnCandidateWithCommittedEmptyValueIfConservative()
    ensures ReadAll(Store([PutEmpty(1, 1, 10)]), ConservativeRequest([], 40, 30)) == []
  {
    var req := ConservativeRequest([], 40, 30);
    StoreOnePut(PutEmpty(1, 1, 10));
    SingleOldVersion(CellOf(1, 1), 10, [], PolicyOf(req));
    SingleCellScan(CellOf(1, 1), map[10 := []], req);
  }

  /** A committed deletion is handed out to a thorough request, marked as empty. */
  lemma ReturnCandidateWithCommittedEmptyValueIfThorough()
    ensures ReadAll(Store([PutEmpty(1, 1, 10)]), ThoroughRequest([], 40, 30))
         == [Candidate(CellOf(1, 1), [10], true, 1)]
  {
    var req := ThoroughRequest([], 40, 30);
    StoreOnePut(PutEmpty(1, 1, 10));
    SingleOldVersion(CellOf(1, 1), 10, [], PolicyOf(req));
    SingleCellScan(CellOf(1, 1), map[10 := []], req);
  }

  // ---------------------------------------------------------------------------
  // Many cells
  // ---------------------------------------------------------------------------

  /** A (row number, column number) pair. */
  type CellNumbers = (Int32, Int32)

  /** Numeric order of (row, column) pairs. */
  predicate NumbersLess(a: CellNumbers, b: CellNumbers) {
    a.0 < b.0 || (a.0 == b.0 && a.1 < b.1)
  }

  predicate NonNegative(pairs: seq<CellNumbers>) {
    forall i :: 0 <= i < |pairs| ==> 0 <= pairs[i].0 && 0 <= pairs[i].1
  }

  /** The cells with the given numbers, in the same order. */
  function CellsAt(pairs: seq<CellNumbers>): (cells: seq<Cell>)
    ensures |cells| == |pairs|
    ensures forall i :: 0 <= i < |pairs| ==> cells[i] == CellOf(pairs[i].0, pairs[i].1)
  {
    seq(|pairs|, i requires 0 <= i < |pairs| => CellOf(pairs[i].0, pairs[i].1))
  }

  /** Numbers in ascending numeric order name cells in ascending cell order. */
  lemma CellsAtSorted(pairs: seq<CellNumbers>)
    requires NonNegative(pairs) && StrictlySorted(pairs, NumbersLess)
    ensures StrictlySorted(CellsAt(pairs), CellLess)
  {
    forall i, j | 0 <= i < j < |pairs|
      ensures CellLess(CellsAt(pairs)[i], CellsAt(pairs)[j])
    {
      CellOfOrdered(pairs[i].0, pairs[i].1, pairs[j].0, pairs[j].1);
    }
  }

  /**
   When every write lies at or above the minimum uncommitted timestamp and below the sweep
   timestamp, and is not ignored, every stored cell needs sweeping.
   */
  lemma AllWritesRecent(puts: seq<TestPut>, req: CandidateCellForSweepingRequest, c: Cell)
    requires forall i :: 0 <= i < |puts| ==>
      && req.minUncommittedStartTimestamp <= puts[i].ts < req.sweepTimestamp
      && puts[i].ts !in req.timestampsToIgnore
    requires c in Store(puts)
    ensures NeedsSweeping(Store(puts)[c], PolicyOf(req))
  {
    var h := Store(puts);
    var p := PolicyOf(req);
    StoreCells(puts, c);
    var i :| 0 <= i < |puts| && PutCell(puts[i]) == c;
    StoreVersions(puts, c, puts[i].ts);
    assert puts[i].ts in EligibleTimestamps(h[c], p);
    var t := Newest(EligibleTimestamps(h[c], p));
    StoreVersions(puts, c, t);
    SweepNeededMeansNeedsSweeping(h[c], p);
  }

  /**
   The cells a test reads from a table of recent writes are the stored cells from the
   start row on; given numbers in ascending order that name exactly those cells, the test
   reads exactly those cells, in that order.
   */
  lemma ScanOfRecentWrites(puts: seq<TestPut>, req: CandidateCellForSweepingRequest, pairs: seq<CellNumbers>)
    requires forall i :: 0 <= i < |puts| ==>
      && req.minUncommittedStartTimestamp <= puts[i].ts < req.sweepTimestamp
      && puts[i].ts !in req.timestampsToIgnore
    requires NonNegative(pairs) && StrictlySorted(pairs, NumbersLess)
    requires forall c :: c in CellsAt(pairs) <==>
      (exists i :: 0 <= i < |puts| && PutCell(puts[i]) == c) && LexLessEq(req.startRowInclusive, c.row)
    ensures CellsOf(VisibleCandidates(Store(puts), req)) == CellsAt(pairs)
  {
    var h := Store(puts);
    forall c | InScan(h, req, c)
      ensures NeedsSweeping(h[c], PolicyOf(req))
    {
      AllWritesRecent(puts, req, c);
    }
    EveryCellInRangeNeedsSweeping(h, req);
    forall c
      ensures c in CellsAt(pairs) <==> c in ScanOrder(h, req)
    {
      StoreCells(puts, c);
    }
    CellsAtSorted(pairs);
    CellLessIsStrictTotalOrder();
    SortedUnique(CellsAt(pairs), ScanOrder(h, req), CellLess);
  }

  const SixCells: seq<CellNumbers> := [(1, 1), (1, 2), (2, 2), (3, 1), (3, 2), (3, 3)]

  /** `putEmpty` at timestamp `ts` for each cell named by `pairs`, in order. */
  function DeletionsAt(pairs: seq<CellNumbers>, ts: Timestamp): (puts: seq<TestPut>)
    ensures |puts| == |pairs|
    ensures forall i :: 0 <= i < |pairs| ==> puts[i] == PutEmpty(pairs[i].0, pairs[i].1, ts)
  {
    seq(|pairs|, i requires 0 <= i < |pairs| => PutEmpty(pairs[i].0, pairs[i].1, ts))
  }

  /** Deletions at timestamp 10 in cells (1,1), (1,2), (2,2), (3,1), (3,2), (3,3). */
  function SixDeletions(): seq<TestPut> {
    DeletionsAt(SixCells, 10)
  }

  /** Writes whose cells are, one by one, the cells named by `pairs`. */
  lemma WritesNameCells(puts: seq<TestPut>, pairs: seq<CellNumbers>)
    requires |puts| == |pairs|
    requires forall i :: 0 <= i < |puts| ==> puts[i].row == pairs[i].0 && puts[i].col == pairs[i].1
    ensures forall c :: c in CellsAt(pairs) <==> exists i :: 0 <= i < |puts| && PutCell(puts[i]) == c
  {
    forall c | c in CellsAt(pairs)
      ensures exists i :: 0 <= i < |puts| && PutCell(puts[i]) == c
    {
      var i :| 0 <= i < |pairs| && CellsAt(pairs)[i] == c;
      assert PutCell(puts[i]) == c;
    }
    forall c | exists i :: 0 <= i < |puts| && PutCell(puts[i]) == c
      ensures c in CellsAt(pairs)
    {
      var i :| 0 <= i < |puts| && PutCell(puts[i]) == c;
      assert CellsAt(pairs)[i] == c;
    }
  }

  /** Candidates come out in row order, and within a row in column order. */
  lemma ReturnCellsInOrder()
    ensures CellsOf(ReadAll(Store(SixDeletions()), ConservativeRequest([], 30, 5)))
         == CellsAt(SixCells)
  {
    ReadAllIsSweepResult(Store(SixDeletions()), ConservativeRequest([], 30, 5));
    SixCellsAscending();
    WritesNameCells(SixDeletions(), SixCells);
    ScanOfRecentWrites(SixDeletions(), ConservativeRequest([], 30, 5), SixCells);
  }

  lemma SixCellsAscending()
    ensures NonNegative(SixCells) && StrictlySorted(SixCells, NumbersLess)
  {
  }

  const SixCellsInThreeRows: seq<CellNumbers> := [(1, 1), (1, 2), (2, 1), (2, 2), (3, 1), (3, 2)]
  const SixCellsFromRowTwo: seq<CellNumbers> := [(2, 1), (2, 2), (3, 1), (3, 2)]

  /** Deletions at timestamp 10 in cells (1,1), (1,2), (2,1), (2,2), (3,1), (3,2). */
  function SixDeletionsInThreeRows(): seq<TestPut> {
    DeletionsAt(SixCellsInThreeRows, 10)
  }

  /**
   A scan that starts at the row of cell (2,2) hands out every cell of row 2, including
   (2,1), and the cells of row 3, but nothing of row 1.
   */
  lemma StartFromGivenRow()
    ensures CellsOf(ReadAll(Store(SixDeletionsInThreeRows()),
                                      ConservativeRequest(CellOf(2, 2).row, 30, 5)))
         == CellsAt(SixCellsFromRowTwo)
  {
    ReadAllIsSweepResult(Store(SixDeletionsInThreeRows()), ConservativeRequest(CellOf(2, 2).row, 30, 5));
    SixCellsInThreeRowsSplitAtRowTwo();
    ScanFromRow(SixDeletionsInThreeRows(), ConservativeRequest(IntToBytes(2), 30, 5), SixCellsInThreeRows, 2, 2);
  }

  lemma SixCellsInThreeRowsSplitAtRowTwo()
    ensures NonNegative(SixCellsInThreeRows) && StrictlySorted(SixCellsInThreeRows, NumbersLess)
    ensures SixCellsInThreeRows[2..] == SixCellsFromRowTwo
    ensures forall i :: 0 <= i < 2 ==> SixCellsInThreeRows[i].0 < 2
    ensures forall i :: 2 <= i < 6 ==> SixCellsInThreeRows[i].0 >= 2
  {
  }

  /**
   A table of recent writes to the cells named by `pairs`, one write each, scanned from
   the name of row `r`: when the rows before position `k` are below `r` and the rest are
   not, the test reads the cells from position `k` on.
   */
  lemma ScanFromRow(puts: seq<TestPut>, req: CandidateCellForSweepingRequest,
                    pairs: seq<CellNumbers>, k: nat, r: Int32)
    requires forall i :: 0 <= i < |puts| ==>
      && req.minUncommittedStartTimestamp <= puts[i].ts < req.sweepTimestamp
      && puts[i].ts !in req.timestampsToIgnore
    requires |puts| == |pairs|
    requires forall i :: 0 <= i < |puts| ==> puts[i].row == pairs[i].0 && puts[i].col == pairs[i].1
    requires NonNegative(pairs) && StrictlySorted(pairs, NumbersLess)
    requires 0 <= r && k <= |pairs| && req.startRowInclusive == IntToBytes(r)
    requires forall i :: 0 <= i < k ==> pairs[i].0 < r
    requires forall i :: k <= i < |pairs| ==> pairs[i].0 >= r
    ensures CellsOf(VisibleCandidates(Store(puts), req)) == CellsAt(pairs[k..])
  {
    WritesNameCells(puts, pairs);
    CellsFromRow(pairs, k, r);
    assert StrictlySorted(pairs[k..], NumbersLess);
    ScanOfRecentWrites(puts, req, pairs[k..]);
  }

  /**
   When the numbers before position `k` have rows below `r` and the rest rows from `r` on,
   the cells from `k` on are exactly the cells whose row name is at or after `r`'s.
   */
  lemma CellsFromRow(all: seq<CellNumbers>, k: nat, r: Int32)
    requires NonNegative(all) && 0 <= r && k <= |all|
    requires forall i :: 0 <= i < k ==> all[i].0 < r
    requires forall i :: k <= i < |all| ==> all[i].0 >= r
    ensures forall c :: c in CellsAt(all[k..]) <==> c in CellsAt(all) && LexLessEq(IntToBytes(r), c.row)
  {
    var cells := CellsAt(all);
    var from := (c: Cell) => LexLessEq(IntToBytes(r), c.row);
    forall i | 0 <= i < |all|
      ensures from(cells[i]) <==> i >= k
    {
      IntToBytesAtLeast(r, all[i].0);
    }
    SuffixWhere(from, cells, k);
    assert CellsAt(all[k..]) == cells[k..];
  }

  // ---------------------------------------------------------------------------
  // A larger table, read with a batch size hint of one
  // ---------------------------------------------------------------------------

  /** The writes to cell (`r`, `k`): `1 + k % 4` versions at timestamps 10, 11, ... */
  function CellWrites(r: Int32, k: Int32): seq<TestPut>
    requires 0 <= k
  {
    seq(1 + k % 4, t => Put(r, k, 10 + t))
  }

  /** The writes to columns 1 to `k` of row `r`. */
  function RowWrites(r: Int32, k: nat): seq<TestPut>
    requires k <= r
  {
    if k == 0 then [] else RowWrites(r, k - 1) + CellWrites(r, k)
  }

  /** The writes to rows 1 to `n`, row `r` having columns 1 to `r`. */
  function TriangleWrites(n: nat): seq<TestPut>
    requires n < 0x8000_0000
  {
    if n == 0 then [] else TriangleWrites(n - 1) + RowWrites(n, n)
  }

  /** The numbers of columns 1 to `k` of row `r`. */
  function RowCells(r: Int32, k: nat): seq<CellNumbers>
    requires k <= r
  {
    if k == 0 then [] else RowCells(r, k - 1) + [(r, k)]
  }

  /** The numbers of the cells of rows 1 to `n`, row by row (`expectedCells`). */
  function TriangleCells(n: nat): seq<CellNumbers>
    requires n < 0x8000_0000
  {
    if n == 0 then [] else TriangleCells(n - 1) + RowCells(n, n)
  }

  /** The request of the larger-table test: everything from timestamp 1 on may be uncommitted. */
  function LargerTableRequest(): CandidateCellForSweepingRequest {
    Request([], 40, 1, false, {InvalidValueTimestamp}, Some(1))
  }

  lemma {:induction false} RowWritesContents(r: Int32, k: nat, i: int)
    requires k <= r && 0 <= i < |RowWrites(r, k)|
    ensures var p := RowWrites(r, k)[i];
      p.row == r && 1 <= p.col <= k && 10 <= p.ts < 14
  {
    if k > 0 {
      var w := RowWrites(r, k - 1);
      if i >= |w| {
        assert RowWrites(r, k)[i] == CellWrites(r, k)[i - |w|];
      } else {
        RowWritesContents(r, k - 1, i);
      }
    }
  }

  lemma {:induction false} RowWritesHasCell(r: Int32, k: nat, col: Int32)
    requires k <= r && 1 <= col <= k
    ensures exists i :: 0 <= i < |RowWrites(r, k)| && RowWrites(r, k)[i].row == r && RowWrites(r, k)[i].col == col
  {
    var w := RowWrites(r, k - 1);
    if col == k {
      assert RowWrites(r, k)[|w|] == Put(r, k, 10);
    } else {
      RowWritesHasCell(r, k - 1, col);
      var i :| 0 <= i < |w| && w[i].row == r && w[i].col == col;
      assert RowWrites(r, k)[i] == w[i];
    }
  }

  /** Every write of the larger table is to a cell of the triangle, at timestamp 10 to 13. */
  lemma {:induction false} TriangleWritesContents(n: nat, i: int)
    requires n < 0x8000_0000 && 0 <= i < |TriangleWrites(n)|
    ensures var p := TriangleWrites(n)[i];
      1 <= p.col <= p.row <= n && 10 <= p.ts < 14
  {
    var w := TriangleWrites(n - 1);
    if i >= |w| {
      assert TriangleWrites(n)[i] == RowWrites(n, n)[i - |w|];
      RowWritesContents(n, n, i - |w|);
    } else {
      TriangleWritesContents(n - 1, i);
    }
  }

  /** Every cell of the triangle is written to. */
  lemma {:induction false} TriangleWritesHasCell(n: nat, r: Int32, col: Int32)
    requires n < 0x8000_0000 && 1 <= col <= r <= n
    ensures exists i :: 0 <= i < |TriangleWrites(n)| && TriangleWrites(n)[i].row == r && TriangleWrites(n)[i].col == col
  {
    var w := TriangleWrites(n - 1);
    var last := RowWrites(n, n);
    if r == n {
      RowWritesHasCell(n, n, col);
      var i :| 0 <= i < |last| && last[i].row == r && last[i].col == col;
      assert TriangleWrites(n)[|w| + i] == last[i];
    } else {
      TriangleWritesHasCell(n - 1, r, col);
      var i :| 0 <= i < |w| && w[i].row == r && w[i].col == col;
      assert TriangleWrites(n)[i] == w[i];
    }
  }

  /** Row `r`'s numbers are the columns 1 to `k`, ascending. */
  lemma {:induction false} RowCellsShape(r: Int32, k: nat)
    requires k <= r
    ensures |RowCells(r, k)| == k
    ensures forall i :: 0 <= i < k ==> RowCells(r, k)[i] == (r, i + 1)
  {
    if k > 0 {
      RowCellsShape(r, k - 1);
    }
  }

  /**
   The triangle's numbers are ascending, name the cells (r, c) with 1 <= c <= r <= n, and
   number n(n+1)/2.
   */
  lemma TriangleCellsShape(n: nat)
    requires n < 0x8000_0000
    ensures NonNegative(TriangleCells(n)) && StrictlySorted(TriangleCells(n), NumbersLess)
    ensures forall i :: 0 <= i < |TriangleCells(n)| ==>
      1 <= TriangleCells(n)[i].1 <= TriangleCells(n)[i].0 <= n
    ensures 2 * |TriangleCells(n)| == n * (n + 1)
  {
    TriangleCellsBounds(n);
    TriangleCellsSorted(n);
    TriangleCellsCount(n);
  }

  lemma {:induction false} TriangleCellsBounds(n: nat)
    requires n < 0x8000_0000
    ensures forall i :: 0 <= i < |TriangleCells(n)| ==>
      1 <= TriangleCells(n)[i].1 <= TriangleCells(n)[i].0 <= n
  {
    if n > 0 {
      var t := TriangleCells(n - 1);
      var row := RowCells(n, n);
      TriangleCellsBounds(n - 1);
      RowCellsShape(n, n);
      var all: seq<CellNumbers> := t + row;
      forall i | 0 <= i < |all|
        ensures 1 <= all[i].1 <= all[i].0 <= n
      {
        if i >= |t| {
          assert all[i] == row[i - |t|];
        } else {
          assert all[i] == t[i];
        }
      }
    }
  }

  lemma {:induction false} TriangleCellsSorted(n: nat)
    requires n < 0x8000_0000
    ensures StrictlySorted(TriangleCells(n), NumbersLess)
  {
    if n > 0 {
      var t := TriangleCells(n - 1);
      var row := RowCells(n, n);
      TriangleCellsSorted(n - 1);
      TriangleCellsBounds(n - 1);
      RowCellsShape(n, n);
      SortedConcat(t, row, NumbersLess);
    }
  }

  lemma {:induction false} TriangleCellsCount(n: nat)
    requires n < 0x8000_0000
    ensures 2 * |TriangleCells(n)| == n * (n + 1)
  {
    if n > 0 {
      TriangleCellsCount(n - 1);
      RowCellsShape(n, n);
      assert n * (n + 1) == (n - 1) * n + 2 * n;
    }
  }

  /** A cell is named by the triangle's numbers exactly when the larger table writes to it. */
  lemma TriangleCellsAreWritten(n: nat)
    requires n < 0x8000_0000
    ensures forall c :: c in CellsAt(TriangleCells(n)) <==>
      exists i :: 0 <= i < |TriangleWrites(n)| && PutCell(TriangleWrites(n)[i]) == c
  {
    var cells := CellsAt(TriangleCells(n));
    var puts := TriangleWrites(n);
    TriangleCellsShape(n);
    forall c | c in cells
      ensures exists i :: 0 <= i < |puts| && PutCell(puts[i]) == c
    {
      var k :| 0 <= k < |cells| && cells[k] == c;
      TriangleWritesHasCell(n, TriangleCells(n)[k].0, TriangleCells(n)[k].1);
      var i :| 0 <= i < |puts| && puts[i].row == TriangleCells(n)[k].0 && puts[i].col == TriangleCells(n)[k].1;
      assert PutCell(puts[i]) == c;
    }
    forall c | exists i :: 0 <= i < |puts| && PutCell(puts[i]) == c
      ensures c in cells
    {
      var i :| 0 <= i < |puts| && PutCell(puts[i]) == c;
      TriangleWritesContents(n, i);
      TriangleCellPosition(n, puts[i].row, puts[i].col);
    }
  }

  /** Each cell (r, c) with 1 <= c <= r <= n is named somewhere in the triangle. */
  lemma {:induction false} TriangleCellPosition(n: nat, r: Int32, col: Int32)
    requires n < 0x8000_0000 && 1 <= col <= r <= n
    ensures CellOf(r, col) in CellsAt(TriangleCells(n))
  {
    var t := TriangleCells(n - 1);
    var all := TriangleCells(n);
    if r == n {
      RowCellsShape(n, n);
      assert all[|t| + col - 1] == (r, col);
      assert CellsAt(all)[|t| + col - 1] == CellOf(r, col);
    } else {
      TriangleCellPosition(n - 1, r, col);
      var k :| 0 <= k < |CellsAt(t)| && CellsAt(t)[k] == CellOf(r, col);
      assert all[k] == t[k];
      assert CellsAt(all)[k] == CellOf(r, col);
    }
  }

  /**
   The larger table: rows 1 to `n`, row `r` with cells in columns 1 to `r`, cell (r, c)
   with `1 + c % 4` versions. Read with a batch size hint of one, it yields n(n+1)/2 cells,
   row by row and column by column. The test takes n = 50.
   */
  lemma LargerTableWithSmallBatchSizeReturnsCorrectResults(n: nat)
    requires n < 0x8000_0000
    ensures |CellsAt(TriangleCells(n))| == (1 + n) * n / 2
    ensures CellsOf(ReadAll(Store(TriangleWrites(n)), LargerTableRequest()))
         == CellsAt(TriangleCells(n))
  {
    ReadAllIsSweepResult(Store(TriangleWrites(n)), LargerTableRequest());
    var puts := TriangleWrites(n);
    var req := LargerTableRequest();
    TriangleCellsShape(n);
    TriangleCellsAreWritten(n);
    forall i | 0 <= i < |puts|
      ensures req.minUncommittedStartTimestamp <= puts[i].ts < req.sweepTimestamp
      ensures puts[i].ts !in req.timestampsToIgnore
    {
      TriangleWritesContents(n, i);
    }
    ScanOfRecentWrites(puts, req, TriangleCells(n));
  }
}
