/**
 The sweep candidate scanner of a key-value service (`getCandidateCellsForSweeping`).

 A table's history maps each cell to its versions, a map from start timestamp to value
 bytes; an empty value is a deletion marker. Given a request, the scanner walks the cells
 whose row is at or after `startRowInclusive`, in cell order, and produces one candidate
 per cell: the cell's timestamps below the sweep timestamp (less the ignored ones), in
 ascending order, when the cell needs sweeping, and no timestamps otherwise. The
 candidates arrive in batches; a caller concatenates the batches and drops the candidates
 without timestamps.

 A cell needs sweeping when it has at least two eligible versions, or its newest eligible
 version is at or above `minUncommittedStartTimestamp` (its writer may not have
 committed), or the request checks for empty latest values and the newest eligible value
 is empty.
 */
module Scanner {
  import opened Wrappers
  import opened Ordering
  import opened Sequences
  import opened Bytes
  import opened Cells

  type Timestamp = int
  type Versions = map<Timestamp, Bytes>
  type History = map<Cell, Versions>

  datatype CandidateCellForSweepingRequest = Request(
    startRowInclusive: Bytes,
    sweepTimestamp: Timestamp,
    minUncommittedStartTimestamp: Timestamp,
    shouldCheckIfLatestValueIsEmpty: bool,
    timestampsToIgnore: set<Timestamp>,
    batchSizeHint: Option<int>)

  /** The part of a request that decides what happens to one cell. */
  datatype CellPolicy = CellPolicy(
    sweepTimestamp: Timestamp,
    minUncommittedStartTimestamp: Timestamp,
    shouldCheckIfLatestValueIsEmpty: bool,
    timestampsToIgnore: set<Timestamp>)

  function PolicyOf(req: CandidateCellForSweepingRequest): CellPolicy {
    CellPolicy(req.sweepTimestamp, req.minUncommittedStartTimestamp,
               req.shouldCheckIfLatestValueIsEmpty, req.timestampsToIgnore)
  }

  datatype CandidateCellForSweeping = Candidate(
    cell: Cell,
    sortedTimestamps: seq<Timestamp>,
    isLatestValueEmpty: bool,
    numCellsTsPairsExamined: nat)

  // ---------------------------------------------------------------------------
  // Timestamps of one cell
  // ---------------------------------------------------------------------------

  predicate IntLess(a: int, b: int) { a < b }
  predicate IntGreater(a: int, b: int) { a > b }

  lemma IntOrders()
    ensures StrictTotalOrder(IntLess) && StrictTotalOrder(IntGreater)
  {
  }

  /** The versions the scan reads for a cell: those written before the sweep timestamp. */
  function ExaminedTimestamps(v: Versions, p: CellPolicy): set<Timestamp> {
    set ts | ts in v && ts < p.sweepTimestamp
  }

  /** The examined timestamps that the request does not ask to ignore. */
  function EligibleTimestamps(v: Versions, p: CellPolicy): set<Timestamp> {
    ExaminedTimestamps(v, p) - p.timestampsToIgnore
  }

  function Newest(s: set<Timestamp>): (t: Timestamp)
    requires s != {}
    ensures t in s && forall u :: u in s ==> u <= t
  {
    IntOrders();
    Least(s, IntGreater)
  }

  function Ascending(s: set<Timestamp>): (r: seq<Timestamp>)
    ensures StrictlySorted(r, IntLess)
    ensures forall t :: t in r <==> t in s
  {
    IntOrders();
    Enumerate(s, IntLess)
  }

  /** `t` is the largest element of `s`. */
  predicate IsNewest(t: Timestamp, s: set<Timestamp>) {
    t in s && forall u :: u in s ==> u <= t
  }

  /**
   The selection rule applied to `t`, taken as the newest eligible version: at least two
   eligible versions, or `t` possibly uncommitted, or emptiness checked and `t`'s value empty.
   */
  predicate RuleSelects(v: Versions, p: CellPolicy, t: Timestamp)
    requires t in v
  {
    || |EligibleTimestamps(v, p)| >= 2
    || t >= p.minUncommittedStartTimestamp
    || (p.shouldCheckIfLatestValueIsEmpty && v[t] == [])
  }

  /**
   The selection rule, stated without computing anything: some eligible version is the
   newest, and the rule selects it.
   */
  ghost predicate NeedsSweeping(v: Versions, p: CellPolicy) {
    exists t :: IsNewest(t, EligibleTimestamps(v, p)) && RuleSelects(v, p, t)
  }

  /** The selection rule as the scanner evaluates it, on the newest eligible version. */
  predicate SweepNeeded(v: Versions, p: CellPolicy) {
    var eligible := EligibleTimestamps(v, p);
    eligible != {} && RuleSelects(v, p, Newest(eligible))
  }

  /** The scanner's evaluation of the selection rule agrees with the rule. */
  lemma SweepNeededMeansNeedsSweeping(v: Versions, p: CellPolicy)
    ensures SweepNeeded(v, p) <==> NeedsSweeping(v, p)
  {
    var eligible := EligibleTimestamps(v, p);
    if NeedsSweeping(v, p) {
      var t :| IsNewest(t, eligible) && RuleSelects(v, p, t);
      NewestUnique(t, Newest(eligible), eligible);
    }
    if SweepNeeded(v, p) {
      assert IsNewest(Newest(eligible), eligible);
    }
  }

  lemma NewestUnique(t1: Timestamp, t2: Timestamp, s: set<Timestamp>)
    requires IsNewest(t1, s) && IsNewest(t2, s)
    ensures t1 == t2
  {
  }

  /** The candidate the scanner produces for cell `c` with versions `v`. */
  function CandidateFor(c: Cell, v: Versions, p: CellPolicy): (r: CandidateCellForSweeping)
    ensures r.cell == c
    ensures r.numCellsTsPairsExamined == |ExaminedTimestamps(v, p)|
    ensures r.sortedTimestamps != [] <==> NeedsSweeping(v, p)
    ensures r.sortedTimestamps != [] ==>
      && StrictlySorted(r.sortedTimestamps, IntLess)
      && (forall t :: t in r.sortedTimestamps <==> t in EligibleTimestamps(v, p))
    ensures r.sortedTimestamps != [] ==>
      var newest := r.sortedTimestamps[|r.sortedTimestamps| - 1];
      newest in v && (r.isLatestValueEmpty <==> v[newest] == [])
  {
    var examined := ExaminedTimestamps(v, p);
    var eligible := EligibleTimestamps(v, p);
    SweepNeededMeansNeedsSweeping(v, p);
    if !SweepNeeded(v, p) then
      Candidate(c, [], eligible != {} && v[Newest(eligible)] == [], |examined|)
    else
      var newest := Newest(eligible);
      var sorted := Ascending(eligible);
      NewestIsLast(sorted, eligible, newest);
      Candidate(c, sorted, v[newest] == [], |examined|)
  }

  /** The last element of an ascending enumeration of a set is the set's maximum. */
  lemma NewestIsLast(sorted: seq<Timestamp>, s: set<Timestamp>, newest: Timestamp)
    requires StrictlySorted(sorted, IntLess)
    requires forall t :: t in sorted <==> t in s
    requires newest in s && forall u :: u in s ==> u <= newest
    ensures sorted != [] && sorted[|sorted| - 1] == newest
  {
    var k :| 0 <= k < |sorted| && sorted[k] == newest;
    var last := sorted[|sorted| - 1];
    assert last in s;
    assert k == |sorted| - 1 || IntLess(sorted[k], last);
  }

  // ---------------------------------------------------------------------------
  // The scan
  // ---------------------------------------------------------------------------

  /** Cell `c` is stored and its row is at or after the request's start row. */
  predicate InScan(h: History, req: CandidateCellForSweepingRequest, c: Cell) {
    c in h && LexLessEq(req.startRowInclusive, c.row)
  }

  /** The stored cells from the start row on, in cell order. */
  function ScanOrder(h: History, req: CandidateCellForSweepingRequest): (cells: seq<Cell>)
    ensures StrictlySorted(cells, CellLess)
    ensures forall c :: c in cells <==> InScan(h, req, c)
  {
    CellLessIsStrictTotalOrder();
    Enumerate((set c | c in h && InScan(h, req, c)), CellLess)
  }

  /** One candidate per cell of the scan, in scan order: the concatenation of all batches. */
  function RawCandidates(h: History, req: CandidateCellForSweepingRequest): (r: seq<CandidateCellForSweeping>)
    ensures |r| == |ScanOrder(h, req)|
    ensures forall i :: 0 <= i < |r| ==>
      var c := ScanOrder(h, req)[i];
      c in h && r[i] == CandidateFor(c, h[c], PolicyOf(req))
  {
    var cells := ScanOrder(h, req);
    assert forall i :: 0 <= i < |cells| ==> cells[i] in cells;
    seq(|cells|, i requires 0 <= i < |cells| => CandidateFor(cells[i], h[cells[i]], PolicyOf(req)))
  }

  predicate HasTimestamps(c: CandidateCellForSweeping) {
    |c.sortedTimestamps| > 0
  }

  /**
   What a caller reads from a sequence of batches: their concatenation without the
   candidates that carry no timestamps (`getAllCandidates` in the sweep tests).
   */
  function GetAllCandidates(batches: seq<seq<CandidateCellForSweeping>>): seq<CandidateCellForSweeping> {
    Filter(HasTimestamps, Flatten(batches))
  }

  /** The observable result of a scan. */
  function VisibleCandidates(h: History, req: CandidateCellForSweepingRequest): seq<CandidateCellForSweeping> {
    Filter(HasTimestamps, RawCandidates(h, req))
  }

  predicate CellBefore(a: CandidateCellForSweeping, b: CandidateCellForSweeping) {
    CellLess(a.cell, b.cell)
  }

  /**
   The scan's result, described independently of how it is computed: candidates in
   strictly increasing cell order, each one a cell of the scan that needs sweeping with
   the candidate the scanner makes for it, and every such cell present.
   */
  ghost predicate IsSweepResult(h: History, req: CandidateCellForSweepingRequest, r: seq<CandidateCellForSweeping>) {
    && StrictlySorted(r, CellBefore)
    && OnlyCellsNeedingSweep(h, req, r)
    && EveryCellNeedingSweep(h, req, r)
  }

  ghost predicate OnlyCellsNeedingSweep(h: History, req: CandidateCellForSweepingRequest, r: seq<CandidateCellForSweeping>) {
    forall i :: 0 <= i < |r| ==>
      && InScan(h, req, r[i].cell)
      && NeedsSweeping(h[r[i].cell], PolicyOf(req))
      && r[i] == CandidateFor(r[i].cell, h[r[i].cell], PolicyOf(req))
  }

  ghost predicate EveryCellNeedingSweep(h: History, req: CandidateCellForSweepingRequest, r: seq<CandidateCellForSweeping>) {
    forall c :: InScan(h, req, c) && NeedsSweeping(h[c], PolicyOf(req)) ==>
      exists i :: 0 <= i < |r| && r[i].cell == c
  }

  // ---------------------------------------------------------------------------
  // Batching
  // ---------------------------------------------------------------------------

  /** The number of (cell, timestamp) pairs examined for the candidates of a batch. */
  function ExaminedIn(batch: seq<CandidateCellForSweeping>): nat {
    if batch == [] then 0
    else ExaminedIn(batch[..|batch| - 1]) + batch[|batch| - 1].numCellsTsPairsExamined
  }

  /**
   A batch as the hint shapes it: not empty, and, under a hint, no proper prefix of it
   reached the hint (the batch was closed at the first candidate that did).
   */
  predicate CutAtHint(batch: seq<CandidateCellForSweeping>, hint: Option<int>) {
    && batch != []
    && (hint.Some? && |batch| > 1 ==> ExaminedIn(batch[..|batch| - 1]) < hint.value)
  }

  /** There is a hint and the pairs examined for the batch reached it. */
  predicate ReachedHint(batch: seq<CandidateCellForSweeping>, hint: Option<int>) {
    hint.Some? && ExaminedIn(batch) >= hint.value
  }

  /**
   Cuts `raw` into batches. A batch is closed as soon as the pairs examined for its
   candidates reach the hint; without a hint everything is one batch. No candidate is
   lost, repeated or reordered, and no batch is empty.
   */
  function Batches(raw: seq<CandidateCellForSweeping>, hint: Option<int>): (batches: seq<seq<CandidateCellForSweeping>>)
    ensures Flatten(batches) == raw
    ensures forall i :: 0 <= i < |batches| ==> CutAtHint(batches[i], hint)
    ensures forall i :: 0 <= i < |batches| - 1 ==> ReachedHint(batches[i], hint)
    ensures hint.None? ==> |batches| <= 1
  {
    assert raw[..0] == [];
    BatchesFrom(raw, 0, [], [], hint)
  }

  /**
   The batches of `raw` when the first `i` candidates have given the closed `batches` and
   the open batch `current`.
   */
  function BatchesFrom(raw: seq<CandidateCellForSweeping>, i: int,
                       batches: seq<seq<CandidateCellForSweeping>>,
                       current: seq<CandidateCellForSweeping>, hint: Option<int>): (all: seq<seq<CandidateCellForSweeping>>)
    requires BatchingAt(raw, i, batches, current, hint)
    ensures Flatten(all) == raw
    ensures forall k :: 0 <= k < |all| ==> CutAtHint(all[k], hint)
    ensures forall k :: 0 <= k < |all| - 1 ==> ReachedHint(all[k], hint)
    ensures hint.None? ==> |all| <= 1
    decreases |raw| - i
  {
    if i == |raw| then
      FinishBatching(raw, batches, current, hint);
      CloseOpenBatch(batches, current)
    else
      var next := current + [raw[i]];
      if ReachedHint(next, hint) then
        CloseBatch(raw, i, batches, current, hint);
        BatchesFrom(raw, i + 1, batches + [next], [], hint)
      else
        ExtendBatch(raw, i, batches, current, hint);
        BatchesFrom(raw, i + 1, batches, next, hint)
  }

  /** `Batches`, computed by one pass over the candidates. */
  method Batch(raw: seq<CandidateCellForSweeping>, hint: Option<int>)
    returns (batches: seq<seq<CandidateCellForSweeping>>)
    ensures batches == Batches(raw, hint)
  {
    batches := [];
    var current: seq<CandidateCellForSweeping> := [];
    var i := 0;
    assert raw[..0] == [];
    while i < |raw|
      invariant BatchingAt(raw, i, batches, current, hint)
      invariant BatchesFrom(raw, i, batches, current, hint) == Batches(raw, hint)
    {
      var next := current + [raw[i]];
      if ReachedHint(next, hint) {
        CloseBatch(raw, i, batches, current, hint);
        batches, current := batches + [next], [];
      } else {
        ExtendBatch(raw, i, batches, current, hint);
        current := next;
      }
      i := i + 1;
    }
    batches := CloseOpenBatch(batches, current);
  }

  /** The closed batches followed by the open one, if it holds anything. */
  function CloseOpenBatch(batches: seq<seq<CandidateCellForSweeping>>, current: seq<CandidateCellForSweeping>): seq<seq<CandidateCellForSweeping>> {
    if current != [] then batches + [current] else batches
  }

  /** Every batch is cut at the hint and reached it. */
  predicate ClosedBatches(batches: seq<seq<CandidateCellForSweeping>>, hint: Option<int>) {
    forall k :: 0 <= k < |batches| ==> CutAtHint(batches[k], hint) && ReachedHint(batches[k], hint)
  }

  /** A batch still open: empty, or cut at the hint without having reached it. */
  predicate OpenBatch(current: seq<CandidateCellForSweeping>, hint: Option<int>) {
    current != [] ==> CutAtHint(current, hint) && !ReachedHint(current, hint)
  }

  /**
   The state of batching after the first `i` candidates: the closed batches followed by
   the open one hold exactly those candidates, and without a hint nothing is closed.
   */
  predicate BatchingAt(raw: seq<CandidateCellForSweeping>, i: int,
                       batches: seq<seq<CandidateCellForSweeping>>,
                       current: seq<CandidateCellForSweeping>, hint: Option<int>) {
    && 0 <= i <= |raw|
    && Flatten(batches) + current == raw[..i]
    && ClosedBatches(batches, hint)
    && OpenBatch(current, hint)
    && (hint.None? ==> batches == [])
  }

  /** Adding a candidate to an open batch, one that has not reached the hint, gives a batch cut at the hint. */
  lemma ExtendOpenBatch(current: seq<CandidateCellForSweeping>, x: CandidateCellForSweeping, hint: Option<int>)
    requires OpenBatch(current, hint)
    ensures CutAtHint(current + [x], hint)
  {
    assert (current + [x])[..|current|] == current;
  }

  /** The next candidate brings the open batch to the hint: the batch is closed. */
  lemma CloseBatch(raw: seq<CandidateCellForSweeping>, i: int,
                   batches: seq<seq<CandidateCellForSweeping>>,
                   current: seq<CandidateCellForSweeping>, hint: Option<int>)
    requires BatchingAt(raw, i, batches, current, hint) && i < |raw|
    requires ReachedHint(current + [raw[i]], hint)
    ensures BatchingAt(raw, i + 1, batches + [current + [raw[i]]], [], hint)
  {
    ExtendOpenBatch(current, raw[i], hint);
    FlattenAppend(batches, current + [raw[i]]);
    assert raw[..i + 1] == raw[..i] + [raw[i]];
  }

  /** The next candidate leaves the open batch short of the hint: it joins the batch. */
  lemma ExtendBatch(raw: seq<CandidateCellForSweeping>, i: int,
                    batches: seq<seq<CandidateCellForSweeping>>,
                    current: seq<CandidateCellForSweeping>, hint: Option<int>)
    requires BatchingAt(raw, i, batches, current, hint) && i < |raw|
    requires !ReachedHint(current + [raw[i]], hint)
    ensures BatchingAt(raw, i + 1, batches, current + [raw[i]], hint)
  {
    ExtendOpenBatch(current, raw[i], hint);
    assert raw[..i + 1] == raw[..i] + [raw[i]];
  }

  /** At the end, the open batch, if any, becomes the last batch. */
  lemma FinishBatching(raw: seq<CandidateCellForSweeping>,
                       batches: seq<seq<CandidateCellForSweeping>>,
                       current: seq<CandidateCellForSweeping>, hint: Option<int>)
    requires BatchingAt(raw, |raw|, batches, current, hint)
    ensures Flatten(CloseOpenBatch(batches, current)) == raw
    ensures forall i :: 0 <= i < |CloseOpenBatch(batches, current)| ==>
      CutAtHint(CloseOpenBatch(batches, current)[i], hint)
    ensures forall i :: 0 <= i < |CloseOpenBatch(batches, current)| - 1 ==>
      ReachedHint(CloseOpenBatch(batches, current)[i], hint)
    ensures hint.None? ==> |CloseOpenBatch(batches, current)| <= 1
  {
    assert raw[..|raw|] == raw;
    if current != [] {
      FlattenAppend(batches, current);
    }
  }

  /** The scan as a sequence of batches (`getCandidateCellsForSweeping`). */
  method GetCandidateCellsForSweeping(h: History, req: CandidateCellForSweepingRequest)
    returns (batches: seq<seq<CandidateCellForSweeping>>)
    ensures batches == Batches(RawCandidates(h, req), req.batchSizeHint)
    ensures Flatten(batches) == RawCandidates(h, req)
    ensures forall i :: 0 <= i < |batches| ==> batches[i] != []
  {
    batches := Batch(RawCandidates(h, req), req.batchSizeHint);
  }

  /**
   What a caller reads from the scan (`getAllCandidates`): the batches, cut under the
   request's hint, concatenated, without the candidates that carry no timestamps.
   */
  function ReadAll(h: History, req: CandidateCellForSweepingRequest): seq<CandidateCellForSweeping> {
    GetAllCandidates(Batches(RawCandidates(h, req), req.batchSizeHint))
  }

  /** What a caller reads is the sweep result: the visible candidates, whatever the hint. */
  lemma ReadAllIsSweepResult(h: History, req: CandidateCellForSweepingRequest)
    ensures ReadAll(h, req) == VisibleCandidates(h, req)
    ensures IsSweepResult(h, req, ReadAll(h, req))
  {
    VisibleCandidatesIsSweepResult(h, req);
  }

  /** Reads the whole scan as a caller does. */
  method GetAllCandidatesForSweeping(h: History, req: CandidateCellForSweepingRequest)
    returns (r: seq<CandidateCellForSweeping>)
    ensures r == ReadAll(h, req)
    ensures r == VisibleCandidates(h, req)
    ensures IsSweepResult(h, req, r)
  {
    var batches := GetCandidateCellsForSweeping(h, req);
    r := GetAllCandidates(batches);
    ReadAllIsSweepResult(h, req);
  }

  // ---------------------------------------------------------------------------
  // The result, characterised
  // ---------------------------------------------------------------------------

  /** The visible candidates are a sweep result. */
  lemma VisibleCandidatesIsSweepResult(h: History, req: CandidateCellForSweepingRequest)
    ensures IsSweepResult(h, req, VisibleCandidates(h, req))
  {
    VisibleCandidatesAscending(h, req);
    VisibleCandidatesSound(h, req);
    VisibleCandidatesComplete(h, req);
  }

  lemma VisibleCandidatesAscending(h: History, req: CandidateCellForSweepingRequest)
    ensures StrictlySorted(VisibleCandidates(h, req), CellBefore)
  {
    var cells := ScanOrder(h, req);
    var raw := RawCandidates(h, req);
    forall i, j | 0 <= i < j < |raw|
      ensures CellBefore(raw[i], raw[j])
    {
      assert raw[i].cell == cells[i] && raw[j].cell == cells[j];
    }
    FilterSorted(HasTimestamps, raw, CellBefore);
  }

  lemma VisibleCandidatesSound(h: History, req: CandidateCellForSweepingRequest)
    ensures OnlyCellsNeedingSweep(h, req, VisibleCandidates(h, req))
  {
    var cells := ScanOrder(h, req);
    var raw := RawCandidates(h, req);
    var r := VisibleCandidates(h, req);
    forall i | 0 <= i < |r|
      ensures InScan(h, req, r[i].cell) && NeedsSweeping(h[r[i].cell], PolicyOf(req))
      ensures r[i] == CandidateFor(r[i].cell, h[r[i].cell], PolicyOf(req))
    {
      assert r[i] in raw && HasTimestamps(r[i]);
      var k :| 0 <= k < |raw| && raw[k] == r[i];
      assert cells[k] in cells;
    }
  }

  lemma VisibleCandidatesComplete(h: History, req: CandidateCellForSweepingRequest)
    ensures EveryCellNeedingSweep(h, req, VisibleCandidates(h, req))
  {
    var cells := ScanOrder(h, req);
    var raw := RawCandidates(h, req);
    var r := VisibleCandidates(h, req);
    forall c | InScan(h, req, c) && NeedsSweeping(h[c], PolicyOf(req))
      ensures exists i :: 0 <= i < |r| && r[i].cell == c
    {
      assert c in cells;
      var k :| 0 <= k < |cells| && cells[k] == c;
      assert HasTimestamps(raw[k]);
      assert raw[k] in r;
      var i :| 0 <= i < |r| && r[i] == raw[k];
    }
  }

  function CellsOf(r: seq<CandidateCellForSweeping>): (cells: seq<Cell>)
    ensures |cells| == |r| && forall i :: 0 <= i < |r| ==> cells[i] == r[i].cell
  {
    seq(|r|, i requires 0 <= i < |r| => r[i].cell)
  }

  /** The cells of a sweep result are, in order, the cells of the scan that need sweeping. */
  lemma SweepResultCells(h: History, req: CandidateCellForSweepingRequest, r: seq<CandidateCellForSweeping>)
    requires IsSweepResult(h, req, r)
    ensures StrictlySorted(CellsOf(r), CellLess)
    ensures forall c :: c in CellsOf(r) <==> InScan(h, req, c) && NeedsSweeping(h[c], PolicyOf(req))
  {
    var cells := CellsOf(r);
    forall i, j | 0 <= i < j < |cells|
      ensures CellLess(cells[i], cells[j])
    {
      assert CellBefore(r[i], r[j]);
    }
    forall c | InScan(h, req, c) && NeedsSweeping(h[c], PolicyOf(req))
      ensures c in cells
    {
      var i :| 0 <= i < |r| && r[i].cell == c;
      assert cells[i] == c;
    }
  }

  /** At most one sequence is a sweep result: the description above fixes the output. */
  lemma SweepResultUnique(h: History, req: CandidateCellForSweepingRequest,
                          r1: seq<CandidateCellForSweeping>, r2: seq<CandidateCellForSweeping>)
    requires IsSweepResult(h, req, r1) && IsSweepResult(h, req, r2)
    ensures r1 == r2
  {
    SweepResultCells(h, req, r1);
    SweepResultCells(h, req, r2);
    CellLessIsStrictTotalOrder();
    SortedUnique(CellsOf(r1), CellsOf(r2), CellLess);
    forall i | 0 <= i < |r1|
      ensures r1[i] == r2[i]
    {
      assert CellsOf(r1)[i] == CellsOf(r2)[i];
    }
  }
}
