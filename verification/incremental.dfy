/**
  The incremental gap-aware rolling window of `RollingStdCalculator`: one
  security's rows are folded one at a time into a FIFO window of at most
  `windowSize` (bid, mid, ask) triples and six running sums; the window is
  cleared whenever a row is not exactly one hour after the previous one, and
  a record is emitted for every row after which the window is full.
 */
module Incremental {
  import opened Stats
  import opened Common
  import opened Ordering

  // ---------------------------------------------------------------------------
  // Declarative specification of one security's fold
  // ---------------------------------------------------------------------------

  /** How many of the rows seen so far the window keeps: the trailing hour-apart run, capped at the window size. */
  function Kept(rows: seq<Snap>, windowSize: nat): (k: nat)
    ensures k <= |rows| && k <= windowSize
  {
    if TrailingRun(rows) < windowSize then TrailingRun(rows) else windowSize
  }

  /** The rows whose quotes the window holds after folding `rows`. */
  function WindowRows(rows: seq<Snap>, windowSize: nat): seq<Snap>
  {
    rows[|rows| - Kept(rows, windowSize)..]
  }

  /** The record for the last row of `rows`, whose window is its last `windowSize` rows. */
  function RecordAt(security: string, rows: seq<Snap>, windowSize: nat): StdevRecord
    requires 1 <= windowSize <= |rows|
  {
    StdevRecord(security, rows[|rows| - 1].ts, PopVariances(Quotes(rows[|rows| - windowSize..])))
  }

  /**
    The records of one security's rows, in row order: one for each row whose
    trailing hour-apart run (that row included) has at least `windowSize` rows.
   */
  function GroupRecords(security: string, rows: seq<Snap>, windowSize: nat): (out: seq<StdevRecord>)
    requires windowSize >= 1
    ensures |out| <= |rows|
    ensures forall r :: r in out ==> r.security == security
  {
    if rows == [] then []
    else
      GroupRecords(security, rows[..|rows| - 1], windowSize)
        + (if TrailingRun(rows) >= windowSize then [RecordAt(security, rows, windowSize)] else [])
  }

  /** How the window rows change when one more row arrives. */
  lemma WindowRowsStep(rows: seq<Snap>, row: Snap, windowSize: nat)
    requires windowSize >= 1
    ensures var next := WindowRows(rows + [row], windowSize);
      if rows == [] || row.ts - rows[|rows| - 1].ts != HOUR then next == [row]
      else if Kept(rows, windowSize) < windowSize then next == WindowRows(rows, windowSize) + [row]
      else next == (WindowRows(rows, windowSize) + [row])[1..]
  {
    var all := rows + [row];
    assert all[..|all| - 1] == rows;
    if rows != [] && row.ts - rows[|rows| - 1].ts == HOUR {
      assert TrailingRun(all) == TrailingRun(rows) + 1;
      var k := Kept(rows, windowSize);
      if k < windowSize {
        assert all[|all| - (k + 1)..] == rows[|rows| - k..] + [row];
      } else {
        assert all[|all| - k..] == (rows[|rows| - k..] + [row])[1..];
      }
    }
  }

  /** Facts about the window rows that the engine's invariant relies on. */
  lemma WindowRowsFacts(rows: seq<Snap>, windowSize: nat)
    requires windowSize >= 1
    ensures |WindowRows(rows, windowSize)| <= windowSize
    ensures HourApart(Times(WindowRows(rows, windowSize)))
    ensures rows != [] ==>
              WindowRows(rows, windowSize) != [] &&
              WindowRows(rows, windowSize)[|WindowRows(rows, windowSize)| - 1] == rows[|rows| - 1]
    ensures |WindowRows(rows, windowSize)| == windowSize <==> TrailingRun(rows) >= windowSize
    ensures TrailingRun(rows) >= windowSize ==> WindowRows(rows, windowSize) == rows[|rows| - windowSize..]
  {
    var k := Kept(rows, windowSize);
    if k >= 1 {
      TrailingRunLinked(rows, k);
      LinkedHourApart(rows, |rows| - k);
    }
  }

  function Plus(a: Triple, b: Triple): Triple
  {
    Triple(a.bid + b.bid, a.mid + b.mid, a.ask + b.ask)
  }

  function Minus(a: Triple, b: Triple): Triple
  {
    Triple(a.bid - b.bid, a.mid - b.mid, a.ask - b.ask)
  }

  function Squares(q: Triple): Triple
  {
    Triple(Square(q.bid), Square(q.mid), Square(q.ask))
  }

  const Zero := Triple(0.0, 0.0, 0.0)

  /** Field-wise sum of the triples, accumulated oldest first. */
  function SumT(w: seq<Triple>): Triple
  {
    if w == [] then Zero else Plus(SumT(w[..|w| - 1]), w[|w| - 1])
  }

  /** Field-wise sum of the squares of the triples, accumulated oldest first. */
  function SumSqT(w: seq<Triple>): Triple
  {
    if w == [] then Zero else Plus(SumSqT(w[..|w| - 1]), Squares(w[|w| - 1]))
  }

  /** `sum` and `sumSq` are the exact field-wise sums and sums of squares over `w`. */
  ghost predicate SumsOf(w: seq<Triple>, sum: Triple, sumSq: Triple)
  {
    sum == SumT(w) && sumSq == SumSqT(w)
  }

  /** The running-sum variance formula applied to each field. */
  function RunningVariances(sum: Triple, sumSq: Triple, n: nat): Triple
    requires n > 0
  {
    Triple(RunningVariance(sum.bid, sumSq.bid, n), RunningVariance(sum.mid, sumSq.mid, n),
           RunningVariance(sum.ask, sumSq.ask, n))
  }

  /** Appending a triple keeps the running sums exact when its values and squares are added. */
  lemma AppendSums(w: seq<Triple>, q: Triple, sum: Triple, sumSq: Triple)
    requires SumsOf(w, sum, sumSq)
    ensures SumsOf(w + [q], Plus(sum, q), Plus(sumSq, Squares(q)))
  {
    assert (w + [q])[..|w|] == w;
  }

  /** Evicting the oldest triple keeps the running sums exact when its values and squares are subtracted. */
  lemma {:induction false} EvictSums(w: seq<Triple>, sum: Triple, sumSq: Triple)
    requires w != [] && SumsOf(w, sum, sumSq)
    ensures SumsOf(w[1..], Minus(sum, w[0]), Minus(sumSq, Squares(w[0])))
  {
    if |w| > 1 {
      var init := w[..|w| - 1];
      EvictSums(init, SumT(init), SumSqT(init));
      assert init[1..] == w[1..][..|w[1..]| - 1];
    }
  }

  /** The field-wise sums are the sums of the field projections. */
  lemma {:induction false} SumTFields(w: seq<Triple>)
    ensures SumT(w) == Triple(Sum(Bids(w)), Sum(Mids(w)), Sum(Asks(w)))
    ensures SumSqT(w) == Triple(SumSq(Bids(w)), SumSq(Mids(w)), SumSq(Asks(w)))
  {
    if w != [] {
      var init := w[..|w| - 1];
      SumTFields(init);
      assert Bids(init) == Bids(w)[..|w| - 1];
      assert Mids(init) == Mids(w)[..|w| - 1];
      assert Asks(init) == Asks(w)[..|w| - 1];
    }
  }

  /** Exact running sums over a non-empty window give its population variances. */
  lemma EmitFromSums(w: seq<Triple>, sum: Triple, sumSq: Triple)
    requires w != [] && SumsOf(w, sum, sumSq)
    ensures RunningVariances(sum, sumSq, |w|) == PopVariances(w)
  {
    SumTFields(w);
    RunningVarianceExact(Bids(w));
    RunningVarianceExact(Mids(w));
    RunningVarianceExact(Asks(w));
  }

  lemma ProjectionsAppend(rows: seq<Snap>, row: Snap)
    ensures Quotes(rows + [row]) == Quotes(rows) + [row.quote]
    ensures Times(rows + [row]) == Times(rows) + [row.ts]
  {
  }

  lemma ProjectionsTail(rows: seq<Snap>)
    requires rows != []
    ensures Quotes(rows[1..]) == Quotes(rows)[1..]
    ensures Times(rows[1..]) == Times(rows)[1..]
  {
  }

  // ---------------------------------------------------------------------------
  // One iteration of the engine's loop, on values
  // ---------------------------------------------------------------------------

  /**
    The loop state of `_process_group`: the deque of triples, the running
    sums (bid, mid, ask) and sums of squares, and the last timestamp seen.
   */
  datatype Deque = Deque(window: seq<Triple>, sum: Triple, sumSq: Triple, lastTs: Option<int>)

  const Fresh := Deque([], Zero, Zero, None)

  /**
    Fold one row into the state: reset on a gap (first row, or not exactly
    one hour after the last), append the row's triple and add it to the sums,
    then evict the oldest triple if the deque is longer than `windowSize`.
   */
  function Push(d: Deque, row: Snap, windowSize: nat): (e: Deque)
    ensures e.lastTs == Some(row.ts)
  {
    var kept := if d.lastTs.None? || row.ts - d.lastTs.value != HOUR then Deque([], Zero, Zero, d.lastTs) else d;
    var w, sum, sumSq := kept.window + [row.quote], Plus(kept.sum, row.quote), Plus(kept.sumSq, Squares(row.quote));
    if |w| > windowSize then Deque(w[1..], Minus(sum, w[0]), Minus(sumSq, Squares(w[0])), Some(row.ts))
    else Deque(w, sum, sumSq, Some(row.ts))
  }

  /** The state after folding `rows`, in order, into a fresh state. */
  function FoldRows(rows: seq<Snap>, windowSize: nat): Deque
  {
    if rows == [] then Fresh else Push(FoldRows(rows[..|rows| - 1], windowSize), rows[|rows| - 1], windowSize)
  }

  /** The records the engine emits while folding `rows`: one whenever the deque is full, from the running sums. */
  function FoldRecords(security: string, rows: seq<Snap>, windowSize: nat): seq<StdevRecord>
    requires windowSize >= 1
  {
    if rows == [] then []
    else
      var d := FoldRows(rows, windowSize);
      FoldRecords(security, rows[..|rows| - 1], windowSize)
        + (if |d.window| == windowSize then [StdevRecord(security, rows[|rows| - 1].ts, RunningVariances(d.sum, d.sumSq, windowSize))]
           else [])
  }

  /**
    The engine's invariant: the deque holds the quotes of the trailing
    hour-apart run of the rows seen, capped at `windowSize`; the sums are
    exact over it; and the last timestamp is that of the last row seen.
   */
  ghost predicate DequeInv(windowSize: nat, history: seq<Snap>, d: Deque)
  {
    && d.window == Quotes(WindowRows(history, windowSize))
    && SumsOf(d.window, d.sum, d.sumSq)
    && d.lastTs == (if history == [] then None else Some(history[|history| - 1].ts))
  }

  /** Resetting, appending and evicting keep the invariant. */
  lemma PushKeepsInv(windowSize: nat, history: seq<Snap>, d: Deque, row: Snap)
    requires windowSize >= 1 && DequeInv(windowSize, history, d)
    ensures DequeInv(windowSize, history + [row], Push(d, row, windowSize))
  {
    var rows := WindowRows(history, windowSize);
    WindowRowsStep(history, row, windowSize);
    var reset := d.lastTs.None? || row.ts - d.lastTs.value != HOUR;
    var kept, keptRows := if reset then Deque([], Zero, Zero, d.lastTs) else d, if reset then [] else rows;
    assert kept.window == Quotes(keptRows) && SumsOf(kept.window, kept.sum, kept.sumSq);
    AppendSums(kept.window, row.quote, kept.sum, kept.sumSq);
    ProjectionsAppend(keptRows, row);
    var w := kept.window + [row.quote];
    if |w| > windowSize {
      EvictSums(w, Plus(kept.sum, row.quote), Plus(kept.sumSq, Squares(row.quote)));
      ProjectionsTail(keptRows + [row]);
    }
  }

  lemma {:induction false} FoldRowsInv(rows: seq<Snap>, windowSize: nat)
    requires windowSize >= 1
    ensures DequeInv(windowSize, rows, FoldRows(rows, windowSize))
  {
    if rows != [] {
      var init := rows[..|rows| - 1];
      FoldRowsInv(init, windowSize);
      PushKeepsInv(windowSize, init, FoldRows(init, windowSize), rows[|rows| - 1]);
      assert init + [rows[|rows| - 1]] == rows;
    }
  }

  /**
    A full window's record: over exact running sums, the running formula
    gives the population variances of the window's last `windowSize` rows.
   */
  lemma RecordFromSums(security: string, history: seq<Snap>, windowSize: nat, d: Deque)
    requires windowSize >= 1 && history != [] && DequeInv(windowSize, history, d)
    ensures |d.window| == windowSize <==> TrailingRun(history) >= windowSize
    ensures |d.window| == windowSize ==>
              StdevRecord(security, history[|history| - 1].ts, RunningVariances(d.sum, d.sumSq, windowSize))
              == RecordAt(security, history, windowSize)
  {
    WindowRowsFacts(history, windowSize);
    if |d.window| == windowSize {
      EmitFromSums(d.window, d.sum, d.sumSq);
    }
  }

  /** The engine emits exactly the specified records. */
  lemma {:induction false} FoldRecordsSpec(security: string, rows: seq<Snap>, windowSize: nat)
    requires windowSize >= 1
    ensures FoldRecords(security, rows, windowSize) == GroupRecords(security, rows, windowSize)
  {
    if rows != [] {
      FoldRecordsSpec(security, rows[..|rows| - 1], windowSize);
      FoldRowsInv(rows, windowSize);
      RecordFromSums(security, rows, windowSize, FoldRows(rows, windowSize));
    }
  }

  // ---------------------------------------------------------------------------
  // What the records of one security are
  // ---------------------------------------------------------------------------

  /** Row `i` and the `windowSize - 1` rows before it are each exactly one hour after their predecessor. */
  ghost predicate CompletesWindow(rows: seq<Snap>, i: int, windowSize: nat)
  {
    && windowSize - 1 <= i < |rows|
    && forall j :: i - windowSize + 1 < j <= i ==> rows[j].ts - rows[j - 1].ts == HOUR
  }

  /** Seen from the prefix ending at row `i`, completing the window is the trailing run reaching the window size. */
  lemma CompletesWindowRun(rows: seq<Snap>, i: nat, windowSize: nat)
    requires 1 <= windowSize && i < |rows|
    ensures CompletesWindow(rows, i, windowSize) <==> TrailingRun(rows[..i + 1]) >= windowSize
  {
    var p := rows[..i + 1];
    if windowSize <= i + 1 {
      TrailingRunLinked(p, windowSize);
      assert LinkedFrom(p, |p| - windowSize) <==> CompletesWindow(rows, i, windowSize) by {
        assert forall j :: 0 <= j <= i ==> p[j] == rows[j];
      }
    }
  }

  /** `r` is the record emitted for row `i`. */
  ghost predicate RecordOfRow(security: string, rows: seq<Snap>, windowSize: nat, i: int, r: StdevRecord)
  {
    && 1 <= windowSize
    && 0 <= i < |rows|
    && CompletesWindow(rows, i, windowSize)
    && r == RecordAt(security, rows[..i + 1], windowSize)
  }

  /** The records of one more row: those before it, and its own if its run has reached the window size. */
  lemma GroupRecordsStep(security: string, rows: seq<Snap>, windowSize: nat)
    requires windowSize >= 1 && rows != []
    ensures GroupRecords(security, rows, windowSize)
            == GroupRecords(security, rows[..|rows| - 1], windowSize)
               + (if TrailingRun(rows) >= windowSize then [RecordAt(security, rows, windowSize)] else [])
  {
  }

  /** `r` is the record emitted by the last row of the prefix `rows[..m]`. */
  ghost predicate EmittedBy(security: string, rows: seq<Snap>, windowSize: nat, m: int, r: StdevRecord)
  {
    && 1 <= windowSize && 1 <= m <= |rows|
    && TrailingRun(rows[..m]) >= windowSize
    && r == RecordAt(security, rows[..m], windowSize)
  }

  /** A record emitted by a prefix of all but the last row is emitted by that prefix of all the rows. */
  lemma EmittedShift(security: string, rows: seq<Snap>, init: seq<Snap>, windowSize: nat, r: StdevRecord)
    requires rows != [] && init == rows[..|rows| - 1]
    requires exists m :: EmittedBy(security, init, windowSize, m, r)
    ensures exists m :: EmittedBy(security, rows, windowSize, m, r)
  {
    var m :| EmittedBy(security, init, windowSize, m, r);
    assert init[..m] == rows[..m];
    assert EmittedBy(security, rows, windowSize, m, r);
  }

  /** The record of the last row is emitted by the whole of the rows. */
  lemma EmittedLast(security: string, rows: seq<Snap>, windowSize: nat, r: StdevRecord)
    requires 1 <= windowSize && rows != [] && TrailingRun(rows) >= windowSize
    requires r == RecordAt(security, rows, windowSize)
    ensures exists m :: EmittedBy(security, rows, windowSize, m, r)
  {
    assert rows[..|rows|] == rows;
    assert EmittedBy(security, rows, windowSize, |rows|, r);
  }

  /** Every record is emitted by the last row of some prefix. */
  lemma {:induction false} GroupRecordsEmitted(security: string, rows: seq<Snap>, windowSize: nat, r: StdevRecord)
    requires windowSize >= 1 && r in GroupRecords(security, rows, windowSize)
    ensures exists m :: EmittedBy(security, rows, windowSize, m, r)
  {
    var init := rows[..|rows| - 1];
    GroupRecordsStep(security, rows, windowSize);
    if r in GroupRecords(security, init, windowSize) {
      GroupRecordsEmitted(security, init, windowSize, r);
      EmittedShift(security, rows, init, windowSize, r);
    } else {
      EmittedLast(security, rows, windowSize, r);
    }
  }

  /** The record emitted by the prefix of `m` rows is the record of row `m - 1`. */
  lemma EmittedRow(security: string, rows: seq<Snap>, windowSize: nat, m: int, r: StdevRecord)
    requires EmittedBy(security, rows, windowSize, m, r)
    ensures RecordOfRow(security, rows, windowSize, m - 1, r)
  {
    CompletesWindowRun(rows, m - 1, windowSize);
  }

  /** Every record comes from a row that completes its window. */
  lemma GroupRecordsSound(security: string, rows: seq<Snap>, windowSize: nat, r: StdevRecord)
    requires windowSize >= 1 && r in GroupRecords(security, rows, windowSize)
    ensures exists i :: RecordOfRow(security, rows, windowSize, i, r)
  {
    GroupRecordsEmitted(security, rows, windowSize, r);
    var m :| EmittedBy(security, rows, windowSize, m, r);
    EmittedRow(security, rows, windowSize, m, r);
  }

  /** The records of a prefix of the rows are among the records of all of them. */
  lemma {:induction false} GroupRecordsPrefix(security: string, rows: seq<Snap>, windowSize: nat, m: nat, r: StdevRecord)
    requires windowSize >= 1 && m <= |rows| && r in GroupRecords(security, rows[..m], windowSize)
    ensures r in GroupRecords(security, rows, windowSize)
    decreases |rows|
  {
    if m == |rows| {
      assert rows[..m] == rows;
    } else {
      var init := rows[..|rows| - 1];
      assert init[..m] == rows[..m];
      GroupRecordsPrefix(security, init, windowSize, m, r);
      GroupRecordsStep(security, rows, windowSize);
    }
  }

  /** Every row that completes its window has its record emitted. */
  lemma GroupRecordsComplete(security: string, rows: seq<Snap>, windowSize: nat, i: nat)
    requires windowSize >= 1 && CompletesWindow(rows, i, windowSize)
    ensures RecordAt(security, rows[..i + 1], windowSize) in GroupRecords(security, rows, windowSize)
  {
    var p := rows[..i + 1];
    CompletesWindowRun(rows, i, windowSize);
    GroupRecordsStep(security, p, windowSize);
    GroupRecordsPrefix(security, rows, windowSize, i + 1, RecordAt(security, p, windowSize));
  }

  /**
    A record is emitted for row `i` exactly when that row and the
    `windowSize - 1` rows before it are hour-apart; it carries the security,
    the row's timestamp and the population variances of those rows.
   */
  lemma GroupRecordsMembers(security: string, rows: seq<Snap>, windowSize: nat, r: StdevRecord)
    requires windowSize >= 1
    ensures r in GroupRecords(security, rows, windowSize) <==> exists i :: RecordOfRow(security, rows, windowSize, i, r)
  {
    if r in GroupRecords(security, rows, windowSize) {
      GroupRecordsSound(security, rows, windowSize, r);
    }
    if exists i :: RecordOfRow(security, rows, windowSize, i, r) {
      var i :| RecordOfRow(security, rows, windowSize, i, r);
      GroupRecordsComplete(security, rows, windowSize, i);
    }
  }

  ghost predicate TsAscending(records: seq<StdevRecord>)
  {
    forall a, b :: 0 <= a < b < |records| ==> records[a].ts <= records[b].ts
  }

  /** Records come out in row order, so rows in timestamp order give records in timestamp order. */
  lemma {:induction false} GroupRecordsSorted(security: string, rows: seq<Snap>, windowSize: nat)
    requires windowSize >= 1 && SortedByTs(rows)
    ensures TsAscending(GroupRecords(security, rows, windowSize))
  {
    if rows != [] {
      var n := |rows|;
      var init := rows[..n - 1];
      GroupRecordsSorted(security, init, windowSize);
      var prev := GroupRecords(security, init, windowSize);
      forall a | 0 <= a < |prev| ensures prev[a].ts <= rows[n - 1].ts {
        GroupRecordsSound(security, init, windowSize, prev[a]);
        var i :| RecordOfRow(security, init, windowSize, i, prev[a]);
        assert init[..i + 1][i] == rows[i];
      }
    }
  }

  /**
    Hourly mids 10, 10, 10, 13 from time `t` on, and 13 again two hours
    after the last, with the bid one below and the ask one above the mid.
   */
  function ScenarioRows(t: int): seq<Snap>
  {
    [Snap("S", t, Triple(9.0, 10.0, 11.0)), Snap("S", t + HOUR, Triple(9.0, 10.0, 11.0)),
     Snap("S", t + 2 * HOUR, Triple(9.0, 10.0, 11.0)), Snap("S", t + 3 * HOUR, Triple(12.0, 13.0, 14.0)),
     Snap("S", t + 5 * HOUR, Triple(12.0, 13.0, 14.0))]
  }

  /**
    With a window of three only the third and fourth rows complete their
    windows (the fifth follows a two-hour gap), so by `GroupRecordsMembers`
    their records are the only ones; `ScenarioFirstRecord` and
    `ScenarioSecondRecord` give their values.
   */
  lemma ScenarioEmission(t: int)
    ensures forall i :: 0 <= i < 5 ==> (CompletesWindow(ScenarioRows(t), i, 3) <==> i == 2 || i == 3)
  {
    var rows := ScenarioRows(t);
    assert rows[4].ts - rows[3].ts == 2 * HOUR;
    assert !CompletesWindow(rows, 4, 3);
  }

  /** The third row's window: three identical quotes, variance 0. */
  lemma ScenarioFirstRecord(t: int)
    ensures RecordAt("S", ScenarioRows(t)[..3], 3) == StdevRecord("S", t + 2 * HOUR, Triple(0.0, 0.0, 0.0))
  {
    var a := Triple(9.0, 10.0, 11.0);
    var q := Quotes(ScenarioRows(t)[..3][0..]);
    assert q == [a, a, a];
    ConstantVariance(Bids(q), 9.0);
    ConstantVariance(Mids(q), 10.0);
    ConstantVariance(Asks(q), 11.0);
  }

  /** The fourth row's window: mids 10, 10, 13, variance 2. */
  lemma ScenarioSecondRecord(t: int)
    ensures RecordAt("S", ScenarioRows(t)[..4], 3) == StdevRecord("S", t + 3 * HOUR, Triple(2.0, 2.0, 2.0))
  {
    var a, b := Triple(9.0, 10.0, 11.0), Triple(12.0, 13.0, 14.0);
    var q := Quotes(ScenarioRows(t)[..4][1..]);
    assert q == [a, a, b];
    assert Bids(q) == [9.0, 9.0, 9.0 + 3.0] && Mids(q) == [10.0, 10.0, 10.0 + 3.0] && Asks(q) == [11.0, 11.0, 11.0 + 3.0];
    ShiftedVariance(9.0);
    ShiftedVariance(10.0);
    ShiftedVariance(11.0);
  }

  /** Fewer rows than the window size give no record. */
  lemma {:induction false} ShortRowsNoRecords(security: string, rows: seq<Snap>, windowSize: nat)
    requires 1 <= windowSize && |rows| < windowSize
    ensures GroupRecords(security, rows, windowSize) == []
  {
    if rows != [] {
      ShortRowsNoRecords(security, rows[..|rows| - 1], windowSize);
    }
  }

  /** Values x, x, x + 3 have population variance 2. */
  lemma ShiftedVariance(x: real)
    ensures PopVariance([x, x, x + 3.0]) == 2.0
  {
    var s := [x, x, x + 3.0];
    assert s[..2] == [x, x] && [x, x][..1] == [x] && [x][..0] == [];
    assert Sum([x]) == x;
    assert Sum([x, x]) == x + x;
    assert Sum(s) == 3.0 * x + 3.0;
    assert Mean(s) == x + 1.0;
    assert SqDev([x], x + 1.0) == 1.0;
    assert SqDev([x, x], x + 1.0) == 2.0;
    assert SqDev(s, x + 1.0) == 6.0;
  }

  // ---------------------------------------------------------------------------
  // The whole run: lookback cut, groupby, range filter
  // ---------------------------------------------------------------------------

  /** The rows kept before grouping: those at or after `cut`, in their original order. */
  function Since(rows: seq<Snap>, cut: int): (kept: seq<Snap>)
    ensures forall r :: r in kept <==> r in rows && r.ts >= cut
    ensures forall r :: multiset(kept)[r] == if r.ts >= cut then multiset(rows)[r] else 0
  {
    if rows == [] then []
    else
      var rest := Since(rows[1..], cut);
      assert rows == [rows[0]] + rows[1..];
      if rows[0].ts >= cut then [rows[0]] + rest else rest
  }

  /** The records inside the closed interval [start, end], in their original order. */
  function Between(records: seq<StdevRecord>, start: int, end: int): (out: seq<StdevRecord>)
    ensures forall r :: r in out <==> r in records && start <= r.ts <= end
    ensures forall r :: multiset(out)[r] == if start <= r.ts <= end then multiset(records)[r] else 0
  {
    if records == [] then []
    else
      var rest := Between(records[1..], start, end);
      assert records == [records[0]] + records[1..];
      if start <= records[0].ts <= end then [records[0]] + rest else rest
  }

  /** The records of the groups of `ids`, concatenated in that order. */
  function Concatenated(rows: seq<Snap>, ids: seq<string>, windowSize: nat): seq<StdevRecord>
    requires windowSize >= 1
  {
    if ids == [] then []
    else
      var id := ids[|ids| - 1];
      Concatenated(rows, ids[..|ids| - 1], windowSize) + GroupRecords(id, GroupOf(rows, id), windowSize)
  }

  /**
    What a run writes: the rows from one day before `start` on are grouped by
    security (ascending), each group is folded in timestamp order, and the
    records inside [start, end] are kept. With no record at all the run fails
    (`None`) before writing anything.
   */
  function Calculated(data: seq<Snap>, start: int, end: int, windowSize: nat): Option<seq<StdevRecord>>
    requires windowSize >= 1
  {
    var rows := Since(data, start - DAY);
    var all := Concatenated(rows, SortedIds(rows), windowSize);
    if all == [] then None else Some(Between(all, start, end))
  }

  /** One more group appends its records. */
  lemma ConcatenatedStep(rows: seq<Snap>, ids: seq<string>, k: nat, windowSize: nat)
    requires windowSize >= 1 && k < |ids|
    ensures Concatenated(rows, ids[..k + 1], windowSize) ==
              Concatenated(rows, ids[..k], windowSize) + GroupRecords(ids[k], GroupOf(rows, ids[k]), windowSize)
  {
    assert ids[..k + 1][..k] == ids[..k];
  }

  /** A record of the concatenation is a record of its own security's group, and that security is one of `ids`. */
  lemma {:induction false} ConcatenatedMembers(rows: seq<Snap>, ids: seq<string>, windowSize: nat, r: StdevRecord)
    requires windowSize >= 1
    ensures r in Concatenated(rows, ids, windowSize) <==>
              r.security in ids && r in GroupRecords(r.security, GroupOf(rows, r.security), windowSize)
  {
    if ids != [] {
      var init, id := ids[..|ids| - 1], ids[|ids| - 1];
      ConcatenatedMembers(rows, init, windowSize, r);
      assert ids == init + [id];
      assert r.security in ids <==> r.security in init || r.security == id;
      var g := GroupRecords(id, GroupOf(rows, id), windowSize);
      assert r in g ==> r.security == id;
    }
  }

  /**
    Exactly the records inside [start, end] of the groups of the rows kept by
    the one-day lookback are written.
   */
  lemma CalculatedMembers(data: seq<Snap>, start: int, end: int, windowSize: nat, r: StdevRecord)
    requires windowSize >= 1
    requires Calculated(data, start, end, windowSize).Some?
    ensures var rows := Since(data, start - DAY);
      r in Calculated(data, start, end, windowSize).value <==>
        && start <= r.ts <= end
        && (exists row :: row in data && row.security == r.security && row.ts >= start - DAY)
        && r in GroupRecords(r.security, GroupOf(rows, r.security), windowSize)
  {
    var rows := Since(data, start - DAY);
    ConcatenatedMembers(rows, SortedIds(rows), windowSize, r);
  }

  /** `x` comes no later than `y` in the order by security id, then timestamp. */
  ghost predicate KeyLe(x: StdevRecord, y: StdevRecord)
  {
    StrLt(x.security, y.security) || (x.security == y.security && x.ts <= y.ts)
  }

  /** Records sorted by security id, then by timestamp. */
  ghost predicate SortedByKey(records: seq<StdevRecord>)
  {
    forall a, b :: 0 <= a < b < |records| ==> KeyLe(records[a], records[b])
  }

  /** Records of lower ids followed by one id's records in timestamp order stay sorted by key. */
  lemma SortedAppendGroup(prev: seq<StdevRecord>, id: string, last: seq<StdevRecord>)
    requires SortedByKey(prev)
    requires forall a :: 0 <= a < |prev| ==> StrLt(prev[a].security, id)
    requires forall r :: r in last ==> r.security == id
    requires TsAscending(last)
    ensures SortedByKey(prev + last)
  {
    var all := prev + last;
    forall a, b | 0 <= a < b < |all| ensures KeyLe(all[a], all[b]) {
      if b >= |prev| {
        assert all[b] == last[b - |prev|] && last[b - |prev|] in last;
        if a >= |prev| {
          assert all[a] == last[a - |prev|] && last[a - |prev|] in last;
        }
      }
    }
  }

  /** In an ascending list of ids, every id before the last is below it. */
  lemma BelowLast(ids: seq<string>, s: string)
    requires StrictlyAscending(ids) && ids != [] && s in ids[..|ids| - 1]
    ensures StrLt(s, ids[|ids| - 1])
  {
    var k :| 0 <= k < |ids| - 1 && ids[..|ids| - 1][k] == s;
    assert ids[k] == s;
  }

  /** The concatenation over ascending ids comes out sorted by security, then timestamp. */
  lemma {:induction false} ConcatenatedSorted(rows: seq<Snap>, ids: seq<string>, windowSize: nat)
    requires windowSize >= 1 && StrictlyAscending(ids)
    ensures SortedByKey(Concatenated(rows, ids, windowSize))
  {
    if ids != [] {
      var init, id := ids[..|ids| - 1], ids[|ids| - 1];
      ConcatenatedSorted(rows, init, windowSize);
      var prev := Concatenated(rows, init, windowSize);
      GroupRecordsSorted(id, GroupOf(rows, id), windowSize);
      forall a | 0 <= a < |prev| ensures StrLt(prev[a].security, id) {
        ConcatenatedMembers(rows, init, windowSize, prev[a]);
        BelowLast(ids, prev[a].security);
      }
      SortedAppendGroup(prev, id, GroupRecords(id, GroupOf(rows, id), windowSize));
    }
  }

  /** In records sorted by key, the first comes no later than any other. */
  lemma FirstKeyLe(records: seq<StdevRecord>, x: StdevRecord)
    requires SortedByKey(records) && records != [] && x in records[1..]
    ensures KeyLe(records[0], x)
  {
    var k :| 0 <= k < |records[1..]| && records[1..][k] == x;
    assert records[k + 1] == x;
  }

  /** Keeping a subsequence keeps the order. */
  lemma {:induction false} BetweenSorted(records: seq<StdevRecord>, start: int, end: int)
    requires SortedByKey(records)
    ensures SortedByKey(Between(records, start, end))
  {
    if records != [] {
      BetweenSorted(records[1..], start, end);
      var rest := Between(records[1..], start, end);
      forall b | 0 <= b < |rest| ensures KeyLe(records[0], rest[b]) {
        assert rest[b] in rest;
        FirstKeyLe(records, rest[b]);
      }
    }
  }

  /** The written records are sorted by security id, then timestamp. */
  lemma CalculatedSorted(data: seq<Snap>, start: int, end: int, windowSize: nat)
    requires windowSize >= 1
    requires Calculated(data, start, end, windowSize).Some?
    ensures SortedByKey(Calculated(data, start, end, windowSize).value)
  {
    var rows := Since(data, start - DAY);
    ConcatenatedSorted(rows, SortedIds(rows), windowSize);
    BetweenSorted(Concatenated(rows, SortedIds(rows), windowSize), start, end);
  }

  // ---------------------------------------------------------------------------
  // The engine
  // ---------------------------------------------------------------------------

  class RollingStdCalculator {
    const windowSize: nat

    constructor (windowSize: nat)
      ensures this.windowSize == windowSize
    {
      this.windowSize := windowSize;
    }

    /**
      `_process_group`: fold one security's rows, in the order given, through
      a fresh deque, emitting a record whenever the deque is full. A window
      size of zero would divide by zero, so it is excluded.
     */
    method ProcessGroup(security: string, rows: seq<Snap>) returns (records: seq<StdevRecord>)
      requires windowSize >= 1
      ensures records == GroupRecords(security, rows, windowSize)
    {
      var window: seq<Triple> := [];
      var sum, sumSq := Zero, Zero;   // (sum_bid, sum_mid, sum_ask) and the sums of squares
      var lastTs: Option<int> := None;
      records := [];
      for i := 0 to |rows|
        invariant Deque(window, sum, sumSq, lastTs) == FoldRows(rows[..i], windowSize)
        invariant records == FoldRecords(security, rows[..i], windowSize)
      {
        var row := rows[i];
        assert rows[..i + 1][..i] == rows[..i];
        // reset on gap
        if lastTs.None? || row.ts - lastTs.value != HOUR {
          window := [];
          sum, sumSq := Zero, Zero;
        }
        // add to window and to the running sums
        window := window + [row.quote];
        sum, sumSq := Plus(sum, row.quote), Plus(sumSq, Squares(row.quote));
        // drop oldest
        if |window| > windowSize {
          var oldest := window[0];
          window := window[1..];
          sum, sumSq := Minus(sum, oldest), Minus(sumSq, Squares(oldest));
        }
        // emit when the window is full
        if |window| == windowSize {
          records := records + [StdevRecord(security, row.ts, RunningVariances(sum, sumSq, windowSize))];
        }
        lastTs := Some(row.ts);
      }
      assert rows[..|rows|] == rows;
      FoldRecordsSpec(security, rows, windowSize);
    }

    /**
      `calculate`: keep the rows from one day before `start` on, group them
      by security in ascending order with each group in timestamp order, run
      each group through `ProcessGroup`, concatenate, and keep the records in
      [start, end]. `None` is the run failing because no group produced a
      record (nothing to concatenate, or no timestamp column to filter on).
     */
    method Calculate(data: seq<Snap>, start: int, end: int) returns (out: Option<seq<StdevRecord>>)
      requires windowSize >= 1
      ensures out == Calculated(data, start, end, windowSize)
    {
      var rows := Since(data, start - DAY);
      var ids := SortedIds(rows);
      var results: seq<StdevRecord> := [];
      for k := 0 to |ids|
        invariant results == Concatenated(rows, ids[..k], windowSize)
      {
        var records := ProcessGroup(ids[k], GroupOf(rows, ids[k]));
        ConcatenatedStep(rows, ids, k, windowSize);
        results := results + records;
      }
      assert ids[..|ids|] == ids;
      if results == [] {
        return None;
      }
      out := Some(Between(results, start, end));
    }
  }
}
