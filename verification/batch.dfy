/**
  The vectorised engine (`stdev_solution_b.py`): per security, a gap flag
  marks every row that is not exactly one hour after the previous row of the
  same security, block ids are the running sum of the flags, a 20-row rolling
  sample variance is taken inside each (security, block), and every snap in
  [start, end] picks up the latest value of its security at most seven days
  old (a backward as-of join).

  Each per-row column is a function of the row's history: the rows of its
  security up to and including it, in frame order.
 */
module Batch {
  import opened Stats
  import opened Common
  import opened Ordering

  /** The rolling window length and the as-of tolerance, fixed in the source. */
  const ROLLING: nat := 20
  const TOLERANCE: int := 7 * DAY

  // ---------------------------------------------------------------------------
  // Columns of one security's history
  // ---------------------------------------------------------------------------

  /** `gap`: 1 on the security's first row (no previous timestamp) or when the step from the previous row is not one hour. */
  function GapFlag(h: seq<Snap>): nat
    requires h != []
  {
    if |h| == 1 || h[|h| - 1].ts - h[|h| - 2].ts != HOUR then 1 else 0
  }

  /** `block`: the running sum of the gap flags. */
  function BlockId(h: seq<Snap>): nat
    requires h != []
  {
    (if |h| == 1 then 0 else BlockId(h[..|h| - 1])) + GapFlag(h)
  }

  /** The rows of `h` whose own block id is `b`, in order: one (security, block) group. */
  function BlockRows(h: seq<Snap>, b: nat): seq<Snap>
  {
    if h == [] then []
    else BlockRows(h[..|h| - 1], b) + (if BlockId(h) == b then [h[|h| - 1]] else [])
  }

  /** The rows of the last row's block up to and including it. */
  function BlockMates(h: seq<Snap>): seq<Snap>
    requires h != []
  {
    BlockRows(h, BlockId(h))
  }

  /**
    `rolling(window=20, min_periods=20).std()` inside the block, before the
    square root: the sample variances of the last 20 block rows, or missing
    while the block has fewer than 20 rows.
   */
  function Rolling(h: seq<Snap>): Option<Triple>
    requires h != []
  {
    var m := BlockMates(h);
    if |m| >= ROLLING then Some(SampleVariances(Quotes(m[|m| - ROLLING..]))) else None
  }

  // ---------------------------------------------------------------------------
  // Properties of the columns
  // ---------------------------------------------------------------------------

  /** Block ids start at 1 and never decrease along the history. */
  lemma {:induction false} BlockIdGrows(h: seq<Snap>, k: nat)
    requires 1 <= k <= |h|
    ensures BlockId(h[..1]) == 1
    ensures 1 <= BlockId(h[..k]) <= BlockId(h)
  {
    if k < |h| {
      var init := h[..|h| - 1];
      BlockIdGrows(init, k);
      assert init[..k] == h[..k] && init[..1] == h[..1];
    } else {
      assert h[..k] == h;
      if |h| > 1 {
        BlockIdGrows(h[..|h| - 1], 1);
        assert h[..|h| - 1][..1] == h[..1];
      }
    }
  }

  /** No row of the history has a block id above the last row's. */
  lemma {:induction false} BlockRowsAbove(h: seq<Snap>, b: nat)
    requires h != [] && b > BlockId(h)
    ensures BlockRows(h, b) == []
  {
    if |h| > 1 {
      var init := h[..|h| - 1];
      BlockIdGrows(h, |h| - 1);
      assert h[..|h| - 1] == init;
      BlockRowsAbove(init, b);
    }
  }

  /** A row that starts a new block is alone in it, and alone in its run. */
  lemma BlockMatesGap(h: seq<Snap>)
    requires h != [] && GapFlag(h) == 1
    ensures BlockMates(h) == [h[|h| - 1]] && TrailingRun(h) == 1
  {
    var n := |h|;
    var init := h[..n - 1];
    assert BlockRows(h, BlockId(h)) == BlockRows(init, BlockId(h)) + [h[n - 1]];
    if n > 1 {
      BlockRowsAbove(init, BlockId(h));
    }
  }

  /** A row one hour after the previous one joins its block, and extends its run. */
  lemma BlockMatesLinked(h: seq<Snap>)
    requires h != [] && GapFlag(h) == 0
    ensures |h| > 1
    ensures BlockMates(h) == BlockMates(h[..|h| - 1]) + [h[|h| - 1]]
    ensures TrailingRun(h) == TrailingRun(h[..|h| - 1]) + 1
  {
    var n := |h|;
    var init := h[..n - 1];
    assert BlockId(h) == BlockId(init);
    assert BlockRows(h, BlockId(h)) == BlockRows(init, BlockId(h)) + [h[n - 1]];
  }

  /** The last `k + 1` rows are the last `k` rows before the last one, then the last one. */
  lemma SuffixExtend(h: seq<Snap>, k: nat)
    requires k < |h|
    ensures h[|h| - (k + 1)..] == h[..|h| - 1][|h| - 1 - k..] + [h[|h| - 1]]
  {
  }

  /**
    The block of the last row is exactly the trailing hour-apart run: the
    flags start a new block precisely where a run breaks.
   */
  lemma {:induction false} BlockMatesRun(h: seq<Snap>)
    requires h != []
    ensures BlockMates(h) == h[|h| - TrailingRun(h)..]
  {
    var n := |h|;
    if GapFlag(h) == 1 {
      BlockMatesGap(h);
      assert h[n - 1..] == [h[n - 1]];
    } else {
      var init := h[..n - 1];
      BlockMatesLinked(h);
      BlockMatesRun(init);
      SuffixExtend(h, TrailingRun(init));
    }
  }

  /** Within one block consecutive timestamps are one hour apart. */
  lemma BlockHourApart(h: seq<Snap>)
    requires h != []
    ensures HourApart(Times(BlockMates(h)))
  {
    BlockMatesRun(h);
    TrailingRunLinked(h, TrailingRun(h));
    LinkedHourApart(h, |h| - TrailingRun(h));
  }

  lemma {:induction false} RollingSpec(h: seq<Snap>)
    requires h != []
    ensures Rolling(h).Some? <==> TrailingRun(h) >= ROLLING
    ensures Rolling(h).Some? ==> Rolling(h).value == SampleVariances(Quotes(h[|h| - ROLLING..]))
  {
    var m := BlockMates(h);
    BlockMatesRun(h);
    if |m| >= ROLLING {
      SuffixOfSuffix(h, |h| - TrailingRun(h), ROLLING);
    }
  }

  // ---------------------------------------------------------------------------
  // The frame
  // ---------------------------------------------------------------------------

  /** The history of frame row `i`: the rows of its security up to and including it. */
  function History(frame: seq<Snap>, i: nat): (h: seq<Snap>)
    requires i < |frame|
    ensures h != [] && h[|h| - 1] == frame[i]
    ensures forall r :: r in h ==> r.security == frame[i].security
  {
    RowsOfLast(frame[..i + 1], frame[i].security);
    RowsOf(frame[..i + 1], frame[i].security)
  }

  /** Picking one security's rows out of a frame ending in a row of that security ends in that row. */
  lemma RowsOfLast(rows: seq<Snap>, security: string)
    requires rows != [] && rows[|rows| - 1].security == security
    ensures RowsOf(rows, security) != [] && RowsOf(rows, security)[|RowsOf(rows, security)| - 1] == rows[|rows| - 1]
  {
    var n := |rows|;
    assert rows == rows[..n - 1] + [rows[n - 1]];
    RowsOfAppend(rows[..n - 1], rows[n - 1], security);
  }

  /**
    The table of valid values (`stdev_df`): one record per frame row whose
    rolling value exists, in frame order. `drop_duplicates` removes only
    identical records, which the as-of lookup below cannot tell apart.
   */
  function StdevTable(frame: seq<Snap>): (table: seq<StdevRecord>)
    ensures |table| <= |frame|
  {
    if frame == [] then []
    else
      var i := |frame| - 1;
      var v := Rolling(History(frame, i));
      StdevTableStable(frame);
      StdevTable(frame[..i]) + (if v.Some? then [StdevRecord(frame[i].security, frame[i].ts, v.value)] else [])
  }

  /** A row's history, and so its values, does not depend on the rows after it. */
  lemma {:induction false} StdevTableStable(frame: seq<Snap>)
    requires frame != []
    ensures forall i :: 0 <= i < |frame| - 1 ==> History(frame[..|frame| - 1], i) == History(frame, i)
  {
    forall i | 0 <= i < |frame| - 1 ensures History(frame[..|frame| - 1], i) == History(frame, i) {
      assert frame[..|frame| - 1][..i + 1] == frame[..i + 1];
    }
  }

  /** `r` is frame row `i`'s security and timestamp with that row's rolling value. */
  ghost predicate TableRow(frame: seq<Snap>, i: int, r: StdevRecord)
  {
    && 0 <= i < |frame|
    && Rolling(History(frame, i)) == Some(r.variance)
    && r.security == frame[i].security && r.ts == frame[i].ts
  }

  /** The table of a frame is the table of all but its last row, plus that row's record if it has a value. */
  lemma {:induction false} StdevTableStep(frame: seq<Snap>, v: Option<Triple>)
    requires frame != [] && v == Rolling(History(frame, |frame| - 1))
    ensures StdevTable(frame) == StdevTable(frame[..|frame| - 1])
              + (if v.Some? then [StdevRecord(frame[|frame| - 1].security, frame[|frame| - 1].ts, v.value)] else [])
  {
  }

  /** Every record of the table comes from some frame row. */
  lemma {:induction false} StdevTableSound(frame: seq<Snap>, r: StdevRecord)
    requires r in StdevTable(frame)
    ensures exists i :: TableRow(frame, i, r)
  {
    var n := |frame|;
    var init := frame[..n - 1];
    var v := Rolling(History(frame, n - 1));
    StdevTableStep(frame, v);
    if r in StdevTable(init) {
      StdevTableSound(init, r);
      var i :| TableRow(init, i, r);
      TableRowInit(frame, i, r);
    } else {
      assert TableRow(frame, n - 1, r);
    }
  }

  /** A row's record does not depend on the rows after it. */
  lemma {:induction false} TableRowInit(frame: seq<Snap>, i: int, r: StdevRecord)
    requires frame != [] && i < |frame| - 1
    ensures TableRow(frame, i, r) <==> TableRow(frame[..|frame| - 1], i, r)
  {
    StdevTableStable(frame);
  }

  /** The last frame row's record, when it has one, is in the table. */
  lemma {:induction false} StdevTableLast(frame: seq<Snap>, r: StdevRecord)
    requires TableRow(frame, |frame| - 1, r)
    ensures r in StdevTable(frame)
  {
    var n := |frame|;
    var v := Rolling(History(frame, n - 1));
    StdevTableStep(frame, v);
    assert r == StdevRecord(frame[n - 1].security, frame[n - 1].ts, v.value);
  }

  /** A record of the table without the last row stays in the table. */
  lemma {:induction false} StdevTableKeeps(frame: seq<Snap>, r: StdevRecord)
    requires frame != [] && r in StdevTable(frame[..|frame| - 1])
    ensures r in StdevTable(frame)
  {
    StdevTableStep(frame, Rolling(History(frame, |frame| - 1)));
  }

  /** The table of a prefix of the frame is kept in the table of the frame. */
  lemma {:induction false} StdevTablePrefix(frame: seq<Snap>, m: nat, r: StdevRecord)
    requires m <= |frame| && r in StdevTable(frame[..m])
    ensures r in StdevTable(frame)
    decreases |frame|
  {
    if m == |frame| {
      assert frame[..m] == frame;
    } else {
      var init := frame[..|frame| - 1];
      assert init[..m] == frame[..m];
      StdevTablePrefix(init, m, r);
      StdevTableKeeps(frame, r);
    }
  }

  /** Every frame row with a rolling value has its record in the table. */
  lemma StdevTableComplete(frame: seq<Snap>, i: int, r: StdevRecord)
    requires TableRow(frame, i, r)
    ensures r in StdevTable(frame)
  {
    var pre := frame[..i + 1];
    assert pre[..i + 1] == frame[..i + 1];
    assert TableRow(pre, |pre| - 1, r);
    StdevTableLast(pre, r);
    StdevTablePrefix(frame, i + 1, r);
  }

  /** The table holds exactly the records of the frame rows whose rolling value exists. */
  lemma {:induction false} StdevTableMembers(frame: seq<Snap>, r: StdevRecord)
    ensures r in StdevTable(frame) <==> exists i :: TableRow(frame, i, r)
  {
    if r in StdevTable(frame) {
      StdevTableSound(frame, r);
    }
    if exists i :: TableRow(frame, i, r) {
      var i :| TableRow(frame, i, r);
      StdevTableComplete(frame, i, r);
    }
  }

  /** Row `j` is the last row of row `i`'s security before it. */
  ghost predicate PreviousOfSame(frame: seq<Snap>, j: int, i: int)
  {
    && 0 <= j < i < |frame|
    && frame[j].security == frame[i].security
    && forall k :: j < k < i ==> frame[k].security != frame[i].security
  }

  /** The first row of a security has only itself as history: its gap flag is 1 and its block id 1. */
  lemma HistoryFirst(frame: seq<Snap>, i: int)
    requires 0 <= i < |frame|
    requires forall k :: 0 <= k < i ==> frame[k].security != frame[i].security
    ensures History(frame, i) == [frame[i]]
    ensures GapFlag(History(frame, i)) == 1 && BlockId(History(frame, i)) == 1
  {
    var s := frame[i].security;
    assert frame[..i + 1] == frame[..i] + [frame[i]];
    RowsOfAppend(frame[..i], frame[i], s);
    RowsOfAbsent(frame[..i], s);
  }

  /** Rows of other securities between two rows of `security` leave no trace in its rows. */
  lemma RowsOfSkip(before: seq<Snap>, mid: seq<Snap>, x: Snap, security: string)
    requires x.security == security
    requires forall r :: r in mid ==> r.security != security
    ensures RowsOf(before + mid + [x], security) == RowsOf(before, security) + [x]
  {
    RowsOfConcat(before + mid, [x], security);
    RowsOfConcat(before, mid, security);
    RowsOfAbsent(mid, security);
    assert RowsOf([x], security) == [x] + RowsOf([], security);
  }

  /** A later row's history is the history of the previous row of its security, plus itself. */
  lemma HistoryNextRows(frame: seq<Snap>, j: int, i: int)
    requires PreviousOfSame(frame, j, i)
    ensures History(frame, i) == History(frame, j) + [frame[i]]
  {
    var mid := frame[j + 1..i];
    assert frame[..i + 1] == frame[..j + 1] + mid + [frame[i]];
    assert forall r :: r in mid ==> r.security != frame[i].security;
    RowsOfSkip(frame[..j + 1], mid, frame[i], frame[i].security);
  }

  /**
    A later row's gap flag is 1 exactly when it is not one hour after the
    previous row of its security, and its block id is that row's plus its
    gap flag.
   */
  lemma HistoryNext(frame: seq<Snap>, j: int, i: int)
    requires PreviousOfSame(frame, j, i)
    ensures GapFlag(History(frame, i)) == if frame[i].ts - frame[j].ts == HOUR then 0 else 1
    ensures BlockId(History(frame, i)) == BlockId(History(frame, j)) + GapFlag(History(frame, i))
  {
    HistoryNextRows(frame, j, i);
    var h := History(frame, i);
    assert h[..|h| - 1] == History(frame, j);
  }

  /** No two rows of the frame share both security and timestamp. */
  ghost predicate UniqueKeys(frame: seq<Snap>)
  {
    forall a, b :: 0 <= a < |frame| && 0 <= b < |frame| && frame[a].security == frame[b].security && frame[a].ts == frame[b].ts ==> a == b
  }

  /** `rec` is a candidate for a snap of `security` at `t`: same security, not after `t`. */
  predicate Candidate(rec: StdevRecord, security: string, t: int)
  {
    rec.security == security && rec.ts <= t
  }

  /** The latest candidate of the table; among equal timestamps, the last one in table order. */
  function Latest(table: seq<StdevRecord>, security: string, t: int): (best: Option<StdevRecord>)
    ensures best.Some? ==> best.value in table && Candidate(best.value, security, t)
    ensures best.Some? ==> forall rec :: rec in table && Candidate(rec, security, t) ==> rec.ts <= best.value.ts
    ensures best.None? ==> forall rec :: rec in table ==> !Candidate(rec, security, t)
  {
    if table == [] then None
    else
      var last := table[|table| - 1];
      var best := Latest(table[..|table| - 1], security, t);
      assert table == table[..|table| - 1] + [last];
      if Candidate(last, security, t) && (best.None? || best.value.ts <= last.ts) then Some(last) else best
  }

  /**
    `merge_asof(direction='backward', tolerance=7 days)`: the values of the
    latest candidate, or missing when there is none or it is more than seven
    days older than the snap.
   */
  function AsOf(table: seq<StdevRecord>, security: string, t: int): Option<Triple>
  {
    var best := Latest(table, security, t);
    if best.Some? && t - best.value.ts <= TOLERANCE then Some(best.value.variance) else None
  }

  /**
    The as-of lookup in both directions: a value is found exactly when some
    candidate is at most seven days old, and it is then the value of a
    candidate no other candidate is later than.
   */
  lemma AsOfSpec(table: seq<StdevRecord>, security: string, t: int)
    ensures AsOf(table, security, t).Some? <==>
              exists rec :: rec in table && Candidate(rec, security, t) && t - rec.ts <= TOLERANCE
    ensures AsOf(table, security, t).Some? ==>
              exists rec :: && rec in table && Candidate(rec, security, t) && t - rec.ts <= TOLERANCE
                            && rec.variance == AsOf(table, security, t).value
                            && forall other :: other in table && Candidate(other, security, t) ==> other.ts <= rec.ts
  {
    var best := Latest(table, security, t);
    if exists rec :: rec in table && Candidate(rec, security, t) && t - rec.ts <= TOLERANCE {
      var rec :| rec in table && Candidate(rec, security, t) && t - rec.ts <= TOLERANCE;
      assert rec.ts <= best.value.ts;
    }
  }

  /**
    A snap whose own row completes a 20-row block window receives its own
    values: the backward lookup includes an equal timestamp. This needs the
    frame to have one row per (security, timestamp); otherwise a duplicate
    key's record may be picked instead.
   */
  lemma OwnValues(frame: seq<Snap>, i: int)
    requires UniqueKeys(frame) && 0 <= i < |frame|
    requires Rolling(History(frame, i)).Some?
    ensures AsOf(StdevTable(frame), frame[i].security, frame[i].ts) == Rolling(History(frame, i))
  {
    var table, s, t := StdevTable(frame), frame[i].security, frame[i].ts;
    var v := Rolling(History(frame, i)).value;
    var r := StdevRecord(s, t, v);
    StdevTableComplete(frame, i, r);
    var latest := Latest(table, s, t);
    assert Candidate(r, s, t);
    assert latest.Some?;
    var best := latest.value;
    assert r.ts <= best.ts;
    StdevTableSound(frame, best);
    var k :| TableRow(frame, k, best);
    assert k == i;
  }

  /** One output row: a snap's security and timestamp with the values it picked up, if any. */
  datatype AsOfRow = AsOfRow(security: string, ts: int, variance: Option<Triple>)

  /** The snaps inside the closed interval [start, end], in frame order. */
  function Within(frame: seq<Snap>, start: int, end: int): (w: seq<Snap>)
    ensures multiset(w) <= multiset(frame)
    ensures forall r :: r in w <==> r in frame && start <= r.ts <= end
    ensures forall r :: multiset(w)[r] == if start <= r.ts <= end then multiset(frame)[r] else 0
  {
    if frame == [] then []
    else
      var rest := Within(frame[1..], start, end);
      assert frame == [frame[0]] + frame[1..];
      if start <= frame[0].ts <= end then [frame[0]] + rest else rest
  }

  /**
    `process`: every snap in [start, end], ordered by security and then
    timestamp, with the values the as-of join gives it.
   */
  function Process(frame: seq<Snap>, start: int, end: int): (out: seq<AsOfRow>)
  {
    var table := StdevTable(frame);
    var snaps := ByKey(Within(frame, start, end));
    seq(|snaps|, k requires 0 <= k < |snaps| => AsOfRow(snaps[k].security, snaps[k].ts, AsOf(table, snaps[k].security, snaps[k].ts)))
  }

  /**
    The output has one row per snap in [start, end]: its rows are, in order,
    a permutation of those snaps, each carrying its snap's security and
    timestamp and the as-of value for them, and they are sorted by security,
    then timestamp.
   */
  lemma ProcessSpec(frame: seq<Snap>, start: int, end: int)
    ensures var out, snaps := Process(frame, start, end), ByKey(Within(frame, start, end));
      && multiset(snaps) == multiset(Within(frame, start, end))
      && |out| == |snaps|
      && (forall k :: 0 <= k < |out| ==>
            out[k] == AsOfRow(snaps[k].security, snaps[k].ts, AsOf(StdevTable(frame), snaps[k].security, snaps[k].ts)))
      && (forall a, b :: 0 <= a < b < |out| ==> SnapKeyLe(snaps[a], snaps[b]))
  {
    var snaps := ByKey(Within(frame, start, end));
    ByKeySpec(Within(frame, start, end));
  }
}
