/**
  The naive engine (`stdev_solution.py`): for every security, in id order,
  and every hour of the grid from start to end, take the security's samples
  of the last seven days up to the grid hour; if there are at least `window`
  of them and the last `window` are each one hour apart, emit the population
  variances of those `window` samples for that grid hour.
 */
module Naive {
  import opened Stats
  import opened Common
  import opened Ordering

  /** How far back a grid hour looks: seven days, the lower end excluded. */
  const LOOKBACK: int := 7 * DAY

  // ---------------------------------------------------------------------------
  // The hourly grid
  // ---------------------------------------------------------------------------

  /** The number of grid hours from `start` through `end`. */
  function GridCount(start: int, end: int): nat
  {
    if end < start then 0 else (end - start) / HOUR + 1
  }

  /** `date_range(start, end, freq='h')`: `start`, one hour later, and so on while not after `end`. */
  function Grid(start: int, end: int): (g: seq<int>)
  {
    seq(GridCount(start, end), k requires 0 <= k => start + k * HOUR)
  }

  /** The grid holds exactly the times from `start` through `end` a whole number of hours after `start`. */
  lemma {:induction false} GridMembers(start: int, end: int, t: int)
    ensures t in Grid(start, end) <==> start <= t <= end && (t - start) % HOUR == 0
  {
    var g := Grid(start, end);
    if t in g {
      var k :| 0 <= k < |g| && g[k] == t;
      assert k <= (end - start) / HOUR;
    }
    if start <= t <= end && (t - start) % HOUR == 0 {
      var k := (t - start) / HOUR;
      assert g[k] == t;
    }
  }

  /** Grid hours strictly increase. */
  lemma {:induction false} GridAscending(start: int, end: int)
    ensures forall a, b :: 0 <= a < b < |Grid(start, end)| ==> Grid(start, end)[a] < Grid(start, end)[b]
  {
  }

  // ---------------------------------------------------------------------------
  // One grid hour
  // ---------------------------------------------------------------------------

  /** The samples of the seven days up to and including `snap`, in the group's order. */
  function Lookback(group: seq<Snap>, snap: int): seq<Snap>
  {
    if group == [] then []
    else (if snap - LOOKBACK < group[0].ts <= snap then [group[0]] else []) + Lookback(group[1..], snap)
  }

  /** The lookback holds exactly the samples of the group in `(snap - 7 days, snap]`. */
  lemma {:induction false} LookbackMembers(group: seq<Snap>, snap: int)
    ensures forall r :: r in Lookback(group, snap) <==> r in group && snap - LOOKBACK < r.ts <= snap
    ensures |Lookback(group, snap)| <= |group|
  {
    if group != [] {
      LookbackMembers(group[1..], snap);
      assert group == [group[0]] + group[1..];
    }
  }

  /**
    The statistic for one security at one grid hour: missing when fewer than
    `window` samples fall in the lookback or the last `window` of them are
    not each one hour apart; otherwise the population variances of those
    `window` samples.
   */
  function SnapStat(group: seq<Snap>, snap: int, window: nat): Option<Triple>
    requires window >= 1
  {
    var w := Lookback(group, snap);
    if |w| < window then None
    else
      var last := w[|w| - window..];
      if !HourApart(Times(last)) then None else Some(PopVariances(Quotes(last)))
  }

  /** The lookback of a group in timestamp order is in timestamp order. */
  lemma {:induction false} LookbackSorted(group: seq<Snap>, snap: int)
    requires SortedByTs(group)
    ensures SortedByTs(Lookback(group, snap))
  {
    if group != [] {
      LookbackSorted(group[1..], snap);
      FirstNotAfterLookback(group, snap);
      SortedByTsCons(group[0], Lookback(group[1..], snap));
    }
  }

  /** In a group in timestamp order, the first sample is no later than the lookback of the others. */
  lemma FirstNotAfterLookback(group: seq<Snap>, snap: int)
    requires SortedByTs(group) && group != []
    ensures forall y :: y in Lookback(group[1..], snap) ==> group[0].ts <= y.ts
  {
    LookbackMembers(group[1..], snap);
    forall y | y in Lookback(group[1..], snap) ensures group[0].ts <= y.ts {
      var k :| 0 <= k < |group[1..]| && group[1..][k] == y;
      assert group[k + 1] == y;
    }
  }

  /**
    For a group in timestamp order, the lookback ends at the latest sample
    not after `snap`: the window's last sample is the latest one, whether or
    not it falls on the grid hour itself.
   */
  lemma LookbackLatest(group: seq<Snap>, snap: int)
    requires SortedByTs(group) && Lookback(group, snap) != []
    ensures LatestLast(group, snap, Lookback(group, snap))
  {
    var w := Lookback(group, snap);
    LookbackSorted(group, snap);
    LookbackMembers(group, snap);
    forall r | r in group && r.ts <= snap ensures r.ts <= w[|w| - 1].ts {
      if snap - LOOKBACK < r.ts {
        var k :| 0 <= k < |w| && w[k] == r;
      } else {
        assert w[|w| - 1] in w;
      }
    }
  }

  /** The lookback of two runs of rows is the lookback of the first followed by that of the second. */
  lemma {:induction false} LookbackConcat(a: seq<Snap>, b: seq<Snap>, snap: int)
    ensures Lookback(a + b, snap) == Lookback(a, snap) + Lookback(b, snap)
  {
    if a == [] {
      assert a + b == b;
    } else {
      var head := if snap - LOOKBACK < a[0].ts <= snap then [a[0]] else [];
      calc {
        Lookback(a + b, snap);
        head + Lookback((a + b)[1..], snap);
        { assert (a + b)[1..] == a[1..] + b; }
        head + Lookback(a[1..] + b, snap);
        { LookbackConcat(a[1..], b, snap); }
        head + (Lookback(a[1..], snap) + Lookback(b, snap));
        Lookback(a, snap) + Lookback(b, snap);
      }
    }
  }

  /** Rows all after `snap` contribute nothing. */
  lemma LookbackNone(rows: seq<Snap>, snap: int)
    requires forall r :: r in rows ==> r.ts > snap
    ensures Lookback(rows, snap) == []
  {
    var w := Lookback(rows, snap);
    LookbackMembers(rows, snap);
    assert forall k :: 0 <= k < |w| ==> w[k] in w;
  }

  /** Rows all inside the seven days up to `snap` are all kept. */
  lemma {:induction false} LookbackAll(rows: seq<Snap>, snap: int)
    requires forall r :: r in rows ==> snap - LOOKBACK < r.ts <= snap
    ensures Lookback(rows, snap) == rows
  {
    if rows != [] {
      assert rows[0] in rows;
      assert forall r :: r in rows[1..] ==> r in rows;
      LookbackAll(rows[1..], snap);
      assert rows == [rows[0]] + rows[1..];
    }
  }

  /** Rows in timestamp order none of which is after `snap` keep a suffix of themselves. */
  lemma {:induction false} LookbackSuffix(rows: seq<Snap>, snap: int)
    requires SortedByTs(rows) && forall r :: r in rows ==> r.ts <= snap
    ensures |Lookback(rows, snap)| <= |rows|
    ensures Lookback(rows, snap) == rows[|rows| - |Lookback(rows, snap)|..]
  {
    if rows != [] {
      var tail := rows[1..];
      assert forall r :: r in tail ==> r in rows;
      if snap - LOOKBACK < rows[0].ts {
        forall r | r in rows ensures snap - LOOKBACK < r.ts <= snap {
          var k :| 0 <= k < |rows| && rows[k] == r;
        }
        LookbackAll(rows, snap);
      } else {
        LookbackSuffix(tail, snap);
        assert Lookback(rows, snap) == Lookback(tail, snap);
        var n := |Lookback(tail, snap)|;
        assert tail[|tail| - n..] == rows[|rows| - n..];
      }
    }
  }

  /** No sample of `group` not after `snap` is later than the last of `w`. */
  ghost predicate LatestLast(group: seq<Snap>, snap: int, w: seq<Snap>)
    requires w != []
  {
    forall r :: r in group && r.ts <= snap ==> r.ts <= w[|w| - 1].ts
  }

  /** The records of one security over the grid hours `snaps`, in grid order. */
  function SnapRecords(security: string, group: seq<Snap>, snaps: seq<int>, window: nat): seq<StdevRecord>
    requires window >= 1
  {
    if snaps == [] then []
    else
      var snap := snaps[|snaps| - 1];
      var stat := SnapStat(group, snap, window);
      SnapRecords(security, group, snaps[..|snaps| - 1], window)
        + (if stat.Some? then [StdevRecord(security, snap, stat.value)] else [])
  }

  /** The records of the securities `ids`, in that order, each over the grid hours `snaps`. */
  function Records(data: seq<Snap>, ids: seq<string>, snaps: seq<int>, window: nat): seq<StdevRecord>
    requires window >= 1
  {
    if ids == [] then []
    else
      var id := ids[|ids| - 1];
      Records(data, ids[..|ids| - 1], snaps, window) + SnapRecords(id, GroupOf(data, id), snaps, window)
  }

  /** The records over one more grid hour. */
  lemma {:induction false} SnapRecordsStep(security: string, group: seq<Snap>, snaps: seq<int>, j: nat, window: nat, stat: Option<Triple>)
    requires window >= 1 && j < |snaps| && stat == SnapStat(group, snaps[j], window)
    ensures SnapRecords(security, group, snaps[..j + 1], window)
            == SnapRecords(security, group, snaps[..j], window)
               + (if stat.Some? then [StdevRecord(security, snaps[j], stat.value)] else [])
  {
    assert snaps[..j + 1][..j] == snaps[..j];
  }

  /** The records of one more security. */
  lemma {:induction false} RecordsStep(data: seq<Snap>, ids: seq<string>, k: nat, snaps: seq<int>, window: nat)
    requires window >= 1 && k < |ids|
    ensures Records(data, ids[..k + 1], snaps, window)
            == Records(data, ids[..k], snaps, window) + SnapRecords(ids[k], GroupOf(data, ids[k]), snaps, window)
  {
    assert ids[..k + 1][..k] == ids[..k];
  }

  /** `process`: every security in ascending id order, every grid hour from `start` through `end`. */
  function Processed(data: seq<Snap>, start: int, end: int, window: nat): seq<StdevRecord>
    requires window >= 1
  {
    Records(data, SortedIds(data), Grid(start, end), window)
  }

  /**
    The engine's inner loop, for one security: over the grid hours, append
    a record whenever the grid hour's statistic exists.
   */
  method ScanGrid(security: string, group: seq<Snap>, snaps: seq<int>, window: nat) returns (out: seq<StdevRecord>)
    requires window >= 1
    ensures out == SnapRecords(security, group, snaps, window)
  {
    out := [];
    for j := 0 to |snaps|
      invariant out == SnapRecords(security, group, snaps[..j], window)
    {
      var stat := SnapStat(group, snaps[j], window);
      SnapRecordsStep(security, group, snaps, j, window, stat);
      if stat.Some? {
        out := out + [StdevRecord(security, snaps[j], stat.value)];
      }
    }
    assert snaps[..|snaps|] == snaps;
  }

  /**
    The engine's outer loop: over the securities in `groupby` order, each
    group sorted by timestamp, scanning the grid for each.
   */
  method Process(data: seq<Snap>, start: int, end: int, window: nat) returns (results: seq<StdevRecord>)
    requires window >= 1
    ensures results == Processed(data, start, end, window)
  {
    var snaps := Grid(start, end);
    var ids := SortedIds(data);
    results := [];
    for k := 0 to |ids|
      invariant results == Records(data, ids[..k], snaps, window)
    {
      var group := GroupOf(data, ids[k]);
      var found := ScanGrid(ids[k], group, snaps, window);
      results := results + found;
      RecordsStep(data, ids, k, snaps, window);
    }
    assert ids[..|ids|] == ids;
  }

  // ---------------------------------------------------------------------------
  // What the records are
  // ---------------------------------------------------------------------------

  /** `r` is the record of its security at its grid hour: the statistic exists there and `r` carries it. */
  ghost predicate StatRecord(security: string, group: seq<Snap>, window: nat, r: StdevRecord)
  {
    && window >= 1
    && r.security == security
    && SnapStat(group, r.ts, window) == Some(r.variance)
  }

  /** Every record of one security is at one of the grid hours and carries the statistic there. */
  lemma {:induction false} SnapRecordsSound(security: string, group: seq<Snap>, snaps: seq<int>, window: nat, r: StdevRecord)
    requires window >= 1 && r in SnapRecords(security, group, snaps, window)
    ensures r.ts in snaps && StatRecord(security, group, window, r)
  {
    var n := |snaps|;
    var stat := SnapStat(group, snaps[n - 1], window);
    SnapRecordsStep(security, group, snaps, n - 1, window, stat);
    assert snaps[..n] == snaps;
    if r in SnapRecords(security, group, snaps[..n - 1], window) {
      SnapRecordsSound(security, group, snaps[..n - 1], window, r);
    } else {
      assert r == StdevRecord(security, snaps[n - 1], stat.value);
    }
  }

  /** The records over some first grid hours are among the records over all of them. */
  lemma {:induction false} SnapRecordsPrefix(security: string, group: seq<Snap>, snaps: seq<int>, m: nat, window: nat, r: StdevRecord)
    requires window >= 1 && m <= |snaps| && r in SnapRecords(security, group, snaps[..m], window)
    ensures r in SnapRecords(security, group, snaps, window)
    decreases |snaps| - m
  {
    if m == |snaps| {
      assert snaps[..m] == snaps;
    } else {
      SnapRecordsStep(security, group, snaps, m, window, SnapStat(group, snaps[m], window));
      SnapRecordsPrefix(security, group, snaps, m + 1, window, r);
    }
  }

  /** Every grid hour at which the statistic exists has its record. */
  lemma {:induction false} SnapRecordsComplete(security: string, group: seq<Snap>, snaps: seq<int>, window: nat, r: StdevRecord)
    requires r.ts in snaps && StatRecord(security, group, window, r)
    ensures r in SnapRecords(security, group, snaps, window)
  {
    var j :| 0 <= j < |snaps| && snaps[j] == r.ts;
    SnapRecordsStep(security, group, snaps, j, window, Some(r.variance));
    SnapRecordsPrefix(security, group, snaps, j + 1, window, r);
  }

  /** Every record comes from one of the ids and is a record of that id's group. */
  lemma {:induction false} RecordsSound(data: seq<Snap>, ids: seq<string>, snaps: seq<int>, window: nat, r: StdevRecord)
    requires window >= 1 && r in Records(data, ids, snaps, window)
    ensures r.security in ids && r in SnapRecords(r.security, GroupOf(data, r.security), snaps, window)
  {
    var n := |ids|;
    RecordsStep(data, ids, n - 1, snaps, window);
    assert ids[..n] == ids;
    var id := ids[n - 1];
    if r in Records(data, ids[..n - 1], snaps, window) {
      RecordsSound(data, ids[..n - 1], snaps, window, r);
    } else {
      SnapRecordsSound(id, GroupOf(data, id), snaps, window, r);
    }
  }

  /** The records of some first ids are among the records of all of them. */
  lemma {:induction false} RecordsPrefix(data: seq<Snap>, ids: seq<string>, m: nat, snaps: seq<int>, window: nat, r: StdevRecord)
    requires window >= 1 && m <= |ids| && r in Records(data, ids[..m], snaps, window)
    ensures r in Records(data, ids, snaps, window)
    decreases |ids| - m
  {
    if m == |ids| {
      assert ids[..m] == ids;
    } else {
      RecordsStep(data, ids, m, snaps, window);
      RecordsPrefix(data, ids, m + 1, snaps, window, r);
    }
  }

  /** Every record of an id's group is among the records. */
  lemma {:induction false} RecordsComplete(data: seq<Snap>, ids: seq<string>, snaps: seq<int>, window: nat, r: StdevRecord)
    requires window >= 1 && r.security in ids
    requires r in SnapRecords(r.security, GroupOf(data, r.security), snaps, window)
    ensures r in Records(data, ids, snaps, window)
  {
    var k :| 0 <= k < |ids| && ids[k] == r.security;
    RecordsStep(data, ids, k, snaps, window);
    RecordsPrefix(data, ids, k + 1, snaps, window, r);
  }

  /**
    A record is in the output exactly when its security has rows, its time
    is an hour of the grid from `start` through `end`, and the statistic of
    that security at that hour exists and is the record's.
   */
  lemma {:induction false} ProcessedMembers(data: seq<Snap>, start: int, end: int, window: nat, r: StdevRecord)
    requires window >= 1
    ensures r in Processed(data, start, end, window) <==>
              && (exists row :: row in data && row.security == r.security)
              && start <= r.ts <= end && (r.ts - start) % HOUR == 0
              && SnapStat(GroupOf(data, r.security), r.ts, window) == Some(r.variance)
  {
    var ids, snaps := SortedIds(data), Grid(start, end);
    var group := GroupOf(data, r.security);
    GridMembers(start, end, r.ts);
    if r in Processed(data, start, end, window) {
      RecordsSound(data, ids, snaps, window, r);
      SnapRecordsSound(r.security, group, snaps, window, r);
    }
    if && (exists row :: row in data && row.security == r.security)
       && r.ts in snaps && SnapStat(group, r.ts, window) == Some(r.variance) {
      SnapRecordsComplete(r.security, group, snaps, window, r);
      RecordsComplete(data, ids, snaps, window, r);
    }
  }

  // ---------------------------------------------------------------------------
  // Order of the records
  // ---------------------------------------------------------------------------

  /** `x` sorts strictly before `y` by security id, then time. */
  ghost predicate KeyLt(x: StdevRecord, y: StdevRecord)
  {
    StrLt(x.security, y.security) || (x.security == y.security && x.ts < y.ts)
  }

  ghost predicate StrictlyByKey(records: seq<StdevRecord>)
  {
    forall a, b :: 0 <= a < b < |records| ==> KeyLt(records[a], records[b])
  }

  ghost predicate StrictlyIncreasing(snaps: seq<int>)
  {
    forall a, b :: 0 <= a < b < |snaps| ==> snaps[a] < snaps[b]
  }

  /** Over strictly increasing grid hours, one security's records are strictly increasing in time. */
  lemma {:induction false} SnapRecordsIncreasing(security: string, group: seq<Snap>, snaps: seq<int>, window: nat)
    requires window >= 1 && StrictlyIncreasing(snaps)
    ensures StrictlyByKey(SnapRecords(security, group, snaps, window))
  {
    var n := |snaps|;
    if n > 0 {
      var init := snaps[..n - 1];
      var stat := SnapStat(group, snaps[n - 1], window);
      SnapRecordsStep(security, group, snaps, n - 1, window, stat);
      assert snaps[..n] == snaps;
      SnapRecordsIncreasing(security, group, init, window);
      var prev := SnapRecords(security, group, init, window);
      forall x | x in prev ensures x.security == security && x.ts < snaps[n - 1] {
        SnapRecordsSound(security, group, init, window, x);
      }
      if stat.Some? {
        AppendAbove(prev, StdevRecord(security, snaps[n - 1], stat.value));
      }
    }
  }

  /** Appending a record above every earlier one keeps the records strictly in key order. */
  lemma {:induction false} AppendAbove(prev: seq<StdevRecord>, x: StdevRecord)
    requires StrictlyByKey(prev) && forall y :: y in prev ==> KeyLt(y, x)
    ensures StrictlyByKey(prev + [x])
  {
    var all := prev + [x];
    forall a, b | 0 <= a < b < |all| ensures KeyLt(all[a], all[b]) {
      if b == |prev| {
        assert all[a] == prev[a] && prev[a] in prev;
      }
    }
  }

  /** Appending a block of a security above every earlier security keeps the records strictly in key order. */
  lemma {:induction false} AppendBlock(prev: seq<StdevRecord>, block: seq<StdevRecord>, id: string)
    requires StrictlyByKey(prev) && StrictlyByKey(block)
    requires forall y :: y in prev ==> StrLt(y.security, id)
    requires forall y :: y in block ==> y.security == id
    ensures StrictlyByKey(prev + block)
  {
    var all := prev + block;
    forall a, b | 0 <= a < b < |all| ensures KeyLt(all[a], all[b]) {
      if b >= |prev| {
        assert all[b] == block[b - |prev|] && block[b - |prev|] in block;
        if a < |prev| {
          assert all[a] == prev[a] && prev[a] in prev;
        }
      }
    }
  }

  /** Over ascending ids and strictly increasing hours, the records are strictly in key order. */
  lemma {:induction false} RecordsIncreasing(data: seq<Snap>, ids: seq<string>, snaps: seq<int>, window: nat)
    requires window >= 1 && StrictlyAscending(ids) && StrictlyIncreasing(snaps)
    ensures StrictlyByKey(Records(data, ids, snaps, window))
  {
    var n := |ids|;
    if n > 0 {
      var init, id := ids[..n - 1], ids[n - 1];
      assert init + [id] == ids;
      AscendingInit(init, id);
      RecordsStep(data, ids, n - 1, snaps, window);
      assert ids[..n] == ids;
      RecordsIncreasing(data, init, snaps, window);
      SnapRecordsIncreasing(id, GroupOf(data, id), snaps, window);
      var prev, block := Records(data, init, snaps, window), SnapRecords(id, GroupOf(data, id), snaps, window);
      forall y | y in prev ensures StrLt(y.security, id) {
        RecordsSound(data, init, snaps, window, y);
      }
      forall y | y in block ensures y.security == id {
        SnapRecordsSound(id, GroupOf(data, id), snaps, window, y);
      }
      AppendBlock(prev, block, id);
    }
  }

  /**
    The output is grouped by security in ascending id order and, within a
    security, strictly ascending in time: so there is at most one record
    per (security, grid hour).
   */
  lemma {:induction false} ProcessedOrder(data: seq<Snap>, start: int, end: int, window: nat)
    requires window >= 1
    ensures StrictlyByKey(Processed(data, start, end, window))
    ensures forall a, b :: 0 <= a < b < |Processed(data, start, end, window)| ==>
              Processed(data, start, end, window)[a].security != Processed(data, start, end, window)[b].security
              || Processed(data, start, end, window)[a].ts != Processed(data, start, end, window)[b].ts
  {
    GridAscending(start, end);
    RecordsIncreasing(data, SortedIds(data), Grid(start, end), window);
    var out := Processed(data, start, end, window);
    forall a, b | 0 <= a < b < |out| ensures out[a].security != out[b].security || out[a].ts != out[b].ts {
      if out[a].security == out[b].security {
        StrLtIrreflexive(out[a].security);
      }
    }
  }

  /**
    A record can fall on a grid hour at which the security has no sample:
    two hour-apart samples at `t - 1h` and `t` already give a window of two
    at the grid hour `t + 1h`.
   */
  lemma {:induction false} RecordWithoutOwnSample(security: string, t: int, q1: Triple, q2: Triple)
    ensures var group := [Snap(security, t - HOUR, q1), Snap(security, t, q2)];
      && SnapStat(group, t + HOUR, 2) == Some(PopVariances([q1, q2]))
      && forall r :: r in group ==> r.ts != t + HOUR
  {
    var group := [Snap(security, t - HOUR, q1), Snap(security, t, q2)];
    assert Lookback(group[1..], t + HOUR) == [group[1]];
    assert Lookback(group, t + HOUR) == group;
    assert Quotes(group) == [q1, q2];
  }
}
