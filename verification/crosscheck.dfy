/**
  How the three standard-deviation engines relate. They are not
  interchangeable: the batch engine divides by n - 1 where the incremental
  and naive engines divide by n, and the naive engine answers at grid hours
  where the others answer at sample times. At a sample time, though, they
  look at the same rows.
 */
module CrossCheck {
  import opened Stats
  import opened Common
  import opened Ordering
  import Incremental
  import Batch
  import Naive

  /** Field by field, `v` times n - 1 equals `p` times n. */
  predicate Rescaled(v: Triple, p: Triple, n: nat)
  {
    var k, m := (n - 1) as real, n as real;
    v.bid * k == p.bid * m && v.mid * k == p.mid * m && v.ask * k == p.ask * m
  }

  /**
    Where the batch engine has a value for the last row of a history, the
    incremental engine (window 20) emits a record for the same row over the
    same 20 rows, and the batch value is that record's variance rescaled by
    20 / 19: the two never agree unless the window is constant.
   */
  lemma BatchAgainstIncremental(security: string, h: seq<Snap>)
    requires h != []
    ensures Batch.Rolling(h).Some? <==> TrailingRun(h) >= Batch.ROLLING
    ensures Batch.Rolling(h).Some? ==>
              Rescaled(Batch.Rolling(h).value, Incremental.RecordAt(security, h, Batch.ROLLING).variance, Batch.ROLLING)
  {
    Batch.RollingSpec(h);
    if Batch.Rolling(h).Some? {
      var q := Quotes(h[|h| - Batch.ROLLING..]);
      RescaledTriple(q);
      RecordVariance(security, h, Batch.ROLLING);
    }
  }

  /**
    The batch value and the incremental record of the same 20 rows are equal
    exactly when the record's variances are all zero: over any window whose
    values are not constant the two engines disagree.
   */
  lemma AgreeOnlyWhenFlat(security: string, h: seq<Snap>)
    requires h != [] && TrailingRun(h) >= Batch.ROLLING && Batch.Rolling(h).Some?
    ensures Batch.Rolling(h).value == Incremental.RecordAt(security, h, Batch.ROLLING).variance
            <==> Incremental.RecordAt(security, h, Batch.ROLLING).variance == Triple(0.0, 0.0, 0.0)
  {
    BatchAgainstIncremental(security, h);
    RescaledEqual(Batch.Rolling(h).value, Incremental.RecordAt(security, h, Batch.ROLLING).variance, Batch.ROLLING);
  }

  /** A rescaling by n / (n - 1) leaves a triple unchanged only when it is zero. */
  lemma RescaledEqual(v: Triple, p: Triple, n: nat)
    requires n >= 2 && Rescaled(v, p, n)
    ensures v == p <==> p == Triple(0.0, 0.0, 0.0)
  {
    var k, m := (n - 1) as real, n as real;
    assert m == k + 1.0;
    if v == p {
      assert p.bid * k == p.bid * k + p.bid;
      assert p.mid * k == p.mid * k + p.mid;
      assert p.ask * k == p.ask * k + p.ask;
    }
  }

  /** Field by field, the sample variances are the population variances rescaled by n / (n - 1). */
  lemma RescaledTriple(q: seq<Triple>)
    requires |q| >= 2
    ensures Rescaled(SampleVariances(q), PopVariances(q), |q|)
  {
    SampleVarianceScaled(Bids(q));
    SampleVarianceScaled(Mids(q));
    SampleVarianceScaled(Asks(q));
  }

  /** Timestamps strictly increase along `rows`. */
  ghost predicate TsIncreasing(rows: seq<Snap>)
  {
    forall a, b :: 0 <= a < b < |rows| ==> rows[a].ts < rows[b].ts
  }

  /**
    At the timestamp of one of its own samples, and for a window of at most
    seven days of hours, the naive engine gives a value exactly when the
    incremental engine emits a record for that sample, and the value is that
    record's variance.
   */
  lemma NaiveAgainstIncremental(security: string, group: seq<Snap>, i: nat, window: nat)
    requires TsIncreasing(group) && i < |group|
    requires 1 <= window && (window - 1) * HOUR < Naive.LOOKBACK
    ensures Naive.SnapStat(group, group[i].ts, window) ==
              if Incremental.CompletesWindow(group, i, window)
              then Some(Incremental.RecordAt(security, group[..i + 1], window).variance)
              else None
  {
    var h := group[..i + 1];
    LookbackOfPrefix(group, i);
    SameLookbackSameStat(group, h, group[i].ts, window);
    IncreasingPrefix(group, i);
    StatOfPrefix(security, h, window);
    Incremental.CompletesWindowRun(group, i, window);
  }

  /** The naive statistic depends on the group only through its lookback. */
  lemma SameLookbackSameStat(g: seq<Snap>, g': seq<Snap>, snap: int, window: nat)
    requires 1 <= window && Naive.Lookback(g, snap) == Naive.Lookback(g', snap)
    ensures Naive.SnapStat(g, snap, window) == Naive.SnapStat(g', snap, window)
  {
  }

  lemma IncreasingPrefix(group: seq<Snap>, i: nat)
    requires TsIncreasing(group) && i < |group|
    ensures TsIncreasing(group[..i + 1]) && group[..i + 1] != [] && group[..i + 1][i] == group[i]
  {
  }

  /** The naive statistic at the time of the last of some increasing samples. */
  lemma StatOfPrefix(security: string, h: seq<Snap>, window: nat)
    requires TsIncreasing(h) && h != []
    requires 1 <= window && (window - 1) * HOUR < Naive.LOOKBACK
    ensures Naive.SnapStat(h, h[|h| - 1].ts, window) ==
              if TrailingRun(h) >= window
              then Some(Incremental.RecordAt(security, h, window).variance)
              else None
  {
    if TrailingRun(h) >= window {
      StatOfFullRun(security, h, window);
    } else {
      StatOfShortRun(h, window);
    }
  }

  /** A trailing run of `window` samples gives their population variances. */
  lemma StatOfFullRun(security: string, h: seq<Snap>, window: nat)
    requires TsIncreasing(h) && h != []
    requires 1 <= window && (window - 1) * HOUR < Naive.LOOKBACK && TrailingRun(h) >= window
    ensures Naive.SnapStat(h, h[|h| - 1].ts, window) == Some(Incremental.RecordAt(security, h, window).variance)
  {
    assert window <= |h|;
    var w, last := Naive.Lookback(h, h[|h| - 1].ts), h[|h| - window..];
    FullRunWindow(h, window, w);
    RunHourApart(h, window);
    StatFromWindow(h, h[|h| - 1].ts, window, w, last);
    RecordVariance(security, h, window);
  }

  /** A trailing run of `window` samples is the end of the lookback at the last one's time. */
  lemma FullRunWindow(h: seq<Snap>, window: nat, w: seq<Snap>)
    requires TsIncreasing(h) && h != [] && w == Naive.Lookback(h, h[|h| - 1].ts)
    requires 1 <= window && (window - 1) * HOUR < Naive.LOOKBACK && TrailingRun(h) >= window
    ensures window <= |w| && window <= |h| && w[|w| - window..] == h[|h| - window..]
  {
    WindowOfLookback(h, window, w);
    RunInLookback(h, window);
  }

  /** The last `window` rows of a trailing run of at least `window` are hour-apart. */
  lemma RunHourApart(h: seq<Snap>, window: nat)
    requires 1 <= window <= |h| && TrailingRun(h) >= window
    ensures HourApart(Times(h[|h| - window..]))
  {
    TrailingRunLinked(h, window);
    LinkedHourApart(h, |h| - window);
  }

  /** The incremental record's variance is that of its last `window` rows. */
  lemma RecordVariance(security: string, rows: seq<Snap>, window: nat)
    requires 1 <= window <= |rows|
    ensures Incremental.RecordAt(security, rows, window).variance == PopVariances(Quotes(rows[|rows| - window..]))
  {
  }

  /** When the lookback's last `window` samples are hour-apart, the statistic is their variances. */
  lemma StatFromWindow(group: seq<Snap>, snap: int, window: nat, w: seq<Snap>, last: seq<Snap>)
    requires w == Naive.Lookback(group, snap) && 1 <= window <= |w|
    requires last == w[|w| - window..] && HourApart(Times(last))
    ensures Naive.SnapStat(group, snap, window) == Some(PopVariances(Quotes(last)))
  {
  }

  /** With fewer than `window` samples in the lookback there is no statistic. */
  lemma StatOfFewSamples(group: seq<Snap>, snap: int, window: nat)
    requires 1 <= window && |Naive.Lookback(group, snap)| < window
    ensures Naive.SnapStat(group, snap, window) == None
  {
  }

  /** When the lookback's last `window` samples are not hour-apart there is no statistic. */
  lemma StatOfBrokenWindow(group: seq<Snap>, snap: int, window: nat, w: seq<Snap>, last: seq<Snap>)
    requires w == Naive.Lookback(group, snap) && 1 <= window <= |w|
    requires last == w[|w| - window..] && !HourApart(Times(last))
    ensures Naive.SnapStat(group, snap, window) == None
  {
  }

  /** A trailing run shorter than `window` gives nothing. */
  lemma StatOfShortRun(h: seq<Snap>, window: nat)
    requires TsIncreasing(h) && h != []
    requires 1 <= window && TrailingRun(h) < window
    ensures Naive.SnapStat(h, h[|h| - 1].ts, window) == None
  {
    var snap := h[|h| - 1].ts;
    var w := Naive.Lookback(h, snap);
    WindowOfLookback(h, window, w);
    if |w| >= window {
      assert window <= |h|;
      ShortRunBroken(h, window);
      StatOfBrokenWindow(h, snap, window, w, h[|h| - window..]);
    } else {
      StatOfFewSamples(h, snap, window);
    }
  }

  /** When the trailing run is shorter than `window`, the last `window` rows are not all hour-apart. */
  lemma ShortRunBroken(h: seq<Snap>, window: nat)
    requires 1 <= window <= |h| && TrailingRun(h) < window
    ensures !HourApart(Times(h[|h| - window..]))
  {
    if HourApart(Times(h[|h| - window..])) {
      HourApartLinked(h, |h| - window);
      TrailingRunLinked(h, window);
    }
  }

  /** The lookback at the last sample's time ends with the last samples themselves. */
  lemma WindowOfLookback(h: seq<Snap>, window: nat, w: seq<Snap>)
    requires TsIncreasing(h) && h != [] && w == Naive.Lookback(h, h[|h| - 1].ts)
    ensures |w| <= |h| && w == h[|h| - |w|..]
    ensures |w| >= window ==> w[|w| - window..] == h[|h| - window..]
  {
    var n, snap := |h|, h[|h| - 1].ts;
    forall r | r in h ensures r.ts <= snap {
      var k :| 0 <= k < n && h[k] == r;
      assert k == n - 1 || h[k].ts < snap;
    }
    Naive.LookbackSuffix(h, snap);
    if |w| >= window {
      SuffixOfSuffix(h, n - |w|, window);
    }
  }

  /** A trailing hour-apart run of `window` samples, spanning less than seven days, is all inside the lookback. */
  lemma RunInLookback(h: seq<Snap>, window: nat)
    requires TsIncreasing(h) && h != []
    requires 1 <= window && (window - 1) * HOUR < Naive.LOOKBACK && TrailingRun(h) >= window
    ensures |Naive.Lookback(h, h[|h| - 1].ts)| >= window
  {
    RunStartsInside(h, window);
    InsideIsKept(h, |h| - window);
  }

  /** The first sample of a trailing run of `window` is less than seven days before the last. */
  lemma RunStartsInside(h: seq<Snap>, window: nat)
    requires 1 <= window <= |h| && (window - 1) * HOUR < Naive.LOOKBACK && TrailingRun(h) >= window
    ensures h[|h| - 1].ts - Naive.LOOKBACK < h[|h| - window].ts
  {
    TrailingRunLinked(h, window);
    LinkedHourApart(h, |h| - window);
    FirstOfWindow(h, window);
  }

  /** A sample less than seven days before the last is kept together with all samples after it. */
  lemma InsideIsKept(h: seq<Snap>, j: nat)
    requires TsIncreasing(h) && j < |h| && h[|h| - 1].ts - Naive.LOOKBACK < h[j].ts
    ensures |Naive.Lookback(h, h[|h| - 1].ts)| >= |h| - j
  {
    var n, snap := |h|, h[|h| - 1].ts;
    var w := Naive.Lookback(h, snap);
    WindowOfLookback(h, 1, w);
    InLookback(h, j);
    var k :| 0 <= k < |w| && w[k] == h[j];
    var m := |w|;
    assert h[n - m + k] == h[j];
    assert n - m + k == j;
  }

  /** A sample less than seven days before the last is in the lookback at the last one's time. */
  lemma InLookback(h: seq<Snap>, j: nat)
    requires TsIncreasing(h) && j < |h| && h[|h| - 1].ts - Naive.LOOKBACK < h[j].ts
    ensures h[j] in Naive.Lookback(h, h[|h| - 1].ts)
  {
    var snap := h[|h| - 1].ts;
    if j < |h| - 1 {
      assert h[j].ts < snap;
    }
    assert h[j] in h;
    Naive.LookbackMembers(h, snap);
  }

  /** Samples after the `i`th are later than it, so the lookback at its time sees only the prefix up to it. */
  lemma LookbackOfPrefix(group: seq<Snap>, i: nat)
    requires TsIncreasing(group) && i < |group|
    ensures Naive.Lookback(group, group[i].ts) == Naive.Lookback(group[..i + 1], group[i].ts)
  {
    var snap, later := group[i].ts, group[i + 1..];
    assert group == group[..i + 1] + later;
    Naive.LookbackConcat(group[..i + 1], later, snap);
    LaterRows(group, i);
    Naive.LookbackNone(later, snap);
  }

  /** The rows after the `i`th are all later than it. */
  lemma LaterRows(group: seq<Snap>, i: nat)
    requires TsIncreasing(group) && i < |group|
    ensures forall r :: r in group[i + 1..] ==> r.ts > group[i].ts
  {
    var later := group[i + 1..];
    forall r | r in later ensures r.ts > group[i].ts {
      var k :| 0 <= k < |later| && later[k] == r;
      assert group[i + 1 + k] == r;
    }
  }

  /** The first of `window` hour-apart rows ending at the last row lies inside its seven-day lookback. */
  lemma FirstOfWindow(h: seq<Snap>, window: nat)
    requires 1 <= window <= |h| && (window - 1) * HOUR < Naive.LOOKBACK
    requires HourApart(Times(h[|h| - window..]))
    ensures h[|h| - 1].ts - Naive.LOOKBACK < h[|h| - window].ts
  {
    var ts := Times(h[|h| - window..]);
    HourApartSpan(ts, window - 1);
  }
}
