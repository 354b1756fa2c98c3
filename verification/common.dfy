/**
  Types shared by the three standard-deviation engines and the rates
  converter: timestamps are whole seconds, prices exact reals.
 */
module Common {
  import opened Stats

  datatype Option<T> = None | Some(value: T)

  /** The fixed sampling period: one hour, in seconds. */
  const HOUR: int := 3600
  const DAY: int := 24 * HOUR

  /** The bid, mid and ask of one snap, or one statistic for each of the three fields. */
  datatype Triple = Triple(bid: real, mid: real, ask: real)

  /** One input row: a security's prices at one snap time. */
  datatype Snap = Snap(security: string, ts: int, quote: Triple)

  /**
    One output row of a standard-deviation engine. The model stops at the
    variance of each field; the engines report its square root.
   */
  datatype StdevRecord = StdevRecord(security: string, ts: int, variance: Triple)

  function Bids(qs: seq<Triple>): seq<real>
  {
    seq(|qs|, i requires 0 <= i < |qs| => qs[i].bid)
  }

  function Mids(qs: seq<Triple>): seq<real>
  {
    seq(|qs|, i requires 0 <= i < |qs| => qs[i].mid)
  }

  function Asks(qs: seq<Triple>): seq<real>
  {
    seq(|qs|, i requires 0 <= i < |qs| => qs[i].ask)
  }

  function Quotes(rows: seq<Snap>): seq<Triple>
  {
    seq(|rows|, i requires 0 <= i < |rows| => rows[i].quote)
  }

  function Times(rows: seq<Snap>): seq<int>
  {
    seq(|rows|, i requires 0 <= i < |rows| => rows[i].ts)
  }

  /** Population variance of each field (divisor n). */
  function PopVariances(qs: seq<Triple>): Triple
    requires qs != []
  {
    Triple(PopVariance(Bids(qs)), PopVariance(Mids(qs)), PopVariance(Asks(qs)))
  }

  /** Sample variance of each field (divisor n - 1). */
  function SampleVariances(qs: seq<Triple>): Triple
    requires |qs| >= 2
  {
    Triple(SampleVariance(Bids(qs)), SampleVariance(Mids(qs)), SampleVariance(Asks(qs)))
  }

  /** Every timestamp is exactly one hour after the one before it. */
  predicate HourApart(ts: seq<int>)
  {
    forall j :: 0 < j < |ts| ==> ts[j] - ts[j - 1] == HOUR
  }

  /**
    Length of the longest run of rows at the end of `rows` whose consecutive
    timestamps are exactly one hour apart; a lone row is a run of one.
   */
  function TrailingRun(rows: seq<Snap>): (n: nat)
    ensures n <= |rows|
    ensures rows != [] ==> n >= 1
  {
    if |rows| <= 1 then |rows|
    else if rows[|rows| - 1].ts - rows[|rows| - 2].ts == HOUR then TrailingRun(rows[..|rows| - 1]) + 1
    else 1
  }

  /** From index `a` on, every row is exactly one hour after the row before it. */
  ghost predicate LinkedFrom(rows: seq<Snap>, a: nat)
  {
    forall j :: a < j < |rows| ==> rows[j].ts - rows[j - 1].ts == HOUR
  }

  /** The trailing run has at least `k` rows exactly when the last `k` rows are linked. */
  lemma {:induction false} TrailingRunLinked(rows: seq<Snap>, k: nat)
    requires 1 <= k <= |rows|
    ensures TrailingRun(rows) >= k <==> LinkedFrom(rows, |rows| - k)
  {
    var n := |rows|;
    if k > 1 {
      TrailingRunLinked(rows[..n - 1], k - 1);
      LinkedSplit(rows, n - k);
    }
  }

  /** Rows are linked from `a` exactly when all but the last are, and the last follows the one before by an hour. */
  lemma LinkedSplit(rows: seq<Snap>, a: nat)
    requires a + 1 < |rows|
    ensures LinkedFrom(rows, a) <==>
              LinkedFrom(rows[..|rows| - 1], a) && rows[|rows| - 1].ts - rows[|rows| - 2].ts == HOUR
  {
    var init := rows[..|rows| - 1];
    assert forall j :: 0 <= j < |init| ==> init[j] == rows[j];
  }

  /** Linked rows have hour-apart timestamps. */
  lemma LinkedHourApart(rows: seq<Snap>, a: nat)
    requires a <= |rows| && LinkedFrom(rows, a)
    ensures HourApart(Times(rows[a..]))
  {
    var ts := Times(rows[a..]);
    forall j | 0 < j < |ts| ensures ts[j] - ts[j - 1] == HOUR {
      assert ts[j] == rows[a + j].ts && ts[j - 1] == rows[a + j - 1].ts;
    }
  }

  /** Hour-apart timestamps of a suffix mean the rows are linked from where it starts. */
  lemma HourApartLinked(rows: seq<Snap>, a: nat)
    requires a <= |rows| && HourApart(Times(rows[a..]))
    ensures LinkedFrom(rows, a)
  {
    var ts := Times(rows[a..]);
    forall j | a < j < |rows| ensures rows[j].ts - rows[j - 1].ts == HOUR {
      assert ts[j - a] - ts[j - a - 1] == HOUR;
    }
  }

  /** Hour-apart timestamps are an arithmetic progression with step one hour. */
  lemma {:induction false} HourApartSpan(ts: seq<int>, j: nat)
    requires HourApart(ts) && j < |ts|
    ensures ts[j] == ts[0] + j * HOUR
  {
    if j > 0 {
      HourApartSpan(ts, j - 1);
    }
  }

  /** The last `k` rows of a suffix are the last `k` rows. */
  lemma SuffixOfSuffix(rows: seq<Snap>, a: nat, k: nat)
    requires a <= |rows| && k <= |rows| - a
    ensures rows[a..][|rows| - a - k..] == rows[|rows| - k..]
  {
  }
}
