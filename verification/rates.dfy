/**
  The rates converter (`rates_solution.py`): every price row is joined with
  its currency pair's conversion settings and gets a new price and a reason.
  A pair that needs conversion takes the latest spot mid rate of the same
  pair from the previous hour up to the row's time, and the new price is
  `price / conversion_factor + spot_mid_rate`.
 */
module Rates {
  import opened Common
  import opened Ordering

  /** One row of the currency table; a missing (`NaN`) setting is `None`. */
  datatype CcyInfo = CcyInfo(pair: string, convert: Option<bool>, factor: Option<real>)

  /** One row of the price table. */
  datatype PriceRow = PriceRow(pair: string, ts: int, price: real)

  /** One row of the spot table. */
  datatype SpotRow = SpotRow(pair: string, ts: int, mid: real)

  /**
    A row of the left join of prices with the currency table; `info` is the
    matched currency row, or `None` for a price row without a match
    (`_merge == 'left_only'`).
   */
  datatype MergedRow = MergedRow(pair: string, ts: int, price: real, info: Option<CcyInfo>)

  /** The `reason` column: empty until the row is handled, then one of four outcomes. */
  datatype Reason = Blank | Unsupported | NoConversionRequired | NoSpotRate | Converted

  /** One output row: `ccy_pair, timestamp, price, new_price, reason`; a missing new price is `None`. */
  datatype OutRow = OutRow(pair: string, ts: int, price: real, newPrice: Option<real>, reason: Reason)

  // ---------------------------------------------------------------------------
  // The join with the currency table
  // ---------------------------------------------------------------------------

  /** The currency rows of `pair`, in table order. */
  function Matches(ccy: seq<CcyInfo>, pair: string): seq<CcyInfo>
  {
    if ccy == [] then []
    else Matches(ccy[..|ccy| - 1], pair) + (if ccy[|ccy| - 1].pair == pair then [ccy[|ccy| - 1]] else [])
  }

  /** The merged rows of one price row: one per matching currency row, or a single unmatched row. */
  function MergeRow(row: PriceRow, ccy: seq<CcyInfo>): seq<MergedRow>
  {
    var m := Matches(ccy, row.pair);
    if m == [] then [MergedRow(row.pair, row.ts, row.price, None)]
    else seq(|m|, k requires 0 <= k < |m| => MergedRow(row.pair, row.ts, row.price, Some(m[k])))
  }

  /** `price_df.merge(ccy_df, on='ccy_pair', how='left')`: price rows in order, each expanded by its matches. */
  function Merge(prices: seq<PriceRow>, ccy: seq<CcyInfo>): seq<MergedRow>
  {
    if prices == [] then []
    else Merge(prices[..|prices| - 1], ccy) + MergeRow(prices[|prices| - 1], ccy)
  }

  /** No two currency rows share a pair. */
  ghost predicate UniquePairs(ccy: seq<CcyInfo>)
  {
    forall a, b :: 0 <= a < b < |ccy| ==> ccy[a].pair != ccy[b].pair
  }

  /** The matches of a pair are exactly its currency rows. */
  lemma {:induction false} MatchesMembers(ccy: seq<CcyInfo>, pair: string)
    ensures forall c :: c in Matches(ccy, pair) <==> c in ccy && c.pair == pair
    ensures |Matches(ccy, pair)| <= |ccy|
  {
    if ccy != [] {
      var init := ccy[..|ccy| - 1];
      MatchesMembers(init, pair);
      assert ccy == init + [ccy[|ccy| - 1]];
    }
  }

  /** With unique pairs a pair has at most one currency row. */
  lemma {:induction false} MatchesAtMostOne(ccy: seq<CcyInfo>, pair: string)
    requires UniquePairs(ccy)
    ensures |Matches(ccy, pair)| <= 1
  {
    if ccy != [] {
      var init, last := ccy[..|ccy| - 1], ccy[|ccy| - 1];
      assert UniquePairs(init);
      MatchesAtMostOne(init, pair);
      if last.pair == pair {
        forall c | c in init ensures c.pair != pair {
          var k :| 0 <= k < |init| && init[k] == c;
          assert ccy[k] == c;
        }
        MatchesNone(init, pair);
      }
    }
  }

  /** A pair without currency rows has no matches. */
  lemma {:induction false} MatchesNone(ccy: seq<CcyInfo>, pair: string)
    requires forall c :: c in ccy ==> c.pair != pair
    ensures Matches(ccy, pair) == []
  {
    if ccy != [] {
      var init := ccy[..|ccy| - 1];
      assert ccy[|ccy| - 1] in ccy;
      assert forall c :: c in init ==> c in ccy;
      MatchesNone(init, pair);
    }
  }

  /** The currency row of `pair`: its first match, if any. */
  function Lookup(ccy: seq<CcyInfo>, pair: string): Option<CcyInfo>
  {
    var m := Matches(ccy, pair);
    if m == [] then None else Some(m[0])
  }

  /**
    A pair without a currency row has no settings (`left_only`); otherwise
    it gets one of its currency rows, and with unique pairs that row is the
    pair's only one.
   */
  lemma LookupMembers(ccy: seq<CcyInfo>, pair: string)
    ensures Lookup(ccy, pair).None? <==> forall c :: c in ccy ==> c.pair != pair
    ensures Lookup(ccy, pair).Some? ==> Lookup(ccy, pair).value in ccy && Lookup(ccy, pair).value.pair == pair
    ensures UniquePairs(ccy) ==> forall c :: c in ccy && c.pair == pair ==> Lookup(ccy, pair) == Some(c)
  {
    MatchesMembers(ccy, pair);
    var m := Matches(ccy, pair);
    if m != [] {
      assert m[0] in m;
    }
    if UniquePairs(ccy) {
      MatchesAtMostOne(ccy, pair);
      forall c | c in ccy && c.pair == pair ensures Lookup(ccy, pair) == Some(c) {
        assert c in m;
      }
    }
  }

  /** With unique pairs a price row's merge is one row carrying its pair's currency row. */
  lemma MergeRowSingle(row: PriceRow, ccy: seq<CcyInfo>)
    requires UniquePairs(ccy)
    ensures MergeRow(row, ccy) == [MergedRow(row.pair, row.ts, row.price, Lookup(ccy, row.pair))]
  {
    MatchesAtMostOne(ccy, row.pair);
  }

  /**
    With unique currency pairs the join keeps one row per price row, in the
    price table's order, each carrying its pair's currency row (none when the
    pair is not in the table).
   */
  lemma {:induction false} MergeOneToOne(prices: seq<PriceRow>, ccy: seq<CcyInfo>)
    requires UniquePairs(ccy)
    ensures |Merge(prices, ccy)| == |prices|
    ensures forall i :: 0 <= i < |prices| ==>
              Merge(prices, ccy)[i] == MergedRow(prices[i].pair, prices[i].ts, prices[i].price, Lookup(ccy, prices[i].pair))
  {
    if prices != [] {
      var n := |prices|;
      var init := prices[..n - 1];
      MergeOneToOne(init, ccy);
      MergeRowSingle(prices[n - 1], ccy);
      assert forall i :: 0 <= i < n - 1 ==> prices[i] == init[i];
    }
  }

  // ---------------------------------------------------------------------------
  // The spot window
  // ---------------------------------------------------------------------------

  /** `ts.floor('h')`: the whole hour at or before `ts`. */
  function FloorHour(ts: int): (f: int)
    ensures f % HOUR == 0 && f <= ts < f + HOUR
  {
    ts - ts % HOUR
  }

  /** A spot row of `pair` after the start of the previous whole hour and not after `ts`. */
  predicate InWindow(s: SpotRow, pair: string, ts: int)
  {
    s.pair == pair && FloorHour(ts) - HOUR < s.ts <= ts
  }

  /**
    The window reaches back between one and two hours: every spot of the
    last hour is in it, and nothing two hours old or older, and nothing
    after `ts`.
   */
  lemma WindowBounds(s: SpotRow, pair: string, ts: int)
    ensures InWindow(s, pair, ts) ==> ts - 2 * HOUR < s.ts <= ts
    ensures s.pair == pair && ts - HOUR < s.ts <= ts ==> InWindow(s, pair, ts)
  {
    var f := FloorHour(ts);
    assert f <= ts < f + HOUR;
  }

  /** The spot candidates of a price row: the rows of the window, in spot table order. */
  function Candidates(spots: seq<SpotRow>, pair: string, ts: int): seq<SpotRow>
  {
    if spots == [] then []
    else Candidates(spots[..|spots| - 1], pair, ts) + (if InWindow(spots[|spots| - 1], pair, ts) then [spots[|spots| - 1]] else [])
  }

  /** The candidates are exactly the spot rows in the window. */
  lemma {:induction false} CandidatesMembers(spots: seq<SpotRow>, pair: string, ts: int)
    ensures forall s :: s in Candidates(spots, pair, ts) <==> s in spots && InWindow(s, pair, ts)
  {
    if spots != [] {
      var init := spots[..|spots| - 1];
      CandidatesMembers(init, pair, ts);
      assert spots == init + [spots[|spots| - 1]];
    }
  }

  /** Spot rows appended after the others and outside the window add no candidate. */
  lemma {:induction false} CandidatesIgnore(spots: seq<SpotRow>, extra: seq<SpotRow>, pair: string, ts: int)
    requires forall s :: s in extra ==> !InWindow(s, pair, ts)
    ensures Candidates(spots + extra, pair, ts) == Candidates(spots, pair, ts)
  {
    if extra == [] {
      assert spots + extra == spots;
    } else {
      var init := extra[..|extra| - 1];
      CandidatesIgnore(spots, init, pair, ts);
      assert (spots + extra)[..|spots + extra| - 1] == spots + init;
      assert extra[|extra| - 1] in extra;
    }
  }

  /**
    A candidate with the latest timestamp (of equal latest ones, the later in
    the spot table); in the sorted spot table it is the last candidate
    (`LatestIsLast`).
   */
  function Latest(c: seq<SpotRow>): (s: SpotRow)
    requires c != []
    ensures s in c && forall x :: x in c ==> x.ts <= s.ts
  {
    if |c| == 1 then c[0]
    else
      var init := c[..|c| - 1];
      var best := Latest(init);
      assert c == init + [c[|c| - 1]];
      if c[|c| - 1].ts >= best.ts then c[|c| - 1] else best
  }

  // ---------------------------------------------------------------------------
  // The spot table in (pair, timestamp) order
  // ---------------------------------------------------------------------------

  /** `x` sorts no later than `y` by currency pair, then timestamp. */
  predicate SpotLe(x: SpotRow, y: SpotRow)
  {
    StrLt(x.pair, y.pair) || (x.pair == y.pair && x.ts <= y.ts)
  }

  ghost predicate SpotsSorted(spots: seq<SpotRow>)
  {
    forall a, b :: 0 <= a < b < |spots| ==> SpotLe(spots[a], spots[b])
  }

  lemma SpotLeTransitive(x: SpotRow, y: SpotRow, z: SpotRow)
    requires SpotLe(x, y) && SpotLe(y, z)
    ensures SpotLe(x, z)
  {
    if StrLt(x.pair, y.pair) && StrLt(y.pair, z.pair) {
      StrLtTransitive(x.pair, y.pair, z.pair);
    }
  }

  /** A spot row no later than the first of sorted rows can go in front of them. */
  lemma SpotsSortedCons(x: SpotRow, spots: seq<SpotRow>)
    requires SpotsSorted(spots) && (spots != [] ==> SpotLe(x, spots[0]))
    ensures SpotsSorted([x] + spots)
  {
    var r := [x] + spots;
    forall a, b | 0 <= a < b < |r| ensures SpotLe(r[a], r[b]) {
      if a == 0 && b > 1 {
        SpotLeTransitive(x, spots[0], spots[b - 1]);
      }
    }
  }

  /** Insert `x` before the first row that does not sort before it. */
  function InsertSpot(x: SpotRow, spots: seq<SpotRow>): (r: seq<SpotRow>)
    requires SpotsSorted(spots)
    ensures SpotsSorted(r)
    ensures multiset(r) == multiset(spots) + multiset{x}
    ensures r != [] && (r[0] == x || (spots != [] && r[0] == spots[0]))
  {
    if spots == [] || SpotLe(x, spots[0]) then
      SpotsSortedCons(x, spots);
      [x] + spots
    else
      var rest := InsertSpot(x, spots[1..]);
      assert spots == [spots[0]] + spots[1..];
      StrLtTotal(x.pair, spots[0].pair);
      SpotsSortedCons(spots[0], rest);
      [spots[0]] + rest
  }

  /** `sort_values(['ccy_pair', 'timestamp'])`: the spot rows, reordered by pair and then timestamp. */
  function SortSpots(spots: seq<SpotRow>): (r: seq<SpotRow>)
    ensures SpotsSorted(r)
    ensures multiset(r) == multiset(spots)
  {
    if spots == [] then []
    else
      assert spots == [spots[0]] + spots[1..];
      InsertSpot(spots[0], SortSpots(spots[1..]))
  }

  ghost predicate SpotsByTs(c: seq<SpotRow>)
  {
    forall a, b :: 0 <= a < b < |c| ==> c[a].ts <= c[b].ts
  }

  /** In a sorted spot table the candidates of a price row are in timestamp order. */
  lemma {:induction false} CandidatesAscending(spots: seq<SpotRow>, pair: string, ts: int)
    requires SpotsSorted(spots)
    ensures SpotsByTs(Candidates(spots, pair, ts))
  {
    if spots != [] {
      var n := |spots|;
      var init, last := spots[..n - 1], spots[n - 1];
      assert SpotsSorted(init) by {
        forall a, b | 0 <= a < b < |init| ensures SpotLe(init[a], init[b]) {
          assert init[a] == spots[a] && init[b] == spots[b];
        }
      }
      CandidatesAscending(init, pair, ts);
      var c := Candidates(init, pair, ts);
      if InWindow(last, pair, ts) {
        CandidatesMembers(init, pair, ts);
        forall x | x in c ensures x.ts <= last.ts {
          var k :| 0 <= k < |init| && init[k] == x;
          assert SpotLe(spots[k], spots[n - 1]);
          StrLtIrreflexive(pair);
        }
        var c' := c + [last];
        assert Candidates(spots, pair, ts) == c';
        forall a, b | 0 <= a < b < |c'| ensures c'[a].ts <= c'[b].ts {
          if b == |c| {
            assert c'[a] == c[a] && c[a] in c;
          } else {
            assert c'[a] == c[a] && c'[b] == c[b];
          }
        }
      } else {
        assert Candidates(spots, pair, ts) == c;
      }
    }
  }

  /** When the candidates are in timestamp order their latest is their last: `iloc[-1]`. */
  lemma LatestIsLast(c: seq<SpotRow>)
    requires c != [] && SpotsByTs(c)
    ensures Latest(c) == c[|c| - 1]
  {
    if |c| > 1 {
      var init := c[..|c| - 1];
      var k :| 0 <= k < |init| && init[k] == Latest(init);
      assert c[k].ts <= c[|c| - 1].ts;
    }
  }

  // ---------------------------------------------------------------------------
  // One row
  // ---------------------------------------------------------------------------

  /** The row's pair is in the table with both settings present. */
  predicate Supported(m: MergedRow)
  {
    m.info.Some? && m.info.value.convert.Some? && m.info.value.factor.Some?
  }

  /** The row's pair is supported and must be converted. */
  predicate NeedsSpot(m: MergedRow)
  {
    Supported(m) && m.info.value.convert.value
  }

  /**
    What the loop needs of a row to finish: a row that must be converted has
    a non-zero factor, and its pair has at least one spot row at all
    (otherwise `get_group` raises).
   */
  ghost predicate RowReady(spots: seq<SpotRow>, m: MergedRow)
  {
    NeedsSpot(m) ==> m.info.value.factor.value != 0.0 && exists s :: s in spots && s.pair == m.pair
  }

  /** The output row for one merged row. */
  function ConvertRow(spots: seq<SpotRow>, m: MergedRow): (r: OutRow)
    requires RowReady(spots, m)
    ensures r.pair == m.pair && r.ts == m.ts && r.price == m.price && r.reason != Blank
  {
    if !Supported(m) then OutRow(m.pair, m.ts, m.price, None, Unsupported)
    else if !m.info.value.convert.value then OutRow(m.pair, m.ts, m.price, Some(m.price), NoConversionRequired)
    else
      var c := Candidates(spots, m.pair, m.ts);
      if c == [] then OutRow(m.pair, m.ts, m.price, None, NoSpotRate)
      else OutRow(m.pair, m.ts, m.price, Some(m.price / m.info.value.factor.value + Latest(c).mid), Converted)
  }

  /** A row whose pair is missing or lacks a setting is not supported and gets no new price. */
  lemma UnsupportedRow(spots: seq<SpotRow>, m: MergedRow)
    requires RowReady(spots, m)
    ensures ConvertRow(spots, m).reason == Unsupported <==> !Supported(m)
    ensures !Supported(m) ==> ConvertRow(spots, m).newPrice.None?
  {
  }

  /** A supported row that needs no conversion keeps its price. */
  lemma UnconvertedRow(spots: seq<SpotRow>, m: MergedRow)
    requires RowReady(spots, m)
    ensures ConvertRow(spots, m).reason == NoConversionRequired <==> Supported(m) && !m.info.value.convert.value
    ensures ConvertRow(spots, m).reason == NoConversionRequired ==> ConvertRow(spots, m).newPrice == Some(m.price)
  {
  }

  /** A row to convert with no spot row in its window gets no new price. */
  lemma NoSpotRow(spots: seq<SpotRow>, m: MergedRow)
    requires RowReady(spots, m)
    ensures ConvertRow(spots, m).reason == NoSpotRate <==>
              NeedsSpot(m) && forall s :: s in spots ==> !InWindow(s, m.pair, m.ts)
    ensures ConvertRow(spots, m).reason == NoSpotRate ==> ConvertRow(spots, m).newPrice.None?
  {
    CandidatesMembers(spots, m.pair, m.ts);
    var c := Candidates(spots, m.pair, m.ts);
    if NeedsSpot(m) && c != [] {
      assert c[0] in c;
    }
  }

  /** Over the sorted spot table a converted row uses the last of its candidates. */
  lemma ConvertedWithLast(spots: seq<SpotRow>, m: MergedRow)
    requires SpotsSorted(spots) && RowReady(spots, m) && NeedsSpot(m)
    requires Candidates(spots, m.pair, m.ts) != []
    ensures var c := Candidates(spots, m.pair, m.ts);
      ConvertRow(spots, m) == OutRow(m.pair, m.ts, m.price, Some(m.price / m.info.value.factor.value + c[|c| - 1].mid), Converted)
  {
    CandidatesAscending(spots, m.pair, m.ts);
    LatestIsLast(Candidates(spots, m.pair, m.ts));
  }

  /** The spot rate `s` is a latest spot row of the window of `m`. */
  ghost predicate LatestSpot(spots: seq<SpotRow>, m: MergedRow, s: SpotRow)
  {
    && s in spots && InWindow(s, m.pair, m.ts)
    && forall x :: x in spots && InWindow(x, m.pair, m.ts) ==> x.ts <= s.ts
  }

  /**
    A row to convert with a spot row in its window is converted with a
    latest spot of the window: `price / factor + spot_mid_rate`.
   */
  lemma ConvertedRow(spots: seq<SpotRow>, m: MergedRow)
    requires RowReady(spots, m)
    ensures ConvertRow(spots, m).reason == Converted <==>
              NeedsSpot(m) && exists s :: s in spots && InWindow(s, m.pair, m.ts)
    ensures ConvertRow(spots, m).reason == Converted ==>
              exists s :: LatestSpot(spots, m, s) &&
                ConvertRow(spots, m).newPrice == Some(m.price / m.info.value.factor.value + s.mid)
  {
    CandidatesMembers(spots, m.pair, m.ts);
    var c := Candidates(spots, m.pair, m.ts);
    if NeedsSpot(m) && c != [] {
      var s := Latest(c);
      assert LatestSpot(spots, m, s);
    }
  }

  /** Spot rows after the row's time, appended to the spot table, change nothing for that row. */
  lemma LaterSpotsIgnored(spots: seq<SpotRow>, later: seq<SpotRow>, m: MergedRow)
    requires RowReady(spots, m)
    requires forall s :: s in later ==> s.ts > m.ts
    ensures RowReady(spots + later, m) && ConvertRow(spots + later, m) == ConvertRow(spots, m)
  {
    CandidatesIgnore(spots, later, m.pair, m.ts);
    if NeedsSpot(m) {
      var s :| s in spots && s.pair == m.pair;
      assert s in spots + later;
    }
  }

  // ---------------------------------------------------------------------------
  // The whole table
  // ---------------------------------------------------------------------------

  /** Every merged row can be handled. */
  ghost predicate Ready(spots: seq<SpotRow>, merged: seq<MergedRow>)
  {
    forall i :: 0 <= i < |merged| ==> RowReady(spots, merged[i])
  }

  /** Readiness asks only which spot rows exist, so reordering the spot table keeps it. */
  lemma ReadyReordered(spots: seq<SpotRow>, reordered: seq<SpotRow>, merged: seq<MergedRow>)
    requires multiset(reordered) == multiset(spots) && Ready(spots, merged)
    ensures Ready(reordered, merged)
  {
    forall s | s in spots ensures s in reordered {
      assert s in multiset(spots);
    }
  }

  /** The output table: one row per merged row, in order. */
  function Output(merged: seq<MergedRow>, spots: seq<SpotRow>): (out: seq<OutRow>)
    requires Ready(spots, merged)
  {
    seq(|merged|, i requires 0 <= i < |merged| => ConvertRow(spots, merged[i]))
  }

  /** Row `i` of the output is the conversion of merged row `i`. */
  lemma OutputAt(merged: seq<MergedRow>, spots: seq<SpotRow>, i: nat)
    requires Ready(spots, merged) && i < |merged|
    ensures |Output(merged, spots)| == |merged| && RowReady(spots, merged[i])
    ensures Output(merged, spots)[i] == ConvertRow(spots, merged[i])
  {
  }

  /**
    With unique currency pairs the output has one row per price row, in the
    price table's order, with the price row's pair, time and price and one of
    the four reasons.
   */
  lemma OutputShape(prices: seq<PriceRow>, ccy: seq<CcyInfo>, spots: seq<SpotRow>)
    requires UniquePairs(ccy) && Ready(spots, Merge(prices, ccy))
    ensures var out := Output(Merge(prices, ccy), spots);
      && |out| == |prices|
      && forall i :: 0 <= i < |prices| ==>
           out[i].pair == prices[i].pair && out[i].ts == prices[i].ts && out[i].price == prices[i].price
           && out[i].reason != Blank
  {
    MergeOneToOne(prices, ccy);
  }

  /**
    The body of the loop for one merged row, over the sorted spot table:
    its new price and reason are those of `ConvertRow`.
   */
  method HandleRow(spots: seq<SpotRow>, row: MergedRow) returns (price: Option<real>, why: Reason)
    requires SpotsSorted(spots) && RowReady(spots, row)
    ensures price == ConvertRow(spots, row).newPrice && why == ConvertRow(spots, row).reason
  {
    if !Supported(row) {
      return None, Unsupported;
    }
    if !row.info.value.convert.value {
      return Some(row.price), NoConversionRequired;
    }
    // conversion required: the latest spot rate since the start of the previous hour
    var candidates := Candidates(spots, row.pair, row.ts);
    if candidates == [] {
      return None, NoSpotRate;
    }
    ConvertedWithLast(spots, row);
    var spot := candidates[|candidates| - 1];
    price, why := Some(row.price / row.info.value.factor.value + spot.mid), Converted;
  }

  /**
    The loop of `process` over the merged rows: every row starts with no new
    price and an empty reason, and the loop fills both in, row by row.
   */
  method FillRows(merged: seq<MergedRow>, spots: seq<SpotRow>) returns (out: seq<OutRow>)
    requires SpotsSorted(spots) && Ready(spots, merged)
    ensures out == Output(merged, spots)
  {
    ghost var expected := Output(merged, spots);
    var n := |merged|;
    var newPrice := new Option<real>[n](_ => None);
    var reason := new Reason[n](_ => Blank);
    for idx := 0 to n
      invariant forall j :: 0 <= j < idx ==> newPrice[j] == expected[j].newPrice && reason[j] == expected[j].reason
      invariant forall j :: idx <= j < n ==> newPrice[j] == None && reason[j] == Blank
    {
      OutputAt(merged, spots, idx);
      var price, why := HandleRow(spots, merged[idx]);
      newPrice[idx], reason[idx] := price, why;
    }
    out := seq(n, i requires 0 <= i < n reads newPrice, reason =>
                 OutRow(merged[i].pair, merged[i].ts, merged[i].price, newPrice[i], reason[i]));
  }

  /** The converter: the three loaded tables. */
  class RatesPriceConverter {
    var ccyTable: seq<CcyInfo>
    var prices: seq<PriceRow>
    var spots: seq<SpotRow>

    /** A converter over tables already read from their files. */
    constructor (ccyTable: seq<CcyInfo>, prices: seq<PriceRow>, spots: seq<SpotRow>)
      ensures this.ccyTable == ccyTable && this.prices == prices && this.spots == spots
    {
      this.ccyTable := ccyTable;
      this.prices := prices;
      this.spots := spots;
    }

    /**
      `process`: join the prices with the currency table, start every row
      with no new price and an empty reason, replace the spot table by its
      copy sorted by pair and timestamp, then fill both columns row by row,
      taking the last candidate of the sorted table as the spot rate.
     */
    method Process() returns (out: seq<OutRow>)
      requires Ready(spots, Merge(prices, ccyTable))
      modifies this
      ensures ccyTable == old(ccyTable) && prices == old(prices)
      ensures spots == SortSpots(old(spots)) && Ready(spots, Merge(prices, ccyTable))
      ensures out == Output(Merge(prices, ccyTable), spots)
    {
      var merged := Merge(prices, ccyTable);
      // pre-sort the spot rates
      var sorted := SortSpots(spots);
      ReadyReordered(spots, sorted, merged);
      spots := sorted;
      out := FillRows(merged, sorted);
    }
  }
}
