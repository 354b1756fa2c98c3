/**
  The orderings the engines rely on: security ids compare as Python strings
  do (lexicographically by character code), rows are put in timestamp order
  by a stable sort, and a `groupby` on the security id visits the ids in
  ascending order, each with its own rows.
 */
module Ordering {
  import opened Common

  // ---------------------------------------------------------------------------
  // String order
  // ---------------------------------------------------------------------------

  /** `a` sorts strictly before `b`: the first differing character is smaller, or `a` is a proper prefix. */
  predicate StrLt(a: string, b: string)
  {
    if a == [] then b != []
    else if b == [] then false
    else if a[0] != b[0] then a[0] < b[0]
    else StrLt(a[1..], b[1..])
  }

  lemma {:induction false} StrLtIrreflexive(a: string)
    ensures !StrLt(a, a)
  {
    if a != [] {
      StrLtIrreflexive(a[1..]);
    }
  }

  lemma {:induction false} StrLtTransitive(a: string, b: string, c: string)
    requires StrLt(a, b) && StrLt(b, c)
    ensures StrLt(a, c)
  {
    if a != [] && b != [] && c != [] && a[0] == b[0] && b[0] == c[0] {
      StrLtTransitive(a[1..], b[1..], c[1..]);
    }
  }

  /** Any two different strings are ordered one way or the other. */
  lemma {:induction false} StrLtTotal(a: string, b: string)
    ensures a == b || StrLt(a, b) || StrLt(b, a)
  {
    if a != [] && b != [] && a[0] == b[0] {
      StrLtTotal(a[1..], b[1..]);
      if a[1..] == b[1..] {
        assert a == [a[0]] + a[1..] && b == [b[0]] + b[1..];
      }
    }
  }

  ghost predicate StrictlyAscending(ss: seq<string>)
  {
    forall i, j :: 0 <= i < j < |ss| ==> StrLt(ss[i], ss[j])
  }

  // ---------------------------------------------------------------------------
  // groupby on the security id
  // ---------------------------------------------------------------------------

  /** Insert `s` into an ascending list of distinct ids, unless it is there already. */
  function InsertId(s: string, ss: seq<string>): (r: seq<string>)
    requires StrictlyAscending(ss)
    ensures StrictlyAscending(r)
    ensures forall x :: x in r <==> x == s || x in ss
  {
    if ss == [] then [s]
    else if s == ss[0] then ss
    else if StrLt(s, ss[0]) then
      StrictlyAscendingCons(s, ss);
      [s] + ss
    else
      StrLtTotal(s, ss[0]);
      var rest := InsertId(s, ss[1..]);
      assert rest[0] == s || rest[0] in ss[1..];
      StrictlyAscendingCons(ss[0], rest);
      [ss[0]] + rest
  }

  /** Prepending an id below every id of an ascending list keeps it ascending. */
  lemma StrictlyAscendingCons(s: string, ss: seq<string>)
    requires StrictlyAscending(ss)
    requires ss != [] ==> StrLt(s, ss[0])
    ensures StrictlyAscending([s] + ss)
  {
    var r := [s] + ss;
    forall i, j | 0 <= i < j < |r| ensures StrLt(r[i], r[j]) {
      if i == 0 && j > 1 {
        StrLtTransitive(s, ss[0], ss[j - 1]);
      }
    }
  }

  /** The distinct security ids of `rows`, ascending: the keys a sorted `groupby` visits. */
  function SortedIds(rows: seq<Snap>): (ss: seq<string>)
    ensures StrictlyAscending(ss)
    ensures forall s :: s in ss <==> exists r :: r in rows && r.security == s
  {
    if rows == [] then []
    else
      var ss := InsertId(rows[0].security, SortedIds(rows[1..]));
      assert forall r :: r in rows <==> r == rows[0] || r in rows[1..];
      ss
  }

  /** The rows of one security, in their original order. */
  function RowsOf(rows: seq<Snap>, security: string): (g: seq<Snap>)
    ensures forall r :: r in g <==> r in rows && r.security == security
    ensures multiset(g) <= multiset(rows)
  {
    if rows == [] then []
    else
      var rest := RowsOf(rows[1..], security);
      assert rows == [rows[0]] + rows[1..];
      if rows[0].security == security then [rows[0]] + rest else rest
  }

  /** One more row at the end adds it to its own security's rows and to no other. */
  lemma {:induction false} RowsOfAppend(rows: seq<Snap>, x: Snap, security: string)
    ensures RowsOf(rows + [x], security) == RowsOf(rows, security) + (if x.security == security then [x] else [])
  {
    if rows == [] {
      assert RowsOf([x], security) == (if x.security == security then [x] else []) + RowsOf([], security);
    } else {
      assert (rows + [x])[1..] == rows[1..] + [x];
      RowsOfAppend(rows[1..], x, security);
    }
  }

  /** Picking out one security's rows distributes over concatenation. */
  lemma {:induction false} RowsOfConcat(a: seq<Snap>, b: seq<Snap>, security: string)
    ensures RowsOf(a + b, security) == RowsOf(a, security) + RowsOf(b, security)
  {
    if a != [] {
      var x, ab := a[0], a + b;
      assert ab[0] == x && ab[1..] == a[1..] + b;
      RowsOfConcat(a[1..], b, security);
      assert RowsOf(ab, security) == (if x.security == security then [x] else []) + RowsOf(ab[1..], security);
      assert RowsOf(a, security) == (if x.security == security then [x] else []) + RowsOf(a[1..], security);
    } else {
      assert a + b == b;
    }
  }

  /** Rows none of which has the security contribute nothing. */
  lemma RowsOfAbsent(rows: seq<Snap>, security: string)
    requires forall r :: r in rows ==> r.security != security
    ensures RowsOf(rows, security) == []
  {
    var g := RowsOf(rows, security);
    assert forall k :: 0 <= k < |g| ==> g[k] in g;
  }

  // ---------------------------------------------------------------------------
  // Sorting by timestamp
  // ---------------------------------------------------------------------------

  ghost predicate SortedByTs(rows: seq<Snap>)
  {
    forall i, j :: 0 <= i < j < |rows| ==> rows[i].ts <= rows[j].ts
  }

  /** Insert `x` before the first row that is not earlier than it. */
  function InsertByTs(x: Snap, rows: seq<Snap>): (r: seq<Snap>)
    requires SortedByTs(rows)
    ensures SortedByTs(r)
    ensures multiset(r) == multiset(rows) + multiset{x}
    ensures r != [] && (r[0] == x || (rows != [] && r[0] == rows[0]))
  {
    if rows == [] || x.ts <= rows[0].ts then
      SortedByTsCons(x, rows);
      [x] + rows
    else
      var rest := InsertByTs(x, rows[1..]);
      assert rows == [rows[0]] + rows[1..];
      SortedByTsCons(rows[0], rest);
      [rows[0]] + rest
  }

  /** A row no later than the first of sorted rows can go in front of them. */
  lemma SortedByTsCons(x: Snap, rows: seq<Snap>)
    requires SortedByTs(rows) && (rows != [] ==> x.ts <= rows[0].ts)
    ensures SortedByTs([x] + rows)
  {
  }

  /** A stable sort of the rows by timestamp: rows with equal timestamps keep their order. */
  function SortByTs(rows: seq<Snap>): (r: seq<Snap>)
    ensures SortedByTs(r)
    ensures multiset(r) == multiset(rows)
  {
    if rows == [] then []
    else
      assert rows == [rows[0]] + rows[1..];
      InsertByTs(rows[0], SortByTs(rows[1..]))
  }

  /** Rows already in timestamp order stay in that order when one security's rows are picked out. */
  lemma {:induction false} RowsOfSorted(rows: seq<Snap>, security: string)
    requires SortedByTs(rows)
    ensures SortedByTs(RowsOf(rows, security))
  {
    if rows != [] {
      RowsOfSorted(rows[1..], security);
      var rest := RowsOf(rows[1..], security);
      forall y | y in rest ensures rows[0].ts <= y.ts {
        var k :| 0 <= k < |rows[1..]| && rows[1..][k] == y;
        assert rows[k + 1] == y;
      }
    }
  }

  // ---------------------------------------------------------------------------
  // Sorting by (security id, timestamp)
  // ---------------------------------------------------------------------------

  /** One group of a `groupby` on the security id, its rows in timestamp order. */
  function GroupOf(rows: seq<Snap>, security: string): (g: seq<Snap>)
    ensures SortedByTs(g)
    ensures multiset(g) == multiset(RowsOf(rows, security))
  {
    SortByTs(RowsOf(rows, security))
  }

  /** The groups of `ids`, concatenated in that order. */
  function Grouped(rows: seq<Snap>, ids: seq<string>): seq<Snap>
  {
    if ids == [] then [] else Grouped(rows, ids[..|ids| - 1]) + GroupOf(rows, ids[|ids| - 1])
  }

  /** The rows sorted by security id and then by timestamp, as a sorted `groupby` visits them. */
  function ByKey(rows: seq<Snap>): seq<Snap>
  {
    Grouped(rows, SortedIds(rows))
  }

  /** `x` comes no later than `y` in the order by security id, then timestamp. */
  ghost predicate SnapKeyLe(x: Snap, y: Snap)
  {
    StrLt(x.security, y.security) || (x.security == y.security && x.ts <= y.ts)
  }

  /** The rows whose security is one of `ids`, in their original order. */
  function RowsIn(rows: seq<Snap>, ids: seq<string>): (kept: seq<Snap>)
  {
    if rows == [] then []
    else (if rows[0].security in ids then [rows[0]] else []) + RowsIn(rows[1..], ids)
  }

  /** Adding one more id adds that id's rows. */
  lemma {:induction false} RowsInSplit(rows: seq<Snap>, ids: seq<string>, id: string)
    requires id !in ids
    ensures multiset(RowsIn(rows, ids + [id])) == multiset(RowsIn(rows, ids)) + multiset(RowsOf(rows, id))
  {
    if rows != [] {
      RowsInSplit(rows[1..], ids, id);
      var x := rows[0];
      assert x.security in ids + [id] <==> x.security in ids || x.security == id;
      assert RowsOf(rows, id) == (if x.security == id then [x] else []) + RowsOf(rows[1..], id);
    }
  }

  /** No ids keep no rows. */
  lemma {:induction false} RowsInNone(rows: seq<Snap>)
    ensures RowsIn(rows, []) == []
  {
    if rows != [] {
      RowsInNone(rows[1..]);
    }
  }

  /** Every row's security is among its own ids. */
  lemma {:induction false} RowsInAll(rows: seq<Snap>, ids: seq<string>)
    requires forall r :: r in rows ==> r.security in ids
    ensures RowsIn(rows, ids) == rows
  {
    if rows != [] {
      RowsInAll(rows[1..], ids);
      assert rows == [rows[0]] + rows[1..];
    }
  }

  /** The ids before the last of an ascending list are ascending, distinct from it and all below it. */
  lemma AscendingInit(init: seq<string>, id: string)
    requires StrictlyAscending(init + [id])
    ensures StrictlyAscending(init)
    ensures forall s :: s in init ==> StrLt(s, id)
    ensures id !in init
  {
    var ids := init + [id];
    assert forall k :: 0 <= k < |init| ==> ids[k] == init[k];
    forall s | s in init ensures StrLt(s, id) {
      var k :| 0 <= k < |init| && init[k] == s;
      assert ids[k] == s && ids[|init|] == id;
    }
    if id in init {
      StrLtIrreflexive(id);
    }
  }

  /** One more id appends its group. */
  lemma GroupedStep(rows: seq<Snap>, ids: seq<string>)
    requires ids != []
    ensures Grouped(rows, ids) == Grouped(rows, ids[..|ids| - 1]) + GroupOf(rows, ids[|ids| - 1])
  {
  }

  /** The concatenated groups of distinct ids hold exactly the rows of those ids. */
  lemma {:induction false} GroupedPermutation(rows: seq<Snap>, ids: seq<string>)
    requires StrictlyAscending(ids)
    ensures multiset(Grouped(rows, ids)) == multiset(RowsIn(rows, ids))
  {
    if ids == [] {
      RowsInNone(rows);
    } else {
      var init, id := ids[..|ids| - 1], ids[|ids| - 1];
      assert init + [id] == ids;
      AscendingInit(init, id);
      GroupedPermutation(rows, init);
      GroupedStep(rows, ids);
      RowsInSplit(rows, init, id);
      calc {
        multiset(Grouped(rows, ids));
        multiset(Grouped(rows, init)) + multiset(GroupOf(rows, id));
        multiset(RowsIn(rows, init)) + multiset(RowsOf(rows, id));
        multiset(RowsIn(rows, ids));
      }
    }
  }

  /** Rows in order of security id, then timestamp. */
  ghost predicate KeySorted(rows: seq<Snap>)
  {
    forall a, b :: 0 <= a < b < |rows| ==> SnapKeyLe(rows[a], rows[b])
  }

  /** Appending a timestamp-sorted group of an id above every earlier id keeps the rows in key order. */
  lemma KeySortedAppend(prev: seq<Snap>, last: seq<Snap>, id: string)
    requires KeySorted(prev) && SortedByTs(last)
    requires forall r :: r in prev ==> StrLt(r.security, id)
    requires forall r :: r in last ==> r.security == id
    ensures KeySorted(prev + last)
  {
    var all := prev + last;
    forall a, b | 0 <= a < b < |all| ensures SnapKeyLe(all[a], all[b]) {
      if b >= |prev| {
        assert all[b] == last[b - |prev|] && last[b - |prev|] in last;
        if a < |prev| {
          assert all[a] == prev[a] && prev[a] in prev;
        } else {
          assert all[a] == last[a - |prev|] && last[a - |prev|] in last;
        }
      }
    }
  }

  /** Every row of a group has the group's id. */
  lemma GroupOfIds(rows: seq<Snap>, id: string)
    ensures forall r :: r in GroupOf(rows, id) ==> r.security == id
  {
    forall r | r in GroupOf(rows, id) ensures r.security == id {
      assert r in multiset(GroupOf(rows, id));
    }
  }

  /** The concatenated groups of ascending ids are sorted by security, then timestamp. */
  lemma {:induction false} GroupedSorted(rows: seq<Snap>, ids: seq<string>)
    requires StrictlyAscending(ids)
    ensures KeySorted(Grouped(rows, ids))
  {
    if ids != [] {
      var init, id := ids[..|ids| - 1], ids[|ids| - 1];
      assert init + [id] == ids;
      AscendingInit(init, id);
      GroupedSorted(rows, init);
      GroupedIds(rows, init);
      GroupOfIds(rows, id);
      GroupedStep(rows, ids);
      KeySortedAppend(Grouped(rows, init), GroupOf(rows, id), id);
    }
  }

  /** Every row of the concatenated groups has one of the ids. */
  lemma {:induction false} GroupedIds(rows: seq<Snap>, ids: seq<string>)
    ensures forall r :: r in Grouped(rows, ids) ==> r.security in ids
  {
    if ids != [] {
      var init, id := ids[..|ids| - 1], ids[|ids| - 1];
      GroupedIds(rows, init);
      GroupOfIds(rows, id);
      GroupedStep(rows, ids);
    }
  }

  /** `ByKey` is a permutation of the rows, sorted by security id and then timestamp. */
  lemma ByKeySpec(rows: seq<Snap>)
    ensures multiset(ByKey(rows)) == multiset(rows)
    ensures KeySorted(ByKey(rows))
  {
    var ids := SortedIds(rows);
    GroupedPermutation(rows, ids);
    RowsInAll(rows, ids);
    GroupedSorted(rows, ids);
  }
}
