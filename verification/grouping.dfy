/** Group-by with summed columns and the two orderings the aggregation
    endpoints use: `groupby(key).agg(...)`, `value_counts()` and
    `sort_values(...)`, over rows of a key and four accumulated measures. */
module Grouping {
  import opened Seqs

  /** The accumulated measures of a group: the number of counted records and
      the fatal, serious and minor injury sums. */
  datatype Sums = Sums(count: nat, fatal: real, serious: real, minor: real)

  const Zero := Sums(0, 0.0, 0.0, 0.0)

  function Plus(a: Sums, b: Sums): Sums
  {
    Sums(a.count + b.count, a.fatal + b.fatal, a.serious + b.serious, a.minor + b.minor)
  }

  lemma PlusSwap(a: Sums, b: Sums, c: Sums)
    ensures Plus(b, Plus(a, c)) == Plus(a, Plus(b, c))
  {
  }

  /** A keyed row: one record's contribution before grouping, one group after. */
  datatype Tally<K> = Tally(key: K, sums: Sums)

  /** Column totals over a sequence of rows. */
  function Total<K>(ts: seq<Tally<K>>): Sums
  {
    if |ts| == 0 then Zero else Plus(ts[0].sums, Total(ts[1..]))
  }

  lemma {:induction false} TotalAppend<K>(a: seq<Tally<K>>, b: seq<Tally<K>>)
    ensures Total(a + b) == Plus(Total(a), Total(b))
  {
    if |a| == 0 {
      assert a + b == b;
    } else {
      assert (a + b)[1..] == a[1..] + b;
      TotalAppend(a[1..], b);
    }
  }

  /** Reference definition of a group: the totals of the rows with key `k`. */
  function TotalFor<K(==)>(ts: seq<Tally<K>>, k: K): Sums
  {
    Total(Keep(ts, (t: Tally<K>) => t.key == k))
  }

  lemma TotalForSnoc<K>(ts: seq<Tally<K>>, e: Tally<K>, k: K)
    ensures TotalFor(ts + [e], k) == Plus(TotalFor(ts, k), if e.key == k then e.sums else Zero)
  {
    var p := (t: Tally<K>) => t.key == k;
    KeepAppend(ts, [e], p);
    assert Keep([e], p) == if e.key == k then [e] else [];
    TotalAppend(Keep(ts, p), Keep([e], p));
  }

  lemma TotalForAbsent<K>(ts: seq<Tally<K>>, k: K)
    requires forall i :: 0 <= i < |ts| ==> ts[i].key != k
    ensures TotalFor(ts, k) == Zero
  {
  }

  predicate DistinctKeys<K(==)>(ts: seq<Tally<K>>)
  {
    forall i, j :: 0 <= i < j < |ts| ==> ts[i].key != ts[j].key
  }

  predicate HasKey<K(==)>(ts: seq<Tally<K>>, k: K)
  {
    exists i :: 0 <= i < |ts| && ts[i].key == k
  }

  /** Adds one contribution: merged into the row with its key, or appended as a
      new last row when no row has that key yet. */
  function Absorb<K(==)>(rows: seq<Tally<K>>, e: Tally<K>): (r: seq<Tally<K>>)
    requires DistinctKeys(rows)
    ensures DistinctKeys(r)
    ensures HasKey(rows, e.key) ==> |r| == |rows|
    ensures !HasKey(rows, e.key) ==> |r| == |rows| + 1 && r[|rows|] == e
    ensures forall j :: 0 <= j < |rows| ==>
              r[j].key == rows[j].key
              && r[j].sums == Plus(rows[j].sums, if rows[j].key == e.key then e.sums else Zero)
  {
    if |rows| == 0 then [e]
    else if rows[0].key == e.key then [Tally(e.key, Plus(rows[0].sums, e.sums))] + rows[1..]
    else
      var rest := Absorb(rows[1..], e);
      assert HasKey(rows, e.key) <==> HasKey(rows[1..], e.key) by {
        if HasKey(rows, e.key) {
          var i :| 0 <= i < |rows| && rows[i].key == e.key;
          assert rows[1..][i - 1].key == e.key;
        }
        if HasKey(rows[1..], e.key) {
          var i :| 0 <= i < |rows| - 1 && rows[1..][i].key == e.key;
          assert rows[i + 1].key == e.key;
        }
      }
      [rows[0]] + rest
  }

  /** Each row holds the totals of the contributions with its key. */
  predicate RowsAreTotals<K(==)>(rows: seq<Tally<K>>, es: seq<Tally<K>>)
  {
    forall j :: 0 <= j < |rows| ==> rows[j].sums == TotalFor(es, rows[j].key)
  }

  /** Every row key occurs among the contributions. */
  predicate RowKeysOccur<K(==)>(rows: seq<Tally<K>>, es: seq<Tally<K>>)
  {
    forall j :: 0 <= j < |rows| ==> HasKey(es, rows[j].key)
  }

  /** Every contribution key has a row. */
  predicate KeysCovered<K(==)>(rows: seq<Tally<K>>, es: seq<Tally<K>>)
  {
    forall i :: 0 <= i < |es| ==> HasKey(rows, es[i].key)
  }

  /** `rows` is the grouping of `es`: distinct keys, exactly the keys of `es`,
      and each row holding the totals of the contributions with its key. */
  predicate GroupsOf<K(==)>(rows: seq<Tally<K>>, es: seq<Tally<K>>)
  {
    && DistinctKeys(rows)
    && |rows| <= |es|
    && RowsAreTotals(rows, es)
    && RowKeysOccur(rows, es)
    && KeysCovered(rows, es)
  }

  /** One row per distinct key, in order of first appearance. */
  function Group<K(==)>(es: seq<Tally<K>>): (rows: seq<Tally<K>>)
    ensures GroupsOf(rows, es)
  {
    if |es| == 0 then []
    else
      var before := Group(es[..|es| - 1]);
      GroupStep(es, before);
      Absorb(before, es[|es| - 1])
  }

  /** Absorbing one more contribution keeps the grouping invariant. */
  lemma GroupStep<K>(es: seq<Tally<K>>, before: seq<Tally<K>>)
    requires |es| > 0 && GroupsOf(before, es[..|es| - 1])
    ensures GroupsOf(Absorb(before, es[|es| - 1]), es)
  {
    var prefix, e := es[..|es| - 1], es[|es| - 1];
    assert es == prefix + [e];
    StepTotals(prefix, e, before);
    StepKeysOccur(prefix, e, before);
    StepKeysCovered(prefix, e, before);
  }

  lemma StepTotals<K>(prefix: seq<Tally<K>>, e: Tally<K>, before: seq<Tally<K>>)
    requires DistinctKeys(before) && RowsAreTotals(before, prefix) && KeysCovered(before, prefix)
    ensures RowsAreTotals(Absorb(before, e), prefix + [e])
  {
    var es := prefix + [e];
    var rows := Absorb(before, e);
    forall j | 0 <= j < |rows|
      ensures rows[j].sums == TotalFor(es, rows[j].key)
    {
      TotalForSnoc(prefix, e, rows[j].key);
      if j == |before| {
        NoRowNoContribution(prefix, e.key, before);
        TotalForAbsent(prefix, e.key);
      }
    }
  }

  lemma StepKeysOccur<K>(prefix: seq<Tally<K>>, e: Tally<K>, before: seq<Tally<K>>)
    requires DistinctKeys(before) && RowKeysOccur(before, prefix)
    ensures RowKeysOccur(Absorb(before, e), prefix + [e])
  {
    var es := prefix + [e];
    var rows := Absorb(before, e);
    forall j | 0 <= j < |rows|
      ensures HasKey(es, rows[j].key)
    {
      if j < |before| {
        assert HasKey(prefix, before[j].key);
        var i :| 0 <= i < |prefix| && prefix[i].key == before[j].key;
        assert es[i] == prefix[i];
      } else {
        assert es[|es| - 1].key == rows[j].key;
      }
    }
  }

  lemma StepKeysCovered<K>(prefix: seq<Tally<K>>, e: Tally<K>, before: seq<Tally<K>>)
    requires DistinctKeys(before) && KeysCovered(before, prefix)
    ensures KeysCovered(Absorb(before, e), prefix + [e])
  {
    var es := prefix + [e];
    var rows := Absorb(before, e);
    forall i | 0 <= i < |es|
      ensures HasKey(rows, es[i].key)
    {
      if i < |prefix| {
        assert HasKey(before, prefix[i].key);
        var j :| 0 <= j < |before| && before[j].key == prefix[i].key;
        assert rows[j].key == es[i].key;
      } else if HasKey(before, e.key) {
        var j :| 0 <= j < |before| && before[j].key == e.key;
        assert rows[j].key == e.key;
      } else {
        assert rows[|before|].key == e.key;
      }
    }
  }

  lemma NoRowNoContribution<K>(es: seq<Tally<K>>, k: K, rows: seq<Tally<K>>)
    requires KeysCovered(rows, es)
    requires !HasKey(rows, k)
    ensures forall i :: 0 <= i < |es| ==> es[i].key != k
  {
    forall i | 0 <= i < |es|
      ensures es[i].key != k
    {
      assert HasKey(rows, es[i].key);
    }
  }

  lemma {:induction false} AbsorbTotal<K>(rows: seq<Tally<K>>, e: Tally<K>)
    requires DistinctKeys(rows)
    ensures Total(Absorb(rows, e)) == Plus(Total(rows), e.sums)
  {
    var r := Absorb(rows, e);
    if |rows| == 0 {
      assert r == [e];
      assert r[1..] == [];
    } else if rows[0].key == e.key {
      assert r == [Tally(e.key, Plus(rows[0].sums, e.sums))] + rows[1..];
      assert r[1..] == rows[1..];
      PlusSwap(e.sums, rows[0].sums, Total(rows[1..]));
    } else {
      AbsorbTotal(rows[1..], e);
      assert r == [rows[0]] + Absorb(rows[1..], e);
      assert r[1..] == Absorb(rows[1..], e);
      PlusSwap(e.sums, rows[0].sums, Total(rows[1..]));
    }
  }

  /** Grouping unfolds by one appended entry: it absorbs the last entry into
      the groups of the others. */
  lemma GroupSnoc<K>(es: seq<Tally<K>>)
    requires |es| > 0
    ensures Group(es) == Absorb(Group(es[..|es| - 1]), es[|es| - 1])
  {
  }

  lemma TotalSnoc<K>(es: seq<Tally<K>>)
    requires |es| > 0
    ensures Total(es) == Plus(Total(es[..|es| - 1]), es[|es| - 1].sums)
  {
    var e := es[|es| - 1];
    assert es == es[..|es| - 1] + [e];
    TotalAppend(es[..|es| - 1], [e]);
    assert Total([e]) == Plus(e.sums, Total([e][1..]));
    assert [e][1..] == [];
  }

  /** Grouping neither loses nor double-counts: the groups' totals add up to the
      totals of all contributions. */
  lemma {:induction false} GroupPreservesTotal<K>(es: seq<Tally<K>>)
    ensures Total(Group(es)) == Total(es)
  {
    if |es| > 0 {
      var prefix := es[..|es| - 1];
      GroupSnoc(es);
      GroupPreservesTotal(prefix);
      AbsorbTotal(Group(prefix), es[|es| - 1]);
      TotalSnoc(es);
    }
  }

  // ---------------------------------------------------------------------------
  // Orderings

  /** Non-increasing by count: `sort_values(..., ascending=False)`. Nothing is
      promised about the relative order of rows with equal counts. */
  predicate ByCountDescending<K>(ts: seq<Tally<K>>)
  {
    forall i, j :: 0 <= i < j < |ts| ==> ts[i].sums.count >= ts[j].sums.count
  }

  function InsertByCount<K>(t: Tally<K>, sorted: seq<Tally<K>>): (r: seq<Tally<K>>)
    requires ByCountDescending(sorted)
    ensures ByCountDescending(r)
    ensures multiset(r) == multiset(sorted) + multiset{t}
    ensures |r| == |sorted| + 1
    ensures r[0] == t || (|sorted| > 0 && r[0] == sorted[0])
  {
    if |sorted| == 0 then [t]
    else if t.sums.count >= sorted[0].sums.count then [t] + sorted
    else
      var rest := InsertByCount(t, sorted[1..]);
      assert sorted == [sorted[0]] + sorted[1..];
      assert sorted[0].sums.count >= rest[0].sums.count;
      [sorted[0]] + rest
  }

  lemma {:induction false} InsertByCountTotal<K>(t: Tally<K>, sorted: seq<Tally<K>>)
    requires ByCountDescending(sorted)
    ensures Total(InsertByCount(t, sorted)) == Plus(t.sums, Total(sorted))
  {
    var r := InsertByCount(t, sorted);
    if |sorted| == 0 {
      assert r == [t];
      assert r[1..] == [];
    } else if t.sums.count >= sorted[0].sums.count {
      assert r == [t] + sorted;
      assert r[1..] == sorted;
    } else {
      InsertByCountTotal(t, sorted[1..]);
      assert r == [sorted[0]] + InsertByCount(t, sorted[1..]);
      assert r[1..] == InsertByCount(t, sorted[1..]);
      PlusSwap(t.sums, sorted[0].sums, Total(sorted[1..]));
    }
  }

  lemma {:induction false} InsertByCountDistinct<K>(t: Tally<K>, sorted: seq<Tally<K>>)
    requires ByCountDescending(sorted) && DistinctKeys(sorted)
    requires forall i :: 0 <= i < |sorted| ==> sorted[i].key != t.key
    ensures DistinctKeys(InsertByCount(t, sorted))
  {
    if |sorted| > 0 && t.sums.count < sorted[0].sums.count {
      InsertByCountDistinct(t, sorted[1..]);
      var rest := InsertByCount(t, sorted[1..]);
      var src := sorted[1..] + [t];
      assert multiset(src) == multiset(sorted[1..]) + multiset{t};
      assert forall i :: 0 <= i < |src| ==> src[i].key != sorted[0].key by {
        forall i | 0 <= i < |src| ensures src[i].key != sorted[0].key {
          if i < |sorted| - 1 {
            assert src[i] == sorted[i + 1];
          }
        }
      }
      PermutationAvoidsKey(rest, src, sorted[0].key);
    }
  }

  /** Rows reordered by non-increasing count: a permutation with the same totals. */
  function SortByCount<K>(ts: seq<Tally<K>>): (r: seq<Tally<K>>)
    ensures ByCountDescending(r)
    ensures multiset(r) == multiset(ts)
    ensures |r| == |ts|
  {
    if |ts| == 0 then []
    else
      var rest := SortByCount(ts[1..]);
      assert ts == [ts[0]] + ts[1..];
      InsertByCount(ts[0], rest)
  }

  lemma {:induction false} SortByCountKeeps<K>(ts: seq<Tally<K>>)
    ensures Total(SortByCount(ts)) == Total(ts)
    ensures DistinctKeys(ts) ==> DistinctKeys(SortByCount(ts))
  {
    if |ts| > 0 {
      var rest := SortByCount(ts[1..]);
      SortByCountKeeps(ts[1..]);
      InsertByCountTotal(ts[0], rest);
      if DistinctKeys(ts) {
        assert DistinctKeys(ts[1..]);
        TailAvoidsHeadKey(ts);
        PermutationAvoidsKey(rest, ts[1..], ts[0].key);
        InsertByCountDistinct(ts[0], rest);
      }
    }
  }

  /** Strictly increasing keys: `groupby` on an integer key. */
  predicate ByKeyAscending(ts: seq<Tally<int>>)
  {
    forall i, j :: 0 <= i < j < |ts| ==> ts[i].key < ts[j].key
  }

  function InsertByKey(t: Tally<int>, sorted: seq<Tally<int>>): (r: seq<Tally<int>>)
    requires ByKeyAscending(sorted)
    requires forall i :: 0 <= i < |sorted| ==> sorted[i].key != t.key
    ensures ByKeyAscending(r)
    ensures multiset(r) == multiset(sorted) + multiset{t}
    ensures |r| == |sorted| + 1
    ensures r[0] == t || (|sorted| > 0 && r[0] == sorted[0])
  {
    if |sorted| == 0 then [t]
    else if t.key < sorted[0].key then [t] + sorted
    else
      var tail := sorted[1..];
      assert forall i :: 0 <= i < |tail| ==> tail[i] == sorted[i + 1];
      var rest := InsertByKey(t, tail);
      assert sorted == [sorted[0]] + tail;
      assert sorted[0].key < rest[0].key;
      [sorted[0]] + rest
  }

  lemma {:induction false} InsertByKeyTotal(t: Tally<int>, sorted: seq<Tally<int>>)
    requires ByKeyAscending(sorted)
    requires forall i :: 0 <= i < |sorted| ==> sorted[i].key != t.key
    ensures Total(InsertByKey(t, sorted)) == Plus(t.sums, Total(sorted))
  {
    var r := InsertByKey(t, sorted);
    if |sorted| == 0 {
      assert r == [t];
      assert r[1..] == [];
    } else if t.key < sorted[0].key {
      assert r == [t] + sorted;
      assert r[1..] == sorted;
    } else {
      InsertByKeyTotal(t, sorted[1..]);
      assert r == [sorted[0]] + InsertByKey(t, sorted[1..]);
      assert r[1..] == InsertByKey(t, sorted[1..]);
      PlusSwap(t.sums, sorted[0].sums, Total(sorted[1..]));
    }
  }

  /** Rows with distinct integer keys reordered by increasing key. */
  function SortByKey(ts: seq<Tally<int>>): (r: seq<Tally<int>>)
    requires DistinctKeys(ts)
    ensures ByKeyAscending(r)
    ensures multiset(r) == multiset(ts)
    ensures |r| == |ts|
  {
    if |ts| == 0 then []
    else
      var rest := SortByKey(ts[1..]);
      assert multiset(ts) == multiset(ts[1..]) + multiset{ts[0]} by {
        assert ts == [ts[0]] + ts[1..];
      }
      TailAvoidsHeadKey(ts);
      PermutationAvoidsKey(rest, ts[1..], ts[0].key);
      InsertByKey(ts[0], rest)
  }

  lemma {:induction false} SortByKeyTotal(ts: seq<Tally<int>>)
    requires DistinctKeys(ts)
    ensures Total(SortByKey(ts)) == Total(ts)
  {
    if |ts| > 0 {
      var rest := SortByKey(ts[1..]);
      SortByKeyTotal(ts[1..]);
      TailAvoidsHeadKey(ts);
      PermutationAvoidsKey(rest, ts[1..], ts[0].key);
      InsertByKeyTotal(ts[0], rest);
    }
  }

  lemma TailAvoidsHeadKey<K>(ts: seq<Tally<K>>)
    requires |ts| > 0 && DistinctKeys(ts)
    ensures forall i :: 0 <= i < |ts| - 1 ==> ts[1..][i].key != ts[0].key
  {
    forall i | 0 <= i < |ts| - 1 ensures ts[1..][i].key != ts[0].key {
      assert ts[1..][i] == ts[i + 1];
    }
  }

  /** A key no row has stays absent under reordering. */
  lemma PermutationAvoidsKey<K>(r: seq<Tally<K>>, ts: seq<Tally<K>>, k: K)
    requires multiset(r) == multiset(ts)
    requires forall i :: 0 <= i < |ts| ==> ts[i].key != k
    ensures forall j :: 0 <= j < |r| ==> r[j].key != k
  {
    forall j | 0 <= j < |r| ensures r[j].key != k {
      assert r[j] in multiset(ts);
      var i :| 0 <= i < |ts| && ts[i] == r[j];
    }
  }

  /** Every row of a multiset-preserving reordering is still there. */
  lemma PermutationKeepsRows<K>(ts: seq<Tally<K>>, r: seq<Tally<K>>)
    requires multiset(r) == multiset(ts)
    ensures forall j :: 0 <= j < |ts| ==> ts[j] in r
  {
    forall j | 0 <= j < |ts|
      ensures ts[j] in r
    {
      assert ts[j] in multiset(ts);
    }
  }
}
