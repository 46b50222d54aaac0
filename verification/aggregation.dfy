/** The aggregation endpoints: accidents by year, the top makes and countries,
    the injury-severity distribution and the severity-score ranges. */
module Aggregation {
  import opened Wrappers
  import opened Seqs
  import opened Records
  import opened Grouping

  // ---------------------------------------------------------------------------
  // Contributions of records to groups

  /** What one record adds to its group in the by-year, by-make and by-country
      tables: 1 to `count('Event Id')` when it has an event id (a missing id is
      not counted), and its three injury counts to the sums. */
  function Counted(a: Accident): Sums
  {
    Sums(if a.eventId.Some? then 1 else 0, a.fatal, a.serious, a.minor)
  }

  /** What one record adds in `value_counts()`: one row. */
  function Labelled(a: Accident): Sums
  {
    Sums(1, 0.0, 0.0, 0.0)
  }

  /** Group keys; a record whose key is missing joins no group (`groupby`
      and `value_counts` drop NaN keys). */
  function YearOf(a: Accident): Option<int> { a.year }
  function MakeOf(a: Accident): Option<string> { a.make }
  function CountryOf(a: Accident): Option<string> { a.country }
  function LabelOf(a: Accident): Option<string> { a.injurySeverity }

  /** Accumulated measures of a sequence of records. */
  function Measure(recs: seq<Accident>, weight: Accident -> Sums): Sums
  {
    if |recs| == 0 then Zero else Plus(weight(recs[0]), Measure(recs[1..], weight))
  }

  lemma {:induction false} MeasureAppend(a: seq<Accident>, b: seq<Accident>, weight: Accident -> Sums)
    ensures Measure(a + b, weight) == Plus(Measure(a, weight), Measure(b, weight))
  {
    if |a| == 0 {
      assert a + b == b;
    } else {
      assert (a + b)[1..] == a[1..] + b;
      MeasureAppend(a[1..], b, weight);
    }
  }

  /** Counting one per record gives the number of records. */
  lemma {:induction false} MeasureLabelledCount(recs: seq<Accident>)
    ensures Measure(recs, Labelled).count == |recs|
  {
    if |recs| > 0 {
      MeasureLabelledCount(recs[1..]);
    }
  }

  /** The records whose key is `k`, in their original order. */
  function Members<K(==)>(recs: seq<Accident>, key: Accident -> Option<K>, k: K): seq<Accident>
  {
    Keep(recs, (a: Accident) => key(a) == Some(k))
  }

  /** The records that have a key at all. */
  function Keyed<K>(recs: seq<Accident>, key: Accident -> Option<K>): seq<Accident>
  {
    Keep(recs, (a: Accident) => key(a).Some?)
  }

  /** Some record has key `k`. */
  predicate Occurs<K(==)>(recs: seq<Accident>, key: Accident -> Option<K>, k: K)
  {
    exists i :: 0 <= i < |recs| && key(recs[i]) == Some(k)
  }

  /** One contribution per record that has a key. */
  function Entries<K>(recs: seq<Accident>, key: Accident -> Option<K>, weight: Accident -> Sums)
    : (es: seq<Tally<K>>)
    ensures |es| <= |recs|
  {
    if |recs| == 0 then []
    else
      (match key(recs[0]) case Some(k) => [Tally(k, weight(recs[0]))] case None => [])
      + Entries(recs[1..], key, weight)
  }

  /** A group's reference value: the measures of exactly the records with its key. */
  lemma {:induction false} EntriesTotalFor<K>(recs: seq<Accident>, key: Accident -> Option<K>,
                                            weight: Accident -> Sums, k: K)
    ensures TotalFor(Entries(recs, key, weight), k) == Measure(Members(recs, key, k), weight)
  {
    if |recs| > 0 {
      var a := recs[0];
      var head: seq<Tally<K>> := match key(a) case Some(k') => [Tally(k', weight(a))] case None => [];
      var rest := Entries(recs[1..], key, weight);
      var p := (t: Tally<K>) => t.key == k;
      EntriesTotalFor(recs[1..], key, weight, k);
      KeepAppend(head, rest, p);
      TotalAppend(Keep(head, p), Keep(rest, p));
      var q := (a: Accident) => key(a) == Some(k);
      var mhead := if q(a) then [a] else [];
      MeasureAppend(mhead, Keep(recs[1..], q), weight);
      assert Members(recs, key, k) == mhead + Members(recs[1..], key, k);
      if q(a) {
        assert Keep(head, p) == head;
        assert Total(head) == Plus(weight(a), Total(head[1..]));
        assert head[1..] == [];
        assert Measure(mhead, weight) == Plus(weight(a), Measure(mhead[1..], weight));
        assert mhead[1..] == [];
      } else {
        assert Keep(head, p) == [];
      }
    }
  }

  /** All groups together: the measures of the records that have a key. */
  lemma {:induction false} EntriesTotal<K>(recs: seq<Accident>, key: Accident -> Option<K>,
                                         weight: Accident -> Sums)
    ensures Total(Entries(recs, key, weight)) == Measure(Keyed(recs, key), weight)
  {
    if |recs| > 0 {
      var a := recs[0];
      var head: seq<Tally<K>> := match key(a) case Some(k') => [Tally(k', weight(a))] case None => [];
      EntriesTotal(recs[1..], key, weight);
      TotalAppend(head, Entries(recs[1..], key, weight));
      var q := (a: Accident) => key(a).Some?;
      var mhead := if q(a) then [a] else [];
      MeasureAppend(mhead, Keep(recs[1..], q), weight);
      assert Keyed(recs, key) == mhead + Keyed(recs[1..], key);
      if q(a) {
        assert Total(head) == Plus(weight(a), Total(head[1..]));
        assert head[1..] == [];
        assert Measure(mhead, weight) == Plus(weight(a), Measure(mhead[1..], weight));
        assert mhead[1..] == [];
      }
    }
  }

  /** The contribution keys are exactly the record keys. */
  lemma {:induction false} EntriesKeys<K>(recs: seq<Accident>, key: Accident -> Option<K>,
                                        weight: Accident -> Sums, k: K)
    ensures HasKey(Entries(recs, key, weight), k) <==> Occurs(recs, key, k)
  {
    if |recs| > 0 {
      var a := recs[0];
      var head: seq<Tally<K>> := match key(a) case Some(k') => [Tally(k', weight(a))] case None => [];
      var rest := Entries(recs[1..], key, weight);
      var es := Entries(recs, key, weight);
      assert es == head + rest;
      EntriesKeys(recs[1..], key, weight, k);
      if HasKey(es, k) {
        var i :| 0 <= i < |es| && es[i].key == k;
        if i >= |head| {
          assert rest[i - |head|].key == k;
          var m :| 0 <= m < |recs| - 1 && key(recs[1..][m]) == Some(k);
          assert key(recs[m + 1]) == Some(k);
        }
      }
      if Occurs(recs, key, k) {
        var m :| 0 <= m < |recs| && key(recs[m]) == Some(k);
        if m == 0 {
          assert es[0].key == k;
        } else {
          assert key(recs[1..][m - 1]) == Some(k);
          var i :| 0 <= i < |rest| && rest[i].key == k;
          assert es[i + |head|].key == k;
        }
      }
    }
  }

  /** Facts every reordering of a grouping inherits, row by row. */
  lemma RowsOfGrouping<K>(recs: seq<Accident>, key: Accident -> Option<K>, weight: Accident -> Sums,
                          g: seq<Tally<K>>, rows: seq<Tally<K>>)
    requires GroupsOf(g, Entries(recs, key, weight))
    requires forall j :: 0 <= j < |rows| ==> rows[j] in g
    ensures forall j :: 0 <= j < |rows| ==>
              rows[j].sums == Measure(Members(recs, key, rows[j].key), weight)
              && Occurs(recs, key, rows[j].key)
  {
    var es := Entries(recs, key, weight);
    forall j | 0 <= j < |rows|
      ensures rows[j].sums == Measure(Members(recs, key, rows[j].key), weight)
      ensures Occurs(recs, key, rows[j].key)
    {
      var m :| 0 <= m < |g| && g[m] == rows[j];
      assert rows[j].sums == TotalFor(es, rows[j].key);
      EntriesTotalFor(recs, key, weight, rows[j].key);
      assert HasKey(es, g[m].key);
      EntriesKeys(recs, key, weight, rows[j].key);
    }
  }

  /** Every record key has a row in a grouping, hence in any reordering that
      keeps all of its rows. */
  lemma KeysOfGrouping<K>(recs: seq<Accident>, key: Accident -> Option<K>, weight: Accident -> Sums,
                          g: seq<Tally<K>>, rows: seq<Tally<K>>)
    requires KeysCovered(g, Entries(recs, key, weight))
    requires forall j :: 0 <= j < |g| ==> g[j] in rows
    ensures forall i :: 0 <= i < |recs| && key(recs[i]).Some? ==> HasKey(rows, key(recs[i]).value)
  {
    forall i | 0 <= i < |recs| && key(recs[i]).Some?
      ensures HasKey(rows, key(recs[i]).value)
    {
      KeyHasRow(recs, key, weight, g, rows, i);
    }
  }

  lemma KeyHasRow<K>(recs: seq<Accident>, key: Accident -> Option<K>, weight: Accident -> Sums,
                     g: seq<Tally<K>>, rows: seq<Tally<K>>, i: int)
    requires KeysCovered(g, Entries(recs, key, weight))
    requires forall j :: 0 <= j < |g| ==> g[j] in rows
    requires 0 <= i < |recs| && key(recs[i]).Some?
    ensures HasKey(rows, key(recs[i]).value)
  {
    var es := Entries(recs, key, weight);
    var k := key(recs[i]).value;
    EntriesKeys(recs, key, weight, k);
    var n :| 0 <= n < |es| && es[n].key == k;
    assert HasKey(g, es[n].key);
    var m :| 0 <= m < |g| && g[m].key == k;
    assert g[m] in rows;
    var r :| 0 <= r < |rows| && rows[r] == g[m];
    assert rows[r].key == k;
  }

  // ---------------------------------------------------------------------------
  // /api/accidents/by-year

  /** One row per year that occurs, in increasing year order: the number of
      that year's records with an event id and the three injury sums over all
      of that year's records. Records without a year are in no row. */
  function ByYear(recs: seq<Accident>): (rows: seq<Tally<int>>)
    ensures ByKeyAscending(rows)
    ensures forall j :: 0 <= j < |rows| ==>
              rows[j].sums == Measure(Members(recs, YearOf, rows[j].key), Counted)
              && Occurs(recs, YearOf, rows[j].key)
    ensures forall i :: 0 <= i < |recs| && recs[i].year.Some? ==> HasKey(rows, recs[i].year.value)
  {
    var g := Group(Entries(recs, YearOf, Counted));
    var rows := SortByKey(g);
    ReorderedRows(recs, YearOf, Counted, g, rows);
    ReorderedKeys(recs, YearOf, Counted, g, rows);
    rows
  }

  /** A reordering of a grouping keeps the grouping's rows, so each of its
      rows measures its key's records. */
  lemma ReorderedRows<K>(recs: seq<Accident>, key: Accident -> Option<K>, weight: Accident -> Sums,
                         g: seq<Tally<K>>, rows: seq<Tally<K>>)
    requires GroupsOf(g, Entries(recs, key, weight))
    requires multiset(rows) == multiset(g)
    ensures forall j :: 0 <= j < |rows| ==>
              rows[j].sums == Measure(Members(recs, key, rows[j].key), weight)
              && Occurs(recs, key, rows[j].key)
  {
    PermutationKeepsRows(rows, g);
    RowsOfGrouping(recs, key, weight, g, rows);
  }

  /** A reordering of a grouping still has a row for every record key. */
  lemma ReorderedKeys<K>(recs: seq<Accident>, key: Accident -> Option<K>, weight: Accident -> Sums,
                         g: seq<Tally<K>>, rows: seq<Tally<K>>)
    requires KeysCovered(g, Entries(recs, key, weight))
    requires multiset(rows) == multiset(g)
    ensures forall i :: 0 <= i < |recs| && key(recs[i]).Some? ==> HasKey(rows, key(recs[i]).value)
  {
    PermutationKeepsRows(g, rows);
    KeysOfGrouping(recs, key, weight, g, rows);
  }

  /** The by-year table partitions the dated records: its columns add up to
      the event-id count and the injury sums over all records with a year. */
  lemma ByYearPartitionsDatedRecords(recs: seq<Accident>)
    ensures Total(ByYear(recs)) == Measure(Keyed(recs, YearOf), Counted)
  {
    var es := Entries(recs, YearOf, Counted);
    var g := Group(es);
    SortByKeyTotal(g);
    GroupPreservesTotal(es);
    EntriesTotal(recs, YearOf, Counted);
  }

  // ---------------------------------------------------------------------------
  // /api/accidents/by-airline and /api/accidents/by-location

  /** Number of rows `head(20)` keeps. */
  const TopN: nat := 20

  /** The leading groups by record count: `groupby(key)`, count event ids and
      sum fatalities, sort by count descending, keep the first twenty. Among
      groups with equal counts no order, and so no choice at the cut, is promised. */
  function Leaders(recs: seq<Accident>, key: Accident -> Option<string>): (rows: seq<Tally<string>>)
    ensures |rows| <= TopN
    ensures ByCountDescending(rows) && DistinctKeys(rows)
    ensures forall j :: 0 <= j < |rows| ==>
              rows[j].sums == Measure(Members(recs, key, rows[j].key), Counted)
              && Occurs(recs, key, rows[j].key)
    ensures forall k :: Occurs(recs, key, k) && !HasKey(rows, k) ==>
              |rows| == TopN
              && forall j :: 0 <= j < |rows| ==>
                   rows[j].sums.count >= Measure(Members(recs, key, k), Counted).count
  {
    var g := Group(Entries(recs, key, Counted));
    var sorted := SortByCount(g);
    var rows := sorted[..Min(TopN, |sorted|)];
    LeadersFacts(recs, key, g, sorted, rows);
    rows
  }

  lemma LeadersFacts(recs: seq<Accident>, key: Accident -> Option<string>,
                     g: seq<Tally<string>>, sorted: seq<Tally<string>>, rows: seq<Tally<string>>)
    requires g == Group(Entries(recs, key, Counted))
    requires sorted == SortByCount(g)
    requires rows == sorted[..Min(TopN, |sorted|)]
    ensures |rows| <= TopN
    ensures ByCountDescending(rows) && DistinctKeys(rows)
    ensures forall j :: 0 <= j < |rows| ==>
              rows[j].sums == Measure(Members(recs, key, rows[j].key), Counted)
              && Occurs(recs, key, rows[j].key)
    ensures forall k :: Occurs(recs, key, k) && !HasKey(rows, k) ==>
              |rows| == TopN
              && forall j :: 0 <= j < |rows| ==>
                   rows[j].sums.count >= Measure(Members(recs, key, k), Counted).count
  {
    SortByCountKeeps(g);
    CutKeepsOrder(sorted, rows);
    PermutationKeepsRows(sorted, g);
    RowsOfGrouping(recs, key, Counted, g, sorted);
    PermutationKeepsRows(g, sorted);
    LeadersOutrankTheRest(recs, key, g, sorted, rows);
  }

  lemma LeadersOutrankTheRest(recs: seq<Accident>, key: Accident -> Option<string>,
                              g: seq<Tally<string>>, sorted: seq<Tally<string>>,
                              rows: seq<Tally<string>>)
    requires KeysCovered(g, Entries(recs, key, Counted))
    requires RowsAreTotals(g, Entries(recs, key, Counted))
    requires ByCountDescending(sorted)
    requires forall j :: 0 <= j < |g| ==> g[j] in sorted
    requires rows == sorted[..Min(TopN, |sorted|)]
    ensures forall k :: Occurs(recs, key, k) && !HasKey(rows, k) ==>
              |rows| == TopN
              && forall j :: 0 <= j < |rows| ==>
                   rows[j].sums.count >= Measure(Members(recs, key, k), Counted).count
  {
    forall k | Occurs(recs, key, k) && !HasKey(rows, k)
      ensures |rows| == TopN
      ensures forall j :: 0 <= j < |rows| ==>
                rows[j].sums.count >= Measure(Members(recs, key, k), Counted).count
    {
      OutrankOne(recs, key, g, sorted, rows, k);
    }
  }

  /** A key that occurs but missed the cut ranks no higher than any row kept. */
  lemma OutrankOne(recs: seq<Accident>, key: Accident -> Option<string>,
                   g: seq<Tally<string>>, sorted: seq<Tally<string>>,
                   rows: seq<Tally<string>>, k: string)
    requires KeysCovered(g, Entries(recs, key, Counted))
    requires RowsAreTotals(g, Entries(recs, key, Counted))
    requires ByCountDescending(sorted)
    requires forall j :: 0 <= j < |g| ==> g[j] in sorted
    requires rows == sorted[..Min(TopN, |sorted|)]
    requires Occurs(recs, key, k) && !HasKey(rows, k)
    ensures |rows| == TopN
    ensures forall j :: 0 <= j < |rows| ==>
              rows[j].sums.count >= Measure(Members(recs, key, k), Counted).count
  {
    var s := MissedRow(recs, key, g, sorted, rows, k);
    forall j | 0 <= j < |rows|
      ensures rows[j].sums.count >= sorted[s].sums.count
    {
      assert rows[j] == sorted[j];
    }
  }

  /** The row of a key that missed the cut sits after the cut. */
  lemma MissedRow(recs: seq<Accident>, key: Accident -> Option<string>,
                  g: seq<Tally<string>>, sorted: seq<Tally<string>>,
                  rows: seq<Tally<string>>, k: string) returns (s: nat)
    requires KeysCovered(g, Entries(recs, key, Counted))
    requires RowsAreTotals(g, Entries(recs, key, Counted))
    requires forall j :: 0 <= j < |g| ==> g[j] in sorted
    requires rows == sorted[..Min(TopN, |sorted|)]
    requires Occurs(recs, key, k) && !HasKey(rows, k)
    ensures |rows| <= s < |sorted|
    ensures sorted[s].sums == Measure(Members(recs, key, k), Counted)
  {
    var es := Entries(recs, key, Counted);
    EntriesKeys(recs, key, Counted, k);
    var n :| 0 <= n < |es| && es[n].key == k;
    assert HasKey(g, es[n].key);
    var m :| 0 <= m < |g| && g[m].key == k;
    assert g[m] in sorted;
    assert forall j :: 0 <= j < |rows| ==> sorted[j].key != k by {
      forall j | 0 <= j < |rows|
        ensures sorted[j].key != k
      {
        assert rows[j] == sorted[j];
      }
    }
    s :| 0 <= s < |sorted| && sorted[s] == g[m];
    EntriesTotalFor(recs, key, Counted, k);
    assert g[m].sums == TotalFor(es, k);
  }

  lemma CutKeepsOrder(sorted: seq<Tally<string>>, rows: seq<Tally<string>>)
    requires rows == sorted[..Min(TopN, |sorted|)]
    requires ByCountDescending(sorted) && DistinctKeys(sorted)
    ensures |rows| <= TopN && ByCountDescending(rows) && DistinctKeys(rows)
    ensures forall j :: 0 <= j < |rows| ==> rows[j] in sorted
  {
    assert forall j :: 0 <= j < |rows| ==> rows[j] == sorted[j];
  }

  /** `/api/accidents/by-airline`: the twenty makes with most accidents. */
  function ByMake(recs: seq<Accident>): seq<Tally<string>>
  {
    Leaders(recs, MakeOf)
  }

  /** `/api/accidents/by-location`: the twenty countries with most accidents. */
  function ByCountry(recs: seq<Accident>): seq<Tally<string>>
  {
    Leaders(recs, CountryOf)
  }

  // ---------------------------------------------------------------------------
  // /api/accidents/severity-distribution

  /** `value_counts()` of the injury-severity label: one row per distinct label,
      counting the records that carry it, by non-increasing count. */
  function SeverityDistribution(recs: seq<Accident>): (rows: seq<Tally<string>>)
    ensures ByCountDescending(rows) && DistinctKeys(rows)
    ensures forall j :: 0 <= j < |rows| ==>
              rows[j].sums.count == |Members(recs, LabelOf, rows[j].key)|
              && Occurs(recs, LabelOf, rows[j].key)
    ensures forall i :: 0 <= i < |recs| && recs[i].injurySeverity.Some?
              ==> HasKey(rows, recs[i].injurySeverity.value)
  {
    var g := Group(Entries(recs, LabelOf, Labelled));
    var rows := SortByCount(g);
    SortByCountKeeps(g);
    ReorderedRows(recs, LabelOf, Labelled, g, rows);
    ReorderedKeys(recs, LabelOf, Labelled, g, rows);
    forall j | 0 <= j < |rows|
      ensures rows[j].sums.count == |Members(recs, LabelOf, rows[j].key)|
    {
      MeasureLabelledCount(Members(recs, LabelOf, rows[j].key));
    }
    rows
  }

  /** The distribution neither drops nor double-counts a labelled record: its
      counts add up to the number of records with a severity label. */
  lemma SeverityCountsSumToLabelled(recs: seq<Accident>)
    ensures Total(SeverityDistribution(recs)).count == |Keyed(recs, LabelOf)|
  {
    var es := Entries(recs, LabelOf, Labelled);
    var g := Group(es);
    SortByCountKeeps(g);
    GroupPreservesTotal(es);
    EntriesTotal(recs, LabelOf, Labelled);
    MeasureLabelledCount(Keyed(recs, LabelOf));
  }

  // ---------------------------------------------------------------------------
  // /api/target-distributions

  /** The five severity-score ranges of the regression-target histogram. */
  datatype ScoreRange = NoInjuries | MinorRange | ModerateRange | SeriousRange | SevereRange

  const Ranges: seq<ScoreRange> := [NoInjuries, MinorRange, ModerateRange, SeriousRange, SevereRange]

  function RangeLabel(b: ScoreRange): string
  {
    match b
    case NoInjuries => "0 (No Injuries)"
    case MinorRange => "1-5 (Minor)"
    case ModerateRange => "6-15 (Moderate)"
    case SeriousRange => "16-30 (Serious)"
    case SevereRange => "31+ (Severe)"
  }

  /** The comparison the handler applies for each range: `== 0`, `(0, 5]`,
      `(5, 15]`, `(15, 30]` and `> 30`. */
  predicate InRange(score: real, b: ScoreRange)
  {
    match b
    case NoInjuries => score == 0.0
    case MinorRange => 0.0 < score <= 5.0
    case ModerateRange => 5.0 < score <= 15.0
    case SeriousRange => 15.0 < score <= 30.0
    case SevereRange => score > 30.0
  }

  /** The ranges are pairwise disjoint and cover exactly the non-negative
      scores: a score is in one range if it is non-negative, in none otherwise. */
  function RangeOf(score: real): (r: Option<ScoreRange>)
    ensures r.Some? <==> score >= 0.0
    ensures forall b :: InRange(score, b) <==> r == Some(b)
  {
    if score < 0.0 then None
    else if score == 0.0 then Some(NoInjuries)
    else if score <= 5.0 then Some(MinorRange)
    else if score <= 15.0 then Some(ModerateRange)
    else if score <= 30.0 then Some(SeriousRange)
    else Some(SevereRange)
  }

  datatype RangeCount = RangeCount(range: string, count: nat)

  /** Number of records whose score lies in range `b`. */
  function CountInRange(recs: seq<Accident>, b: ScoreRange): nat
  {
    |Keep(recs, (a: Accident) => InRange(Score(a), b))|
  }

  /** The `severity_scores` list: one row per range, in the fixed order. */
  function ScoreRanges(recs: seq<Accident>): (rows: seq<RangeCount>)
    ensures |rows| == |Ranges|
    ensures forall i :: 0 <= i < |rows| ==>
              rows[i].range == RangeLabel(Ranges[i]) && rows[i].count == CountInRange(recs, Ranges[i])
  {
    seq(|Ranges|, i requires 0 <= i < |Ranges| => RangeCount(RangeLabel(Ranges[i]), CountInRange(recs, Ranges[i])))
  }

  function SumCounts(rows: seq<RangeCount>): nat
  {
    if |rows| == 0 then 0 else rows[0].count + SumCounts(rows[1..])
  }

  lemma {:induction false} CountInRangeSplit(recs: seq<Accident>, b: ScoreRange)
    requires |recs| > 0
    ensures CountInRange(recs, b)
            == (if InRange(Score(recs[0]), b) then 1 else 0) + CountInRange(recs[1..], b)
  {
  }

  /** Every record with a non-negative score is counted in exactly one range:
      the five counts add up to the number of such records. */
  lemma {:induction false} RangeCountsPartition(recs: seq<Accident>)
    ensures CountInRange(recs, NoInjuries) + CountInRange(recs, MinorRange)
            + CountInRange(recs, ModerateRange) + CountInRange(recs, SeriousRange)
            + CountInRange(recs, SevereRange)
            == |Keep(recs, (a: Accident) => Score(a) >= 0.0)|
  {
    if |recs| > 0 {
      RangeCountsPartition(recs[1..]);
      CountInRangeSplit(recs, NoInjuries);
      CountInRangeSplit(recs, MinorRange);
      CountInRangeSplit(recs, ModerateRange);
      CountInRangeSplit(recs, SeriousRange);
      CountInRangeSplit(recs, SevereRange);
      var r := RangeOf(Score(recs[0]));
    }
  }

  /** With non-negative injury counts (what cleaning yields from unsigned
      numerals) the histogram accounts for every record. */
  lemma ScoreRangesCoverAllRecords(recs: seq<Accident>)
    requires forall i :: 0 <= i < |recs| ==> NonNegativeCounts(recs[i])
    ensures SumCounts(ScoreRanges(recs)) == |recs|
  {
    var rows := ScoreRanges(recs);
    RangeCountsPartition(recs);
    forall i | 0 <= i < |recs|
      ensures Score(recs[i]) >= 0.0
    {
      ScoreZeroIffUninjured(recs[i]);
    }
    KeepAll(recs, (a: Accident) => Score(a) >= 0.0);
    SumOfFive(rows);
  }

  lemma SumOfFive(rows: seq<RangeCount>)
    requires |rows| == 5
    ensures SumCounts(rows) == rows[0].count + rows[1].count + rows[2].count + rows[3].count + rows[4].count
  {
    var r1 := rows[1..];
    var r2 := r1[1..];
    var r3 := r2[1..];
    var r4 := r3[1..];
    assert r4[1..] == [];
    assert SumCounts(r4) == rows[4].count + SumCounts(r4[1..]);
    assert SumCounts(r3) == rows[3].count + SumCounts(r4);
    assert SumCounts(r2) == rows[2].count + SumCounts(r3);
    assert SumCounts(r1) == rows[1].count + SumCounts(r2);
  }

  /** The `/api/target-distributions` body. */
  datatype TargetDistribution = TargetDistribution(
    injurySeverity: seq<Tally<string>>,
    severityScores: seq<RangeCount>)

  /** The classifier-target distribution (the severity distribution sorted
      once more by count) and the regressor-target histogram. */
  function TargetDistributions(recs: seq<Accident>): (r: TargetDistribution)
    ensures ByCountDescending(r.injurySeverity)
    ensures multiset(r.injurySeverity) == multiset(SeverityDistribution(recs))
    ensures r.severityScores == ScoreRanges(recs)
  {
    TargetDistribution(SortByCount(SeverityDistribution(recs)), ScoreRanges(recs))
  }
}
