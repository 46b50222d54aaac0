/** The `/api/accidents` query: optional country, severity and year filters
    combined by AND, then a `[offset, offset + limit)` window over the matches,
    with `total` counted before the window is taken. */
module Query {
  import opened Wrappers
  import opened Seqs
  import opened Text
  import opened Records

  /** Raised by `int(year)` when the year parameter is not an integer; the
      request then fails with a server error. */
  datatype QueryError = BadYear(text: string)

  /** The JSON body of a successful `/api/accidents` response. */
  datatype AccidentPage = AccidentPage(total: nat, limit: nat, offset: nat, data: seq<Accident>)

  /** Defaults of the `limit` and `offset` request parameters. */
  const DefaultLimit: nat := 100
  const DefaultOffset: nat := 0

  /** `request.args.get(name, default, type=int)`: the parameter's integer
      value, or `default` when it is missing or `int()` rejects it. */
  function IntParam(param: Option<string>, default: int): (r: int)
    ensures param.None? ==> r == default
    ensures param.Some? && ParseInt(param.value).Some? ==> r == ParseInt(param.value).value
    ensures param.Some? && ParseInt(param.value).None? ==> r == default
  {
    if param.None? then default else ParseInt(param.value).GetOr(default)
  }

  /** A number written into the query string reads back as itself, whatever
      the default. */
  lemma IntParamRoundTrip(i: int, default: int)
    ensures IntParam(Some(ShowInt(i)), default) == i
  {
    ParseIntRoundTrip(i);
  }

  /** A query parameter takes part only when it is present and non-empty
      (Python truthiness of a string). */
  predicate Active(param: Option<string>)
  {
    param.Some? && |param.value| > 0
  }

  /** A missing cell never matches (`na=False`); otherwise a case-insensitive
      substring test. */
  predicate FieldMatches(field: Option<string>, pattern: string)
  {
    field.Some? && ContainsFold(field.value, pattern)
  }

  predicate CountryOk(a: Accident, country: Option<string>)
  {
    Active(country) ==> FieldMatches(a.country, country.value)
  }

  predicate SeverityOk(a: Accident, severity: Option<string>)
  {
    Active(severity) ==> FieldMatches(a.injurySeverity, severity.value)
  }

  predicate YearOk(a: Accident, year: Option<int>)
  {
    year.Some? ==> a.year == year
  }

  /** The reference selection: every active filter holds of the record.
      `year` is the already-parsed year parameter. */
  predicate Selected(a: Accident, country: Option<string>, severity: Option<string>,
                     year: Option<int>)
  {
    CountryOk(a, country) && SeverityOk(a, severity) && YearOk(a, year)
  }

  /** The year parameter after `int(year)`: `None` when the filter is off,
      an error when the text is not an integer. */
  function YearFilter(year: Option<string>): (r: Result<Option<int>, QueryError>)
    ensures !Active(year) ==> r == Success(None)
    ensures r.Failure? <==> Active(year) && ParseInt(year.value).None?
    ensures Active(year) && ParseInt(year.value).Some? ==> r == Success(ParseInt(year.value))
  {
    if !Active(year) then Success(None)
    else match ParseInt(year.value)
      case None => Failure(BadYear(year.value))
      case Some(y) => Success(Some(y))
  }

  /** The country stage: `str.contains(country, case=False, na=False)` when active. */
  function CountryStage(recs: seq<Accident>, country: Option<string>): seq<Accident>
  {
    if Active(country) then Keep(recs, (a: Accident) => FieldMatches(a.country, country.value))
    else recs
  }

  function SeverityStage(recs: seq<Accident>, severity: Option<string>): seq<Accident>
  {
    if Active(severity) then Keep(recs, (a: Accident) => FieldMatches(a.injurySeverity, severity.value))
    else recs
  }

  function YearStage(recs: seq<Accident>, year: Option<int>): seq<Accident>
  {
    if year.Some? then Keep(recs, (a: Accident) => a.year == year) else recs
  }

  /** The three filters applied one after the other, as the handler does. */
  function FilterAccidents(recs: seq<Accident>, country: Option<string>,
                           severity: Option<string>, year: Option<string>)
    : (r: Result<seq<Accident>, QueryError>)
    ensures r.Failure? <==> YearFilter(year).Failure?
    ensures r.Success? ==> |r.value| <= |recs|
    ensures r.Success? ==> forall i :: 0 <= i < |r.value| ==>
              r.value[i] in recs && Selected(r.value[i], country, severity, YearFilter(year).value)
  {
    match YearFilter(year)
    case Failure(e) => Failure(e)
    case Success(y) => Success(YearStage(SeverityStage(CountryStage(recs, country), severity), y))
  }

  lemma CountryStageKeeps(recs: seq<Accident>, country: Option<string>)
    ensures CountryStage(recs, country) == Keep(recs, (a: Accident) => CountryOk(a, country))
  {
    if Active(country) {
      KeepCongruent(recs, (a: Accident) => FieldMatches(a.country, country.value),
                    (a: Accident) => CountryOk(a, country));
    } else {
      KeepAll(recs, (a: Accident) => CountryOk(a, country));
    }
  }

  lemma SeverityStageKeeps(recs: seq<Accident>, severity: Option<string>)
    ensures SeverityStage(recs, severity) == Keep(recs, (a: Accident) => SeverityOk(a, severity))
  {
    if Active(severity) {
      KeepCongruent(recs, (a: Accident) => FieldMatches(a.injurySeverity, severity.value),
                    (a: Accident) => SeverityOk(a, severity));
    } else {
      KeepAll(recs, (a: Accident) => SeverityOk(a, severity));
    }
  }

  lemma YearStageKeeps(recs: seq<Accident>, year: Option<int>)
    ensures YearStage(recs, year) == Keep(recs, (a: Accident) => YearOk(a, year))
  {
    if year.Some? {
      KeepCongruent(recs, (a: Accident) => a.year == year, (a: Accident) => YearOk(a, year));
    } else {
      KeepAll(recs, (a: Accident) => YearOk(a, year));
    }
  }

  /** The filters compose by AND: the sequential filtering keeps exactly the
      records that satisfy every active filter, in their original order. */
  lemma FiltersComposeByAnd(recs: seq<Accident>, country: Option<string>,
                            severity: Option<string>, year: Option<string>)
    requires YearFilter(year).Success?
    ensures FilterAccidents(recs, country, severity, year)
            == Success(Keep(recs, (a: Accident) => Selected(a, country, severity, YearFilter(year).value)))
  {
    var y := YearFilter(year).value;
    var pc := (a: Accident) => CountryOk(a, country);
    var ps := (a: Accident) => SeverityOk(a, severity);
    var py := (a: Accident) => YearOk(a, y);
    var pcs := (a: Accident) => pc(a) && ps(a);
    var s1 := CountryStage(recs, country);
    CountryStageKeeps(recs, country);
    var s2 := SeverityStage(s1, severity);
    SeverityStageKeeps(s1, severity);
    KeepKeep(recs, pc, ps, pcs);
    YearStageKeeps(s2, y);
    KeepKeep(recs, pcs, py, (a: Accident) => Selected(a, country, severity, y));
  }

  /** `xs.iloc[offset:offset + limit]` for non-negative offset and limit. */
  function Slice<T>(xs: seq<T>, offset: nat, limit: nat): (r: seq<T>)
    ensures |r| == if offset >= |xs| then 0 else Min(limit, |xs| - offset)
    ensures forall i :: 0 <= i < |r| ==> r[i] == xs[offset + i]
  {
    if offset >= |xs| then [] else xs[offset..Min(offset + limit, |xs|)]
  }

  /** The `/api/accidents` handler after parameter parsing. */
  function GetAccidents(recs: seq<Accident>, limit: nat, offset: nat, country: Option<string>,
                        severity: Option<string>, year: Option<string>)
    : (r: Result<AccidentPage, QueryError>)
    ensures r.Failure? <==> YearFilter(year).Failure?
    ensures r.Success? ==>
              var matches := Keep(recs, (a: Accident) => Selected(a, country, severity, YearFilter(year).value));
              && r.value.total == |matches|
              && r.value.limit == limit && r.value.offset == offset
              && |r.value.data| <= limit
              && r.value.data == Slice(matches, offset, limit)
              && forall i :: 0 <= i < |r.value.data| ==>
                   offset + i < |matches| && r.value.data[i] == matches[offset + i]
  {
    match FilterAccidents(recs, country, severity, year)
    case Failure(e) => Failure(e)
    case Success(filtered) =>
      FiltersComposeByAnd(recs, country, severity, year);
      Success(AccidentPage(|filtered|, limit, offset, Slice(filtered, offset, limit)))
  }

  /** With neither `limit` nor `offset` given, the response holds the first
      hundred matches. */
  lemma DefaultWindow(recs: seq<Accident>, country: Option<string>, severity: Option<string>,
                      year: Option<string>)
    requires YearFilter(year).Success?
    ensures IntParam(None, DefaultLimit) == 100 && IntParam(None, DefaultOffset) == 0
    ensures var matches := FilterAccidents(recs, country, severity, year).value;
            GetAccidents(recs, DefaultLimit, DefaultOffset, country, severity, year).value.data
            == matches[..Min(100, |matches|)]
  {
    var matches := FilterAccidents(recs, country, severity, year).value;
    FiltersComposeByAnd(recs, country, severity, year);
    var data := GetAccidents(recs, DefaultLimit, DefaultOffset, country, severity, year).value.data;
    assert data == Slice(matches, 0, 100);
  }

  /** `total` does not depend on the window asked for. */
  lemma TotalIgnoresWindow(recs: seq<Accident>, l1: nat, o1: nat, l2: nat, o2: nat,
                           country: Option<string>, severity: Option<string>, year: Option<string>)
    requires YearFilter(year).Success?
    ensures GetAccidents(recs, l1, o1, country, severity, year).value.total
            == GetAccidents(recs, l2, o2, country, severity, year).value.total
  {
  }

  /** The offset of page `k`, counting pages from 0. */
  function PageOffset(k: nat, limit: nat): nat
  {
    k * limit
  }

  /** The pages at offsets `0, limit, ..., (n - 1) * limit`, concatenated. */
  function PagesUpTo<T>(xs: seq<T>, limit: nat, n: nat): seq<T>
  {
    if n == 0 then [] else PagesUpTo(xs, limit, n - 1) + Slice(xs, PageOffset(n - 1, limit), limit)
  }

  /** The first `n` pages are exactly the first `n * limit` elements. */
  lemma {:induction false} PagesUpToIsPrefix<T>(xs: seq<T>, limit: nat, n: nat)
    ensures PagesUpTo(xs, limit, n) == xs[..Min(PageOffset(n, limit), |xs|)]
  {
    if n > 0 {
      PagesUpToIsPrefix(xs, limit, n - 1);
      var o := PageOffset(n - 1, limit);
      assert PageOffset(n, limit) == o + limit;
      var lo, hi := Min(o, |xs|), Min(o + limit, |xs|);
      assert Slice(xs, o, limit) == xs[lo..hi];
      assert xs[..hi] == xs[..lo] + xs[lo..hi];
    }
  }

  /** Paging through the matches with a fixed positive limit, far enough to
      cover them, reproduces the matches with no gap and no repetition. */
  lemma PagesReassemble<T>(xs: seq<T>, limit: nat, n: nat)
    requires limit > 0 && PageOffset(n, limit) >= |xs|
    ensures PagesUpTo(xs, limit, n) == xs
  {
    PagesUpToIsPrefix(xs, limit, n);
  }
}
