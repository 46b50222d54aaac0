/** The accident explorer page: its filter state, the pagination buttons and
    the page counter, and the requests it sends to `/api/accidents`. */
module Explorer {
  import opened Wrappers
  import opened Seqs
  import opened Records
  import opened Query

  /** The component's `filters` state; text inputs are kept as typed. */
  datatype Filters = Filters(limit: nat, offset: nat, country: string, severity: string, year: string)

  const InitialLimit: nat := 50

  /** The page sizes the limit selector offers. */
  const PageSizes: set<nat> := {25, 50, 100}

  const Initial := Filters(InitialLimit, 0, "", "", "")

  predicate ValidFilters(f: Filters)
  {
    f.limit in PageSizes
  }

  /** The inputs of the filter bar. */
  datatype Field = CountryField | SeverityField | YearField

  /** `handleFilterChange` for a text input: only that field changes; the
      offset in particular is kept until the next search. */
  function ChangeText(f: Filters, field: Field, text: string): (g: Filters)
    ensures g.limit == f.limit && g.offset == f.offset
    ensures g.country == (if field == CountryField then text else f.country)
    ensures g.severity == (if field == SeverityField then text else f.severity)
    ensures g.year == (if field == YearField then text else f.year)
  {
    match field
    case CountryField => f.(country := text)
    case SeverityField => f.(severity := text)
    case YearField => f.(year := text)
  }

  /** `handleFilterChange` for the page-size selector. */
  function ChangeLimit(f: Filters, size: nat): (g: Filters)
    requires size in PageSizes
    ensures ValidFilters(g)
    ensures g.limit == size && g.offset == f.offset
    ensures g.country == f.country && g.severity == f.severity && g.year == f.year
  {
    f.(limit := size)
  }

  /** `handleSearch`: back to the first page, filters kept. */
  function Search(f: Filters): (g: Filters)
    ensures g.offset == 0
    ensures g.limit == f.limit && g.country == f.country && g.severity == f.severity && g.year == f.year
  {
    f.(offset := 0)
  }

  /** `handleNextPage`. */
  function Next(f: Filters): (g: Filters)
    ensures g.offset == f.offset + f.limit
    ensures g.limit == f.limit && g.country == f.country && g.severity == f.severity && g.year == f.year
  {
    f.(offset := f.offset + f.limit)
  }

  /** `handlePrevPage`: one page back, never before the first row. */
  function Prev(f: Filters): (g: Filters)
    ensures f.offset >= f.limit ==> g.offset == f.offset - f.limit
    ensures f.offset < f.limit ==> g.offset == 0
    ensures g.limit == f.limit && g.country == f.country && g.severity == f.severity && g.year == f.year
  {
    f.(offset := if f.offset >= f.limit then f.offset - f.limit else 0)
  }

  /** `Math.floor(offset / limit) + 1`: the page holding row `offset`. */
  function CurrentPage(f: Filters): (p: nat)
    requires f.limit > 0
    ensures p >= 1
    ensures (p - 1) * f.limit <= f.offset < p * f.limit
  {
    f.offset / f.limit + 1
  }

  /** `Math.ceil(total / limit)`: the fewest pages of `limit` rows holding `total` rows. */
  function TotalPages(total: nat, limit: nat): (n: nat)
    requires limit > 0
    ensures n * limit >= total
    ensures n == 0 || (n - 1) * limit < total
  {
    if total % limit == 0 then total / limit else total / limit + 1
  }

  /** The Previous button is disabled exactly on offset 0: with a positive
      page size, exactly when Prev would leave the state unchanged. */
  function PrevDisabled(f: Filters): (r: bool)
    ensures f.limit > 0 ==> (r <==> Prev(f) == f)
  {
    f.offset == 0
  }

  /** The Next button is disabled once the page reaches the last row: exactly
      when the page Next would request starts at or past the end. */
  function NextDisabled(f: Filters, total: nat): (r: bool)
    ensures r <==> Next(f).offset >= total
  {
    f.offset + f.limit >= total
  }

  /** With a positive page size, Next is disabled exactly when the page it
      would request from the `total` matches is empty. */
  lemma NextDisabledIffNextPageEmpty(matches: seq<Accident>, f: Filters)
    requires f.limit > 0
    ensures NextDisabled(f, |matches|) <==> Slice(matches, Next(f).offset, f.limit) == []
  {
  }

  /** Next moves the counter one page on. */
  lemma NextMovesOnePage(f: Filters)
    requires f.limit > 0
    ensures CurrentPage(Next(f)) == CurrentPage(f) + 1
  {
    var l, p := f.limit, CurrentPage(f);
    assert p * l == (p - 1) * l + l;
    assert (p + 1) * l == p * l + l;
    PageOfOffset(l, f.offset + l, p + 1);
  }

  /** Prev moves the counter one page back, or to the first page. */
  lemma PrevMovesOnePage(f: Filters)
    requires f.limit > 0
    ensures f.offset >= f.limit ==> CurrentPage(Prev(f)) == CurrentPage(f) - 1
    ensures f.offset < f.limit ==> CurrentPage(Prev(f)) == 1
  {
    var l, p := f.limit, CurrentPage(f);
    if f.offset >= l {
      MulMono(p, 1, l);
      assert (p - 1) * l - l == (p - 2) * l;
      assert p * l - l == (p - 1) * l;
      PageOfOffset(l, f.offset - l, p - 1);
    }
  }

  /** The page counter is determined by the bounds it satisfies. */
  lemma PageOfOffset(limit: nat, offset: nat, p: nat)
    requires limit > 0 && p >= 1 && (p - 1) * limit <= offset < p * limit
    ensures offset / limit + 1 == p
  {
    assert p * limit == (p - 1) * limit + limit;
    DivUnique(offset, limit, p - 1, offset - (p - 1) * limit);
  }

  /** Quotient and remainder bounds determine the quotient. */
  lemma DivUnique(a: int, l: nat, q: int, r: int)
    requires l > 0 && 0 <= r < l && a == q * l + r
    ensures a / l == q
  {
    var d := q - a / l;
    assert d * l == q * l - (a / l) * l;
    MulMono(1, d, l);
    MulMono(d, -1, l);
  }

  /** Multiplying by a non-negative factor keeps `<=`. */
  lemma MulMono(a: int, b: int, c: nat)
    ensures a <= b ==> a * c <= b * c
  {
    if a <= b {
      assert b * c == a * c + (b - a) * c;
    }
  }

  /** Prev undoes Next. */
  lemma PrevUndoesNext(f: Filters)
    ensures Prev(Next(f)) == f
  {
  }

  /** Next undoes Prev everywhere but on the first page. */
  lemma NextUndoesPrev(f: Filters)
    requires f.offset >= f.limit
    ensures Next(Prev(f)) == f
  {
  }

  /** While the offset points into the results, the counter shows a page
      between 1 and the page count. */
  lemma {:induction false} CounterWithinPages(f: Filters, total: nat)
    requires f.limit > 0 && f.offset < total
    ensures 1 <= CurrentPage(f) <= TotalPages(total, f.limit)
  {
    var p := CurrentPage(f);
    var n := TotalPages(total, f.limit);
    MulMono(n, p - 1, f.limit);
  }

  /** On an offset reached by paging (a multiple of the limit), Next is
      disabled exactly on the last page. */
  lemma {:induction false} NextDisabledOnLastPage(f: Filters, total: nat)
    requires f.limit > 0 && f.offset % f.limit == 0
    ensures NextDisabled(f, total) <==> CurrentPage(f) >= TotalPages(total, f.limit)
  {
    var p := CurrentPage(f);
    var n := TotalPages(total, f.limit);
    assert f.offset == (p - 1) * f.limit;
    assert f.offset + f.limit == p * f.limit;
    MulMono(p, n as int - 1, f.limit);
    MulMono(n, p, f.limit);
  }

  /** On a page boundary, Previous is disabled exactly on page 1. */
  lemma {:induction false} PrevDisabledOnFirstPage(f: Filters)
    requires f.limit > 0 && f.offset % f.limit == 0
    ensures PrevDisabled(f) <==> CurrentPage(f) == 1
  {
    if !PrevDisabled(f) {
      DivUnique(f.offset, f.limit, f.offset / f.limit, 0);
      assert f.offset / f.limit >= 1 by {
        if f.offset / f.limit == 0 {
          assert f.offset == (f.offset / f.limit) * f.limit + f.offset % f.limit;
        }
      }
    }
  }

  /** A search disables Previous; Next enables it. */
  lemma SearchDisablesPrev(f: Filters)
    ensures PrevDisabled(Search(f))
    ensures f.limit > 0 ==> !PrevDisabled(Next(f))
  {
  }

  // ---------------------------------------------------------------------------
  // Requests

  /** `getAccidents(filters)`: every filter is sent as typed and the backend
      ignores the empty ones. */
  function Fetch(recs: seq<Accident>, f: Filters): Result<AccidentPage, QueryError>
  {
    GetAccidents(recs, f.limit, f.offset, Some(f.country), Some(f.severity), Some(f.year))
  }

  /** The rows the three filter inputs select, in table order. */
  function MatchesFor(recs: seq<Accident>, country: string, severity: string, year: string): seq<Accident>
    requires YearFilter(Some(year)).Success?
  {
    Keep(recs, (a: Accident) => Selected(a, Some(country), Some(severity), YearFilter(Some(year)).value))
  }

  function Matches(recs: seq<Accident>, f: Filters): seq<Accident>
    requires YearFilter(Some(f.year)).Success?
  {
    MatchesFor(recs, f.country, f.severity, f.year)
  }

  /** A request returns the page of the matches its offset and limit name. */
  lemma FetchIsSlice(recs: seq<Accident>, f: Filters)
    requires YearFilter(Some(f.year)).Success?
    ensures Fetch(recs, f).Success?
    ensures Fetch(recs, f).value.total == |Matches(recs, f)|
    ensures Fetch(recs, f).value.data == Slice(Matches(recs, f), f.offset, f.limit)
  {
  }

  /** The filters after a search followed by `k` clicks on Next. */
  function Paged(f: Filters, k: nat): (g: Filters)
    ensures g.offset == k * f.limit
    ensures g.limit == f.limit && g.country == f.country && g.severity == f.severity && g.year == f.year
  {
    if k == 0 then Search(f) else Next(Paged(f, k - 1))
  }

  /** The rows the table shows once the request for filters `g` returns:
      the returned page, or, when the request fails, the rows `before` that
      were on screen (the error is only logged). */
  function Shown(recs: seq<Accident>, g: Filters, before: seq<Accident>): (r: seq<Accident>)
    ensures YearFilter(Some(g.year)).Success? ==> r == Slice(Matches(recs, g), g.offset, g.limit)
    ensures YearFilter(Some(g.year)).Failure? ==> r == before
  {
    match Fetch(recs, g)
    case Success(page) => FetchIsSlice(recs, g); page.data
    case Failure(_) => before
  }

  /** `page(0) + page(1) + ... + page(n - 1)`. */
  function Concat<T>(page: nat -> seq<T>, n: nat): seq<T>
  {
    if n == 0 then [] else Concat(page, n - 1) + page(n - 1)
  }

  lemma {:induction false} ConcatOfPages<T>(page: nat -> seq<T>, xs: seq<T>, limit: nat, n: nat)
    requires forall k: nat :: k < n ==> page(k) == Slice(xs, PageOffset(k, limit), limit)
    ensures Concat(page, n) == PagesUpTo(xs, limit, n)
  {
    if n > 0 {
      ConcatOfPages(page, xs, limit, n - 1);
    }
  }

  /** The table rows shown on pages `0 .. n - 1` of a search from filters `f`,
      concatenated; `table` is what was on screen before the search, and stays
      there while requests fail (they all fail or all succeed, since only the
      offset changes between them). */
  function Browsed(recs: seq<Accident>, f: Filters, table: seq<Accident>, n: nat): seq<Accident>
  {
    Concat((k: nat) => Shown(recs, Paged(f, k), table), n)
  }

  /** After a search and `k` clicks on Next the table shows page `k` of the matches. */
  lemma PagedFetch(recs: seq<Accident>, f: Filters, table: seq<Accident>, k: nat)
    requires YearFilter(Some(f.year)).Success?
    ensures Shown(recs, Paged(f, k), table) == Slice(Matches(recs, f), PageOffset(k, f.limit), f.limit)
  {
    var g := Paged(f, k);
    assert Matches(recs, g) == Matches(recs, f);
  }

  /** With `total` rows in pages of `limit`, Next is enabled on every page but
      the last and disabled on the last. */
  lemma {:induction false} NextEnabledUntilLastPage(f: Filters, total: nat)
    requires f.limit > 0
    ensures var n := TotalPages(total, f.limit);
            && (forall k: nat :: k + 1 < n ==> !NextDisabled(Paged(f, k), total))
            && (n > 0 ==> NextDisabled(Paged(f, n - 1), total))
  {
    var n := TotalPages(total, f.limit);
    forall k: nat | k + 1 < n ensures !NextDisabled(Paged(f, k), total) {
      MulMono(k + 1, n as int - 1, f.limit);
      assert (k + 1) * f.limit == k * f.limit + f.limit;
    }
    if n > 0 {
      assert (n - 1) * f.limit + f.limit == n * f.limit;
    }
  }

  /** Searching and then clicking Next until it is disabled shows every
      matching row exactly once, in order: Next stays enabled for exactly
      `TotalPages - 1` clicks, and those pages concatenate to the matches. */
  lemma BrowsingShowsEveryMatchOnce(recs: seq<Accident>, f: Filters, table: seq<Accident>)
    requires f.limit > 0 && YearFilter(Some(f.year)).Success?
    ensures var total := |Matches(recs, f)|;
            var n := TotalPages(total, f.limit);
            && Fetch(recs, Search(f)).value.total == total
            && (forall k: nat :: k + 1 < n ==> !NextDisabled(Paged(f, k), total))
            && (n > 0 ==> NextDisabled(Paged(f, n - 1), total))
            && Browsed(recs, f, table, n) == Matches(recs, f)
  {
    var ms := Matches(recs, f);
    var n := TotalPages(|ms|, f.limit);
    assert Fetch(recs, Search(f)).value.total == |ms| by {
      FetchIsSlice(recs, Search(f));
      assert Matches(recs, Search(f)) == ms;
    }
    NextEnabledUntilLastPage(f, |ms|);
    assert Browsed(recs, f, table, n) == ms by {
      BrowsedIsPages(recs, f, table, n);
      PagesReassemble(ms, f.limit, n);
    }
  }

  /** The first `n` pages of a search are the first `n` pages of the matches. */
  lemma BrowsedIsPages(recs: seq<Accident>, f: Filters, table: seq<Accident>, n: nat)
    requires YearFilter(Some(f.year)).Success?
    ensures Browsed(recs, f, table, n) == PagesUpTo(Matches(recs, f), f.limit, n)
  {
    var ms := Matches(recs, f);
    var page := (k: nat) => Shown(recs, Paged(f, k), table);
    assert forall k: nat :: k < n ==> page(k) == Slice(ms, PageOffset(k, f.limit), f.limit) by {
      forall k: nat | k < n ensures page(k) == Slice(ms, PageOffset(k, f.limit), f.limit) {
        var g := Paged(f, k);
        assert page(k) == Shown(recs, g, table);
        PagedFetch(recs, f, table, k);
      }
    }
    ConcatOfPages(page, ms, f.limit, n);
  }

  /** With every text filter empty the request selects every row. */
  lemma EmptyFiltersMatchAll(recs: seq<Accident>, f: Filters)
    requires f.country == "" && f.severity == "" && f.year == ""
    ensures YearFilter(Some(f.year)).Success?
    ensures Matches(recs, f) == recs
  {
    KeepAll(recs, (a: Accident) => Selected(a, Some(f.country), Some(f.severity), YearFilter(Some(f.year)).value));
  }

  /** The request sent when the page mounts: the first fifty rows of the
      whole table, and the size of the table. */
  lemma MountFetch(recs: seq<Accident>)
    ensures Fetch(recs, Initial).Success?
    ensures Fetch(recs, Initial).value.total == |recs|
    ensures Fetch(recs, Initial).value.data == recs[..Min(InitialLimit, |recs|)]
  {
    EmptyFiltersMatchAll(recs, Initial);
    FetchIsSlice(recs, Initial);
  }

  // ---------------------------------------------------------------------------
  // The handlers as written

  /** As written, every click handler sets the new state and then calls
      `fetchAccidents`, which reads the `filters` of the render the handler
      belongs to: the request is the one for the state BEFORE the click. This
      is the table after a search from `f` followed by `k` clicks on Next. */
  function StaleShown(recs: seq<Accident>, f: Filters, table: seq<Accident>, k: nat): (r: seq<Accident>)
    ensures YearFilter(Some(f.year)).Failure? ==> r == table
  {
    Shown(recs, Requested(f, k), table)
  }

  /** The filters that request `k` carries as written: the state before the
      search for `k = 0`, and the state before click `k` otherwise. */
  function Requested(f: Filters, k: nat): (g: Filters)
    ensures g.limit == f.limit && g.country == f.country && g.severity == f.severity && g.year == f.year
    ensures k == 0 ==> g == f
    ensures k >= 1 ==> g.offset == (k - 1) * f.limit && Next(g) == Paged(f, k)
  {
    if k == 0 then f else Paged(f, k - 1)
  }

  /** As written, a search from offset 0 shows page 0, and click `k >= 1`
      on Next shows page `k - 1`, the page of the click before. */
  lemma StaleShownIsPage(recs: seq<Accident>, f: Filters, table: seq<Accident>, k: nat)
    requires f.offset == 0 && YearFilter(Some(f.year)).Success?
    ensures StaleShown(recs, f, table, 0) == Slice(Matches(recs, f), 0, f.limit)
    ensures k >= 1 ==> StaleShown(recs, f, table, k) == Slice(Matches(recs, f), PageOffset(k - 1, f.limit), f.limit)
  {
    assert f == Paged(f, 0);
    PagedFetch(recs, f, table, 0);
    if k >= 1 {
      PagedFetch(recs, f, table, k - 1);
    }
  }

  /** Any three distinct rows in pages of two, as written: the search and
      the one click on Next that the page count allows both show the first
      two rows, the third row is never shown, and Next is then disabled. */
  lemma StaleBrowsingCounterexample(a: Accident, b: Accident, c: Accident)
    requires c != a && c != b
    ensures StaleShown([a, b, c], Filters(2, 0, "", "", ""), [], 0) == [a, b]
    ensures StaleShown([a, b, c], Filters(2, 0, "", "", ""), [], 1) == [a, b]
    ensures c !in StaleShown([a, b, c], Filters(2, 0, "", "", ""), [], 0)
                  + StaleShown([a, b, c], Filters(2, 0, "", "", ""), [], 1)
    ensures NextDisabled(Next(Filters(2, 0, "", "", "")), |[a, b, c]|)
  {
    var recs := [a, b, c];
    var f := Filters(2, 0, "", "", "");
    EmptyFiltersMatchAll(recs, f);
    StaleShownIsPage(recs, f, [], 1);
    assert PageOffset(1 - 1, 2) == 0;
    assert Slice(recs, 0, 2) == [a, b];
  }

  /** The same three rows with the handlers corrected: the search shows the
      first two rows and the click on Next the third. */
  lemma BrowsingExample(a: Accident, b: Accident, c: Accident)
    ensures Shown([a, b, c], Paged(Filters(2, 0, "", "", ""), 0), []) == [a, b]
    ensures Shown([a, b, c], Paged(Filters(2, 0, "", "", ""), 1), []) == [c]
  {
    var recs := [a, b, c];
    var f := Filters(2, 0, "", "", "");
    EmptyFiltersMatchAll(recs, f);
    PagedFetch(recs, f, [], 0);
    PagedFetch(recs, f, [], 1);
    assert Slice(recs, PageOffset(0, 2), 2) == [a, b];
    assert Slice(recs, PageOffset(1, 2), 2) == [c];
  }
}
