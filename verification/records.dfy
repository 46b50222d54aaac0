/** Accident records as the backend holds them after loading the airline
    accidents table, and the injury-count cleaning applied at load time. */
module Records {
  import opened Wrappers
  import opened Text

  /** One row of the airline accidents table as read from the file. Text cells
      are `None` where the file has no value; `year` is the calendar year of
      `Event Date` when that date parses, `None` otherwise. */
  datatype RawAccident = RawAccident(
    eventId: Option<string>,
    year: Option<int>,
    country: Option<string>,
    make: Option<string>,
    injurySeverity: Option<string>,
    fatal: Option<string>,
    serious: Option<string>,
    minor: Option<string>,
    uninjured: Option<string>)

  /** A loaded record: the four injury columns are numbers. */
  datatype Accident = Accident(
    eventId: Option<string>,
    year: Option<int>,
    country: Option<string>,
    make: Option<string>,
    injurySeverity: Option<string>,
    fatal: real,
    serious: real,
    minor: real,
    uninjured: real)

  /** One injury cell after `to_numeric(cell.astype(str).str.strip(),
      errors='coerce').fillna(0)`: the number the stripped text spells, and 0
      for a missing, blank or unreadable cell. */
  function CleanCount(cell: Option<string>): (r: real)
    ensures cell.None? ==> r == 0.0
    ensures cell.Some? && AllSpace(cell.value) ==> r == 0.0
    ensures r != 0.0 ==> cell.Some? && ParseDecimal(Strip(cell.value)) == Some(r)
    ensures cell.Some? && ParseDecimal(Strip(cell.value)).Some? ==> r == ParseDecimal(Strip(cell.value)).value
    ensures cell.Some? && ParseDecimal(Strip(cell.value)).None? ==> r == 0.0
  {
    match cell
    case None => 0.0
    case Some(text) =>
      BlankStripsToEmpty(text);
      match ParseDecimal(Strip(text))
      case Some(v) => v
      case None => 0.0
  }

  lemma BlankStripsToEmpty(text: string)
    ensures AllSpace(text) ==> Strip(text) == []
  {
    if AllSpace(text) {
      assert text == text + [] + [];
      StripPadded(text, [], []);
    }
  }

  /** A whitespace-padded integer numeral is read as that integer. */
  lemma CleanCountReadsPaddedInteger(pre: string, i: int, post: string)
    requires AllSpace(pre) && AllSpace(post)
    ensures CleanCount(Some(pre + ShowInt(i) + post)) == i as real
  {
    ShowIntShape(i);
    StripPadded(pre, ShowInt(i), post);
    ParseDecimalRoundTrip(i);
  }

  /** The numeric cleaning `load_data` applies to one row; every other column is
      kept as read. */
  function Clean(raw: RawAccident): (a: Accident)
    ensures a.eventId == raw.eventId && a.year == raw.year && a.country == raw.country
    ensures a.make == raw.make && a.injurySeverity == raw.injurySeverity
    ensures a.fatal == CleanCount(raw.fatal) && a.serious == CleanCount(raw.serious)
    ensures a.minor == CleanCount(raw.minor) && a.uninjured == CleanCount(raw.uninjured)
  {
    Accident(raw.eventId, raw.year, raw.country, raw.make, raw.injurySeverity,
             CleanCount(raw.fatal), CleanCount(raw.serious),
             CleanCount(raw.minor), CleanCount(raw.uninjured))
  }

  /** `load_data` for the airline accidents table: row order and row count are kept. */
  function LoadAccidents(raws: seq<RawAccident>): (recs: seq<Accident>)
    ensures |recs| == |raws|
    ensures forall k :: 0 <= k < |raws| ==> recs[k] == Clean(raws[k])
  {
    seq(|raws|, k requires 0 <= k < |raws| => Clean(raws[k]))
  }

  /** The weighted injury score used as the regression target:
      three points per fatal, two per serious and one per minor injury. */
  function Score(a: Accident): (r: real)
    ensures NonNegativeCounts(a) ==> a.fatal + a.serious + a.minor <= r <= 3.0 * (a.fatal + a.serious + a.minor)
  {
    3.0 * a.fatal + 2.0 * a.serious + a.minor
  }

  predicate NonNegativeCounts(a: Accident)
  {
    a.fatal >= 0.0 && a.serious >= 0.0 && a.minor >= 0.0
  }

  /** With non-negative counts the score is non-negative, and it is zero
      exactly when the record has no fatal, serious or minor injuries. */
  lemma ScoreZeroIffUninjured(a: Accident)
    requires NonNegativeCounts(a)
    ensures Score(a) >= 0.0
    ensures Score(a) == 0.0 <==> (a.fatal == 0.0 && a.serious == 0.0 && a.minor == 0.0)
  {
  }
}
