/** `AviationMLModels.preprocess_data`: the label encoders kept across calls
    and the weighted injury score column. */
module Preprocess {
  import opened Wrappers
  import opened Text
  import opened Records

  // ---------------------------------------------------------------------------
  // Python string order

  /** `a < b` on Python strings: lexicographic by code point, a proper prefix first. */
  predicate StrLess(a: string, b: string)
    decreases |a|
  {
    |b| > 0 && (|a| == 0 || a[0] < b[0] || (a[0] == b[0] && StrLess(a[1..], b[1..])))
  }

  lemma {:induction false} StrLessIrreflexive(a: string)
    ensures !StrLess(a, a)
    decreases |a|
  {
    if |a| > 0 {
      StrLessIrreflexive(a[1..]);
    }
  }

  lemma {:induction false} StrLessTransitive(a: string, b: string, c: string)
    requires StrLess(a, b) && StrLess(b, c)
    ensures StrLess(a, c)
    decreases |a|
  {
    if |a| > 0 && a[0] == b[0] && b[0] == c[0] {
      StrLessTransitive(a[1..], b[1..], c[1..]);
    }
  }

  lemma {:induction false} StrLessTotal(a: string, b: string)
    requires a != b
    ensures StrLess(a, b) || StrLess(b, a)
    decreases |a|
  {
    if |a| > 0 && |b| > 0 && a[0] == b[0] {
      assert a == [a[0]] + a[1..] && b == [b[0]] + b[1..];
      StrLessTotal(a[1..], b[1..]);
    }
  }

  /** Classes in strictly increasing order, as `np.unique` leaves them. */
  predicate StrictlySorted(cs: seq<string>)
  {
    forall i, j :: 0 <= i < j < |cs| ==> StrLess(cs[i], cs[j])
  }

  // ---------------------------------------------------------------------------
  // LabelEncoder

  /** A fitted `LabelEncoder`: `classes_`. A label's code is its index. */
  datatype Encoder = Encoder(classes: seq<string>)

  /** Adds one label to a sorted class list, keeping it sorted and duplicate-free. */
  function InsertClass(cs: seq<string>, v: string): (r: seq<string>)
    requires StrictlySorted(cs)
    ensures StrictlySorted(r)
    ensures forall x :: x in r <==> x in cs || x == v
    decreases |cs|
  {
    if |cs| == 0 then [v]
    else if cs[0] == v then cs
    else if StrLess(v, cs[0]) then
      forall j | 0 < j < |cs| ensures StrLess(v, cs[j]) {
        StrLessTransitive(v, cs[0], cs[j]);
      }
      [v] + cs
    else
      StrLessTotal(v, cs[0]);
      var rest := InsertClass(cs[1..], v);
      forall j | 0 <= j < |rest| ensures StrLess(cs[0], rest[j]) {
        assert rest[j] in cs[1..] || rest[j] == v;
        if rest[j] != v {
          var k :| 0 <= k < |cs[1..]| && cs[1..][k] == rest[j];
          assert cs[k + 1] == rest[j];
        }
      }
      [cs[0]] + rest
  }

  function ClassesOf(values: seq<string>): (cs: seq<string>)
    ensures StrictlySorted(cs)
    ensures forall x :: x in cs <==> x in values
  {
    if |values| == 0 then []
    else InsertClass(ClassesOf(values[..|values| - 1]), values[|values| - 1])
  }

  /** `fit`: the distinct labels in increasing order. */
  function Fit(values: seq<string>): (enc: Encoder)
    ensures StrictlySorted(enc.classes)
    ensures forall x :: x in enc.classes <==> x in values
  {
    Encoder(ClassesOf(values))
  }

  /** Two sorted duplicate-free lists with the same members are equal. */
  lemma {:induction false} SortedWithSameMembersAreEqual(a: seq<string>, b: seq<string>)
    requires StrictlySorted(a) && StrictlySorted(b)
    requires forall x :: x in a <==> x in b
    ensures a == b
    decreases |a|
  {
    if |a| > 0 {
      assert a[0] in b;
      assert b[0] in a;
      if a[0] != b[0] {
        var i :| 0 <= i < |a| && a[i] == b[0];
        var j :| 0 <= j < |b| && b[j] == a[0];
        assert StrLess(a[0], b[0]) by { assert 0 < i; }
        assert StrLess(b[0], a[0]) by { assert 0 < j; }
        StrLessTransitive(a[0], b[0], a[0]);
        StrLessIrreflexive(a[0]);
      }
      forall x ensures x in a[1..] <==> x in b[1..] {
        if x in a[1..] {
          var i :| 0 <= i < |a[1..]| && a[1..][i] == x;
          assert StrLess(a[0], a[i + 1]);
          StrLessIrreflexive(x);
          assert x in b && x != b[0];
          var j :| 0 <= j < |b| && b[j] == x;
          assert b[1..][j - 1] == x;
        }
        if x in b[1..] {
          var j :| 0 <= j < |b[1..]| && b[1..][j] == x;
          assert StrLess(b[0], b[j + 1]);
          StrLessIrreflexive(x);
          assert x in a && x != a[0];
          var i :| 0 <= i < |a| && a[i] == x;
          assert a[1..][i - 1] == x;
        }
      }
      SortedWithSameMembersAreEqual(a[1..], b[1..]);
      assert a == [a[0]] + a[1..] && b == [b[0]] + b[1..];
    } else {
      HeadIsMember(b);
    }
  }

  lemma HeadIsMember(b: seq<string>)
    ensures |b| > 0 ==> b[0] in b
  {
  }

  /** Fitting sees only which labels occur: order and repetition do not matter. */
  lemma FitDependsOnlyOnLabelSet(xs: seq<string>, ys: seq<string>)
    requires forall x :: x in xs <==> x in ys
    ensures Fit(xs) == Fit(ys)
  {
    SortedWithSameMembersAreEqual(Fit(xs).classes, Fit(ys).classes);
  }

  /** Code of one label: its position among the classes. */
  function CodeOf(cs: seq<string>, v: string): (r: Option<nat>)
    ensures r.None? <==> v !in cs
    ensures r.Some? ==> r.value < |cs| && cs[r.value] == v
  {
    if |cs| == 0 then None
    else if cs[0] == v then Some(0)
    else match CodeOf(cs[1..], v)
      case None => None
      case Some(i) => Some(i + 1)
  }

  /** `transform` fails on the first label not seen when fitting. */
  datatype EncodeError = UnseenLabel(column: string, unseen: string)

  predicate AllKnown(enc: Encoder, values: seq<string>)
  {
    forall i :: 0 <= i < |values| ==> values[i] in enc.classes
  }

  /** `codes` are the codes of `values`: decoding them through the classes
      (`inverse_transform`) gives `values` back. */
  predicate Encodes(enc: Encoder, codes: seq<nat>, values: seq<string>)
  {
    |codes| == |values|
    && forall i :: 0 <= i < |codes| ==> codes[i] < |enc.classes| && enc.classes[codes[i]] == values[i]
  }

  /** `transform(values)`. */
  function Transform(column: string, enc: Encoder, values: seq<string>): (r: Result<seq<nat>, EncodeError>)
    ensures r.Success? <==> AllKnown(enc, values)
    ensures r.Success? ==> Encodes(enc, r.value, values)
    ensures r.Failure? ==> r.error.column == column && r.error.unseen in values
                           && r.error.unseen !in enc.classes
  {
    if |values| == 0 then Success([])
    else match CodeOf(enc.classes, values[0])
      case None => Failure(UnseenLabel(column, values[0]))
      case Some(c) =>
        match Transform(column, enc, values[1..])
        case Failure(e) => Failure(e)
        case Success(rest) => Success([c] + rest)
  }

  /** Codes follow label order, so the encoding is order-preserving. */
  lemma CodesFollowLabelOrder(enc: Encoder, codes: seq<nat>, values: seq<string>, i: int, j: int)
    requires StrictlySorted(enc.classes) && Encodes(enc, codes, values)
    requires 0 <= i < |values| && 0 <= j < |values|
    ensures StrLess(values[i], values[j]) <==> codes[i] < codes[j]
  {
    if StrLess(values[i], values[j]) && codes[i] >= codes[j] {
      if codes[i] == codes[j] {
        StrLessIrreflexive(values[i]);
      } else {
        StrLessTransitive(values[i], values[j], values[i]);
        StrLessIrreflexive(values[i]);
      }
    }
  }

  // ---------------------------------------------------------------------------
  // The data frame

  /** A data frame: named columns of optional text cells, all `height` long. */
  datatype Frame = Frame(height: nat, columns: map<string, seq<Option<string>>>)

  predicate Rectangular(frame: Frame)
  {
    forall c :: c in frame.columns ==> |frame.columns[c]| == frame.height
  }

  const MissingLabel := "Unknown"

  /** `column.fillna('Unknown').astype(str)`. */
  function Filled(cells: seq<Option<string>>): (r: seq<string>)
    ensures |r| == |cells|
    ensures forall i :: 0 <= i < |cells| ==> r[i] == cells[i].GetOr(MissingLabel)
  {
    seq(|cells|, i requires 0 <= i < |cells| => cells[i].GetOr(MissingLabel))
  }

  const CategoricalColumns: seq<string> :=
    ["Country", "Weather Condition", "Broad Phase of Flight",
     "Aircraft Category", "Engine Type", "FAR Description"]

  /** Labels of `column` the encoder fitted earlier has never seen. */
  predicate HasUnseen(encoders: map<string, Encoder>, frame: Frame, column: string)
  {
    column in frame.columns && column in encoders
    && !AllKnown(encoders[column], Filled(frame.columns[column]))
  }

  /** `encoders` only gained entries on the way to `after`: nothing fitted
      earlier is dropped or refitted. */
  predicate Grows(encoders: map<string, Encoder>, after: map<string, Encoder>)
  {
    forall c :: c in encoders ==> c in after && after[c] == encoders[c]
  }

  lemma FitTransformSucceeds(column: string, values: seq<string>)
    ensures Transform(column, Fit(values), values).Success?
  {
    assert forall i :: 0 <= i < |values| ==> values[i] in values;
  }

  /** The categorical loop over `columns`: a column first seen is fitted and
      encoded, one seen before is encoded with the encoder already held, and
      the first unseen label stops the loop (an exception in the source). The
      encoders fitted before the failure are kept. */
  function EncodeColumns(encoders: map<string, Encoder>, frame: Frame, columns: seq<string>)
    : (r: (map<string, Encoder>, Result<map<string, seq<nat>>, EncodeError>))
    ensures Grows(encoders, r.0)
    ensures forall c :: c in r.0 && c !in encoders ==>
              c in columns && c in frame.columns && r.0[c] == Fit(Filled(frame.columns[c]))
    decreases |columns|
  {
    if |columns| == 0 then (encoders, Success(map[]))
    else
      var column := columns[0];
      if column !in frame.columns then EncodeColumns(encoders, frame, columns[1..])
      else
        var values := Filled(frame.columns[column]);
        if column !in encoders then
          var enc := Fit(values);
          FitTransformSucceeds(column, values);
          var codes := Transform(column, enc, values).value;
          var (after, rest) := EncodeColumns(encoders[column := enc], frame, columns[1..]);
          (after, match rest
                  case Failure(e) => Failure(e)
                  case Success(m) => Success(m[column := codes]))
        else match Transform(column, encoders[column], values)
          case Failure(e) => (encoders, Failure(e))
          case Success(codes) =>
            var (after, rest) := EncodeColumns(encoders, frame, columns[1..]);
            (after, match rest
                    case Failure(e) => Failure(e)
                    case Success(m) => Success(m[column := codes]))
  }

  /** The loop fails exactly when some present column already has an encoder
      and holds a label that encoder never saw. */
  lemma {:induction false} EncodeColumnsFailsOnUnseen(encoders: map<string, Encoder>, frame: Frame,
                                                      columns: seq<string>)
    ensures EncodeColumns(encoders, frame, columns).1.Failure?
            <==> exists k :: 0 <= k < |columns| && HasUnseen(encoders, frame, columns[k])
    decreases |columns|
  {
    if |columns| > 0 {
      var column := columns[0];
      var tail := columns[1..];
      assert forall k :: 0 <= k < |tail| ==> tail[k] == columns[k + 1];
      if column !in frame.columns {
        EncodeColumnsFailsOnUnseen(encoders, frame, tail);
        assert !HasUnseen(encoders, frame, column);
      } else if column !in encoders {
        var values := Filled(frame.columns[column]);
        EncodeColumnsFailsOnUnseen(encoders[column := Fit(values)], frame, tail);
        UnseenAfterFit(encoders, frame, column, tail);
        assert !HasUnseen(encoders, frame, column);
      } else if Transform(column, encoders[column], Filled(frame.columns[column])).Failure? {
        assert HasUnseen(encoders, frame, columns[0]);
      } else {
        EncodeColumnsFailsOnUnseen(encoders, frame, tail);
        assert !HasUnseen(encoders, frame, column);
      }
    }
  }

  /** After a successful loop every present column has an encoder and codes
      that decode back to its labels, and only those columns were encoded. */
  lemma {:induction false} EncodeColumnsEncodes(encoders: map<string, Encoder>, frame: Frame,
                                                columns: seq<string>)
    ensures var r := EncodeColumns(encoders, frame, columns);
            r.1.Success? ==>
              && (forall c :: c in columns && c in frame.columns ==>
                    c in r.0 && c in r.1.value && Encodes(r.0[c], r.1.value[c], Filled(frame.columns[c])))
              && (forall c :: c in r.1.value ==> c in columns && c in frame.columns)
    decreases |columns|
  {
    if |columns| > 0 {
      var column := columns[0];
      var tail := columns[1..];
      if column !in frame.columns {
        EncodeColumnsEncodes(encoders, frame, tail);
      } else if column !in encoders {
        var values := Filled(frame.columns[column]);
        FitTransformSucceeds(column, values);
        EncodeColumnsEncodes(encoders[column := Fit(values)], frame, tail);
      } else if Transform(column, encoders[column], Filled(frame.columns[column])).Success? {
        EncodeColumnsEncodes(encoders, frame, tail);
      }
    }
  }

  /** Fitting `column` adds no unseen label anywhere. */
  lemma UnseenAfterFit(encoders: map<string, Encoder>, frame: Frame, column: string, columns: seq<string>)
    requires column in frame.columns && column !in encoders
    ensures (exists k :: 0 <= k < |columns| &&
              HasUnseen(encoders[column := Fit(Filled(frame.columns[column]))], frame, columns[k]))
            <==> (exists k :: 0 <= k < |columns| && HasUnseen(encoders, frame, columns[k]))
  {
    var values := Filled(frame.columns[column]);
    FitTransformSucceeds(column, values);
  }

  // ---------------------------------------------------------------------------
  // Severity score

  const FatalColumn := "Total Fatal Injuries"
  const SeriousColumn := "Total Serious Injuries"
  const MinorColumn := "Total Minor Injuries"

  /** `pd.to_numeric(cell, errors='coerce')` then `fillna(0)`; the text is not stripped. */
  function NumericCell(cell: Option<string>): (r: real)
    ensures r != 0.0 ==> cell.Some? && ParseDecimal(cell.value) == Some(r)
    ensures cell.Some? && ParseDecimal(cell.value).Some? ==> r == ParseDecimal(cell.value).value
    ensures cell.Some? && ParseDecimal(cell.value).None? ==> r == 0.0
  {
    match cell
    case None => 0.0
    case Some(text) => ParseDecimal(text).GetOr(0.0)
  }

  function WeightedScore(fatal: Option<string>, serious: Option<string>, minor: Option<string>): real
  {
    3.0 * NumericCell(fatal) + 2.0 * NumericCell(serious) + NumericCell(minor)
  }

  predicate HasInjuryColumns(frame: Frame)
  {
    FatalColumn in frame.columns && SeriousColumn in frame.columns && MinorColumn in frame.columns
  }

  /** The `Severity_Score` column: produced only when all three injury columns exist. */
  function SeverityScores(frame: Frame): (r: Option<seq<real>>)
    requires Rectangular(frame)
    ensures r.Some? <==> HasInjuryColumns(frame)
    ensures r.Some? ==> |r.value| == frame.height
    ensures r.Some? ==> forall i :: 0 <= i < frame.height ==>
              r.value[i] == 3.0 * NumericCell(frame.columns[FatalColumn][i])
                            + 2.0 * NumericCell(frame.columns[SeriousColumn][i])
                            + NumericCell(frame.columns[MinorColumn][i])
  {
    if !HasInjuryColumns(frame) then None
    else
      var f := frame.columns[FatalColumn];
      var s := frame.columns[SeriousColumn];
      var m := frame.columns[MinorColumn];
      Some(seq(frame.height, i requires 0 <= i < frame.height => WeightedScore(f[i], s[i], m[i])))
  }

  /** A cell with no surrounding whitespace reads the same here as at load time. */
  lemma NumericCellAgreesWithCleanCount(cell: Option<string>)
    requires cell.Some? ==> Strip(cell.value) == cell.value
    ensures NumericCell(cell) == CleanCount(cell)
  {
  }

  /** On a frame whose injury columns hold the rows of `raws` with no
      surrounding whitespace, `Severity_Score` is the score the dashboard
      computes from the loaded records. */
  lemma SeverityScoresAgreeWithScore(frame: Frame, raws: seq<RawAccident>)
    requires Rectangular(frame) && HasInjuryColumns(frame) && frame.height == |raws|
    requires forall i :: 0 <= i < |raws| ==>
               && frame.columns[FatalColumn][i] == raws[i].fatal
               && frame.columns[SeriousColumn][i] == raws[i].serious
               && frame.columns[MinorColumn][i] == raws[i].minor
    requires forall i :: 0 <= i < |raws| ==> Unpadded(raws[i].fatal) && Unpadded(raws[i].serious) && Unpadded(raws[i].minor)
    ensures forall i :: 0 <= i < |raws| ==> SeverityScores(frame).value[i] == Score(LoadAccidents(raws)[i])
  {
    forall i | 0 <= i < |raws| ensures SeverityScores(frame).value[i] == Score(LoadAccidents(raws)[i]) {
      NumericCellAgreesWithCleanCount(raws[i].fatal);
      NumericCellAgreesWithCleanCount(raws[i].serious);
      NumericCellAgreesWithCleanCount(raws[i].minor);
    }
  }

  predicate Unpadded(cell: Option<string>)
  {
    cell.Some? ==> Strip(cell.value) == cell.value
  }

  // ---------------------------------------------------------------------------
  // preprocess_data

  datatype Prepared = Prepared(encoded: map<string, seq<nat>>, severityScore: Option<seq<real>>)

  /** `preprocess_data(df)` with the encoders held before the call: the
      encoders held after it, and the added columns or the error raised. */
  function PreprocessData(encoders: map<string, Encoder>, frame: Frame)
    : (r: (map<string, Encoder>, Result<Prepared, EncodeError>))
    requires Rectangular(frame)
    ensures Grows(encoders, r.0)
    ensures forall c :: c in r.0 && c !in encoders ==>
              c in CategoricalColumns && c in frame.columns && r.0[c] == Fit(Filled(frame.columns[c]))
    ensures r.1.Failure? <==> exists k :: 0 <= k < |CategoricalColumns| && HasUnseen(encoders, frame, CategoricalColumns[k])
    ensures r.1.Success? ==>
              && (r.1.value.severityScore.Some? <==> HasInjuryColumns(frame))
              && r.1.value.severityScore == SeverityScores(frame)
              && forall c :: c in CategoricalColumns && c in frame.columns ==>
                   c in r.0 && c in r.1.value.encoded
                   && Encodes(r.0[c], r.1.value.encoded[c], Filled(frame.columns[c]))
  {
    var (after, encoded) := EncodeColumns(encoders, frame, CategoricalColumns);
    EncodeColumnsFailsOnUnseen(encoders, frame, CategoricalColumns);
    EncodeColumnsEncodes(encoders, frame, CategoricalColumns);
    (after, match encoded
            case Failure(e) => Failure(e)
            case Success(m) => Success(Prepared(m, SeverityScores(frame))))
  }

  /** Every held encoder came from `fit`, so its classes are sorted and distinct. */
  predicate AllFitted(encoders: map<string, Encoder>)
  {
    forall c :: c in encoders ==> StrictlySorted(encoders[c].classes)
  }

  /** With distinct classes a label has one code. */
  lemma EncodesUnique(enc: Encoder, a: seq<nat>, b: seq<nat>, values: seq<string>)
    requires StrictlySorted(enc.classes) && Encodes(enc, a, values) && Encodes(enc, b, values)
    ensures a == b
  {
    forall i | 0 <= i < |a| ensures a[i] == b[i] {
      if a[i] != b[i] {
        var x, y := if a[i] < b[i] then a[i] else b[i], if a[i] < b[i] then b[i] else a[i];
        assert StrLess(enc.classes[x], enc.classes[y]);
        StrLessIrreflexive(values[i]);
      }
    }
  }

  lemma FittedAfterEncoding(encoders: map<string, Encoder>, frame: Frame, columns: seq<string>)
    requires AllFitted(encoders)
    ensures AllFitted(EncodeColumns(encoders, frame, columns).0)
  {
  }

  /** After a successful run every column it encoded has an encoder that
      knows all of that column's labels. */
  lemma NoUnseenAfterSuccess(encoders: map<string, Encoder>, frame: Frame, columns: seq<string>)
    requires EncodeColumns(encoders, frame, columns).1.Success?
    ensures forall k :: 0 <= k < |columns| ==> !HasUnseen(EncodeColumns(encoders, frame, columns).0, frame, columns[k])
  {
    var (after, encoded) := EncodeColumns(encoders, frame, columns);
    EncodeColumnsEncodes(encoders, frame, columns);
    forall k | 0 <= k < |columns| ensures !HasUnseen(after, frame, columns[k]) {
      var c := columns[k];
      if c in frame.columns {
        var values := Filled(frame.columns[c]);
        var codes := encoded.value[c];
        assert Encodes(after[c], codes, values);
        forall i | 0 <= i < |values| ensures values[i] in after[c].classes {
          assert after[c].classes[codes[i]] == values[i];
        }
      }
    }
  }

  /** An encoder map that already covers every present column gains nothing. */
  lemma CoveredGainsNothing(encoders: map<string, Encoder>, frame: Frame, columns: seq<string>)
    requires forall c :: c in columns && c in frame.columns ==> c in encoders
    ensures EncodeColumns(encoders, frame, columns).0 == encoders
  {
    var after := EncodeColumns(encoders, frame, columns).0;
    assert forall c :: c in after ==> c in encoders;
  }

  /** Encoding the same frame again with the encoders one successful run
      left behind changes no encoder and yields the same codes. */
  lemma EncodeTwiceSameCodes(encoders: map<string, Encoder>, frame: Frame, columns: seq<string>)
    requires AllFitted(encoders)
    requires EncodeColumns(encoders, frame, columns).1.Success?
    ensures var (after, first) := EncodeColumns(encoders, frame, columns);
            EncodeColumns(after, frame, columns) == (after, first)
  {
    var (after, first) := EncodeColumns(encoders, frame, columns);
    FittedAfterEncoding(encoders, frame, columns);
    NoUnseenAfterSuccess(encoders, frame, columns);
    EncodeColumnsEncodes(encoders, frame, columns);
    CoveredGainsNothing(after, frame, columns);
    var (again, second) := EncodeColumns(after, frame, columns);
    EncodeColumnsFailsOnUnseen(after, frame, columns);
    EncodeColumnsEncodes(after, frame, columns);
    SameCodes(after, frame, columns, first.value, second.value);
  }

  /** Two encodings of the same columns with the same fitted encoders agree. */
  lemma SameCodes(encoders: map<string, Encoder>, frame: Frame, columns: seq<string>,
                  m1: map<string, seq<nat>>, m2: map<string, seq<nat>>)
    requires AllFitted(encoders)
    requires forall c :: c in m1 ==> c in columns && c in frame.columns
    requires forall c :: c in m2 ==> c in columns && c in frame.columns
    requires forall c :: c in columns && c in frame.columns ==>
               c in encoders && c in m1 && c in m2
               && Encodes(encoders[c], m1[c], Filled(frame.columns[c]))
               && Encodes(encoders[c], m2[c], Filled(frame.columns[c]))
    ensures m1 == m2
  {
    forall c | c in m1 ensures c in m2 && m2[c] == m1[c] {
      EncodesUnique(encoders[c], m2[c], m1[c], Filled(frame.columns[c]));
    }
  }

  /** Running the preprocessing a second time on the same frame changes no
      encoder and gives the same result: the first call fitted every encoder
      it needs. */
  lemma PreprocessTwiceSameResult(encoders: map<string, Encoder>, frame: Frame)
    requires Rectangular(frame) && AllFitted(encoders)
    requires PreprocessData(encoders, frame).1.Success?
    ensures var (after, first) := PreprocessData(encoders, frame);
            PreprocessData(after, frame) == (after, first)
  {
    EncodeTwiceSameCodes(encoders, frame, CategoricalColumns);
  }
}
