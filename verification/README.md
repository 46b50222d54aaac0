# Aviation accident explorer: a Dafny model

This project models the computational core of an aviation-safety web application, which has three parts:

- **Flask back end (`backend/app.py`).** It serves the airline-accident data set as JSON.
- **Model wrapper (`backend/ml_models.py`).** It prepares that data for a severity classifier and a severity-score regressor, and turns their outputs into a risk prediction.
- **React explorer (`frontend/src/components/AccidentExplorer.js`).** It pages through the accident list.

The model covers:

- **Loading** (`Records`). Each injury-count cell is read the way `load_data` reads it. The text is stripped and parsed as a decimal number. A missing, blank or unreadable cell counts as 0.
- **`/api/accidents`** (`Query`). The country and injury-severity filters are case-insensitive substring matches. The year filter is an exact match and fails on a non-integer year. Filtering happens before paging: `total` is the number of matching records, and `data` is the window `[offset, offset + limit)` of those matches.
- **Aggregations** (`Grouping`, `Aggregation`):
  - accidents by year, in ascending year order;
  - the twenty makes and the twenty countries with the most accidents;
  - the injury-severity distribution;
  - the five severity-score ranges.

  A generic group-by fold is proved to produce one row per key holding that key's totals. Generic sorts by count and by key are proved to permute the rows into the required order.
- **`preprocess_data`** (`Preprocess`):
  - **Label encoders.** The first time a column is seen, its encoder is fitted to the sorted distinct labels of that column. On every later call the column is transformed with the stored encoder, and that fails on a label the encoder has not seen.
  - **Severity score** `3·fatal + 2·serious + minor`. It exists only when all three injury columns do.
- **`predict`** (`Prediction`):
  - A placeholder answer is returned when a model is missing.
  - The input is an eight-slot feature vector with defaults for missing values.
  - The risk level has three tiers. The risk score is capped at 100. The delay and the confidence are computed from the model outputs.
  - Any exception raised in the models gives the `Error` record.
- **The explorer** (`Explorer`). The filter state is a small state machine:
  - search resets the offset to 0;
  - Next moves forward one page, and Prev moves back one page but not below 0;
  - it computes the page counter and when Previous and Next are disabled.

  The main theorem (`Explorer.BrowsingShowsEveryMatchOnce`) is about the model, whose handlers request the page of the state they have just set. A user of the model who presses Search and then Next until it is disabled sees every matching record exactly once, in order. The component as written requests the page of the state before the click; `Explorer.StaleShown` models that, and "## Findings" below shows what the user then sees.

The trained scikit-learn models are parameters of `Prediction.Predict`. They are functions from the feature vector to an answer or an error message. The CSV files are parameters too: a sequence of raw records, or a column map for `preprocess_data`.

## Model

| member | source | states |
|---|---|---|
| Text.Strip | backend/app.py:37 | the result is a contiguous piece of the input with only whitespace cut from both ends, and it neither starts nor ends with whitespace |
| Text.StripIdempotent | backend/app.py:37 | stripping twice gives the same text as stripping once |
| Text.ContainsFold | backend/app.py:130 | `str.contains(case=False)` holds exactly when the pattern occurs at some position of the text, comparing characters case-insensitively |
| Text.FoldMatchIsLowerOccurrence | backend/app.py:130 | a case-insensitive match at position i is the same as an occurrence of the lower-cased pattern in the lower-cased text at i |
| Text.ParseDecimalRoundTrip | backend/app.py:36-39 | the numeric parser reads the decimal rendering of every integer back as that integer |
| Text.ParseIntRoundTrip | backend/app.py:137 | `int(year)` reads the decimal rendering of every integer, with its sign, back as that integer |
| Records.CleanCount | backend/app.py:32-39 | a missing or blank injury cell becomes 0; a cell whose stripped text is a number becomes that number, and any other cell becomes 0 |
| Records.CleanCountReadsPaddedInteger | backend/app.py:35-39 | an integer cell surrounded by whitespace is read as that integer |
| Records.Score | backend/app.py:290-295 | the severity score `3·fatal + 2·serious + minor` of a record with non-negative counts lies between its injury count and three times that count |
| Records.ScoreZeroIffUninjured | backend/app.py:290-295 | with non-negative counts the severity score is non-negative, and it is 0 exactly when the record has no fatal, serious or minor injury |
| Records.LoadAccidents | backend/app.py:31-39 | loading keeps one cleaned record per raw row, in order, and the non-numeric columns are unchanged |
| Query.IntParam | backend/app.py:119-120 | a `limit` or `offset` parameter is the integer `int()` reads from it, and the default when it is missing or unreadable |
| Query.IntParamRoundTrip | backend/app.py:119-120 | a number written into the query string is read back as itself |
| Query.DefaultWindow | backend/app.py:119-141 | with neither `limit` nor `offset` given, the window is offset 0 and limit 100, so the response holds the first hundred matches |
| Query.YearFilter | backend/app.py:135-137 | an absent or empty year parameter means no year filter; a non-empty one fails exactly when `int()` rejects it, and otherwise filters on the integer it spells |
| Query.FilterAccidents | backend/app.py:126-137 | with every country and severity text read as a literal pattern, the filters fail exactly when the year does not parse; otherwise every kept record comes from the input and meets every active filter |
| Query.CountryStageKeeps | backend/app.py:129-130 | the country filter keeps exactly the records whose country contains the text, ignoring case; a missing country never matches |
| Query.SeverityStageKeeps | backend/app.py:132-133 | the severity filter keeps exactly the records whose injury severity contains the text, ignoring case |
| Query.YearStageKeeps | backend/app.py:135-137 | the year filter keeps exactly the records whose parsed event year equals the requested year |
| Query.FiltersComposeByAnd | backend/app.py:129-137 | applying the three filters one after another keeps exactly the records meeting their conjunction, in input order |
| Query.Slice | backend/app.py:141 | `iloc[offset:offset+limit]` holds min(limit, n − offset) elements, none past the end, and element i is input element offset + i |
| Query.GetAccidents | backend/app.py:119-151 | with the country and severity texts read as literal patterns, the request fails only on a bad year; `total` counts all matches before paging, `limit` and `offset` are echoed back, and `data` is the requested window of the matches |
| Query.TotalIgnoresWindow | backend/app.py:140-141 | `total` is the same whatever limit and offset are asked for |
| Query.PagesUpToIsPrefix | backend/app.py:141 | the first n pages, concatenated, are the prefix of the matches of length min(n·limit, total) |
| Query.PagesReassemble | backend/app.py:141 | enough consecutive pages, concatenated, reproduce the matches exactly |
| Grouping.Group | backend/app.py:166-171 | group-by produces distinct keys; each row holds the totals of exactly the entries with its key, each row's key occurs, and every entry's key has a row |
| Grouping.GroupPreservesTotal | backend/app.py:166-171 | grouping neither loses nor invents any count or injury total |
| Grouping.SortByCount | backend/app.py:192 | `sort_values(..., ascending=False)` returns a permutation of the rows with counts non-increasing |
| Grouping.SortByCountKeeps | backend/app.py:192 | sorting by count keeps the totals and keeps the keys distinct |
| Grouping.SortByKey | backend/app.py:166 | `groupby` lists keys in ascending order: the result is a permutation of the rows with strictly ascending years |
| Aggregation.EntriesKeys | backend/app.py:166 | a key appears among the group-by entries exactly when some record carries that key |
| Aggregation.ByYear | backend/app.py:161-176 | rows come in strictly ascending year order; each row holds the event-id count and injury sums of exactly that year's records; every dated record's year has a row |
| Aggregation.ByYearPartitionsDatedRecords | backend/app.py:162-171 | the by-year rows together account for every dated record once, and undated records are dropped |
| Aggregation.Leaders | backend/app.py:189-196 | at most twenty rows with distinct keys and counts non-increasing; each row holds its key's totals; a key left out means the table is full and every row counts at least as many accidents as that key |
| Aggregation.LeadersOutrankTheRest | backend/app.py:192 | cutting the count-sorted table at twenty leaves out only keys with no more accidents than any kept row |
| Aggregation.SeverityDistribution | backend/app.py:228-232 | `value_counts` gives one row per distinct injury severity, counting exactly the records with that label, with counts non-increasing |
| Aggregation.SeverityCountsSumToLabelled | backend/app.py:229 | the severity counts add up to the number of records that carry a severity |
| Aggregation.RangeOf | backend/app.py:298-304 | a score lies in exactly one of the five ranges when it is non-negative, and in none when it is negative |
| Aggregation.ScoreRanges | backend/app.py:297-304 | five rows, in the source's order, with the source's labels, each counting the records whose score lies in that range |
| Aggregation.RangeCountsPartition | backend/app.py:298-304 | the five range counts add up to the number of records with a non-negative score |
| Aggregation.ScoreRangesCoverAllRecords | backend/app.py:290-304 | with non-negative injury counts, the five counts add up to the number of records |
| Aggregation.TargetDistributions | backend/app.py:283-309 | the classifier-target table is the severity distribution, re-sorted by count, and the regressor-target table is the five score ranges |
| Preprocess.Fit | backend/ml_models.py:46-50 | a fitted encoder's classes are strictly sorted and are exactly the labels of the column |
| Preprocess.FitDependsOnlyOnLabelSet | backend/ml_models.py:48-50 | two columns with the same set of labels give the same encoder, whatever the order and repetition of the labels |
| Preprocess.Transform | backend/ml_models.py:51-54 | transform succeeds exactly when every label is known, and then each code indexes its own label; a failure carries an unseen label; the column it also names is the model's annotation, since scikit-learn's `ValueError` does not name it |
| Preprocess.CodesFollowLabelOrder | backend/ml_models.py:48-54 | one label sorts before another exactly when its code is smaller |
| Preprocess.FitTransformSucceeds | backend/ml_models.py:48-50 | `fit_transform` never meets an unseen label |
| Preprocess.EncodeColumns | backend/ml_models.py:44-54 | the encoder map only grows; a new encoder is added only for a present column and is fitted to that column |
| Preprocess.EncodeColumnsFailsOnUnseen | backend/ml_models.py:44-54 | the column loop raises exactly when some listed column holds a label its existing encoder has not seen |
| Preprocess.EncodeColumnsEncodes | backend/ml_models.py:44-54 | on success, every listed column present in the frame, and only those, gains an encoded column that encodes it with the stored encoder |
| Preprocess.UnseenAfterFit | backend/ml_models.py:46-50 | fitting a new encoder to a column cannot create an unseen label in any column |
| Preprocess.NumericCell | backend/ml_models.py:63-65 | an unreadable or missing injury cell counts as 0, and a cell that spells a number counts as that number |
| Preprocess.SeverityScores | backend/ml_models.py:60-71 | the score column exists exactly when all three injury columns do, and then holds for each row 3·fatal + 2·serious + minor of that row's cells |
| Preprocess.SeverityScoresAgreeWithScore | backend/ml_models.py:67-71 | on unpadded cells, the training score of each row equals 3·fatal + 2·serious + minor of the loaded record |
| Preprocess.PreprocessData | backend/ml_models.py:25-73 | encoders only grow, and every encoder it adds is fitted to the filled values of a categorical column present in the frame; the call fails exactly when a categorical column holds an unseen label; on success the score column is the severity score of the frame, present iff the injury columns are, and every present categorical column is encoded |
| Preprocess.EncodeTwiceSameCodes | backend/ml_models.py:44-54 | after a successful pass, a second pass over the same columns adds no encoder and yields the same codes |
| Preprocess.PreprocessTwiceSameResult | backend/ml_models.py:25-73 | preprocessing the same frame again with the encoders the first call left behind gives the same result |
| Prediction.Trunc | backend/ml_models.py:265 | `int()` truncates toward zero, for either sign |
| Prediction.Round2 | backend/ml_models.py:276 | `round(x, 2)` is within 0.005 of x, has two decimals, and keeps 0 ≤ x and x ≤ 100 |
| Prediction.MaxOf | backend/ml_models.py:251 | `np.max` returns an element that bounds every other |
| Prediction.Features | backend/ml_models.py:232-243 | eight slots: 2024, month (default 6), day of week (default 3), engine count (default 2), then four zeros |
| Prediction.RiskLevel | backend/ml_models.py:256-262 | High iff the score is above 10, Medium iff it is in (5, 10], Low iff it is at most 5 |
| Prediction.RiskLevelMonotone | backend/ml_models.py:256-262 | a larger score never gives a lower risk level |
| Prediction.RiskScore | backend/ml_models.py:264-265 | the risk score is at most 100, 100 from a score of 10 upwards, and otherwise ten times the score truncated toward zero: rounded down for a non-negative score, rounded up for a negative one |
| Prediction.Delay | backend/ml_models.py:267-268 | the delay is five times the score truncated toward zero: rounded down for a non-negative score, rounded up for a negative one |
| Prediction.RiskScoreAndDelayMonotone | backend/ml_models.py:264-268 | a larger score never gives a smaller risk score or delay |
| Prediction.Predict | backend/ml_models.py:217-287 | a missing model gives the placeholder answer, and only then; with both models the result is an error exactly when a model raises or there are no probabilities, and any error is the Error record; a success reports the classifier's label, the rounded score, the risk level, risk score and delay of that score, and the rounded top probability as a percentage, which lies in [0, 100] for proper probabilities |
| Explorer.ChangeText | frontend/src/components/AccidentExplorer.js:33-38 | editing a text filter changes that field only; the offset is kept |
| Explorer.ChangeLimit | frontend/src/components/AccidentExplorer.js:86-94 | choosing one of the offered page sizes sets the limit and changes nothing else |
| Explorer.Search | frontend/src/components/AccidentExplorer.js:40-43 | search resets the offset to 0 and keeps the filters |
| Explorer.Next | frontend/src/components/AccidentExplorer.js:45-48 | Next advances the offset by one limit and keeps the rest |
| Explorer.Prev | frontend/src/components/AccidentExplorer.js:50-53 | Prev moves the offset back one limit, stopping at 0, and keeps the rest |
| Explorer.CurrentPage | frontend/src/components/AccidentExplorer.js:55 | the page counter is the 1-based page whose window contains the offset |
| Explorer.TotalPages | frontend/src/components/AccidentExplorer.js:56 | the page count is the fewest pages of `limit` records that hold `total` records |
| Explorer.NextMovesOnePage | frontend/src/components/AccidentExplorer.js:45-55 | Next raises the page counter by exactly one |
| Explorer.PrevMovesOnePage | frontend/src/components/AccidentExplorer.js:50-55 | Prev lowers the page counter by one, or leaves it at page 1 from the first page |
| Explorer.PrevUndoesNext | frontend/src/components/AccidentExplorer.js:45-53 | Prev after Next restores the filter state |
| Explorer.NextUndoesPrev | frontend/src/components/AccidentExplorer.js:45-53 | Next after Prev restores the state whenever Prev did not stop at 0 |
| Explorer.CounterWithinPages | frontend/src/components/AccidentExplorer.js:55-56 | while the offset is inside the results, "Page p of n" has 1 ≤ p ≤ n |
| Explorer.PrevDisabled | frontend/src/components/AccidentExplorer.js:133 | with a positive page size, Previous is disabled exactly when a click on it would leave the state unchanged |
| Explorer.NextDisabled | frontend/src/components/AccidentExplorer.js:139 | Next is disabled exactly when the page it would request starts at index `total` or later, past the last record |
| Explorer.NextDisabledIffNextPageEmpty | frontend/src/components/AccidentExplorer.js:139 | with a positive page size, Next is disabled exactly when the page it would request from the matches is empty |
| Explorer.NextDisabledOnLastPage | frontend/src/components/AccidentExplorer.js:139 | on a page boundary, Next is disabled exactly when the counter has reached the page count |
| Explorer.PrevDisabledOnFirstPage | frontend/src/components/AccidentExplorer.js:133-137 | on a page boundary, Previous is disabled exactly when the counter shows page 1 |
| Explorer.SearchDisablesPrev | frontend/src/components/AccidentExplorer.js:40-48 | after a search Previous is disabled, and after Next with a positive page size it is enabled |
| Explorer.MountFetch | frontend/src/components/AccidentExplorer.js:7-18 | the request sent on mount succeeds, reports the size of the whole table and shows its first fifty rows |
| Explorer.EmptyFiltersMatchAll | frontend/src/components/AccidentExplorer.js:10-12 | with all three text filters empty every row matches |
| Explorer.Shown | frontend/src/components/AccidentExplorer.js:20-30 | once a request returns, the table shows the window of the matches at the requested offset; a failed request leaves the previous rows on screen |
| Explorer.FetchIsSlice | frontend/src/components/AccidentExplorer.js:20-25 | the fetch for a filter state returns the total of the matches and the window of the matches at its offset |
| Explorer.PagedFetch | frontend/src/components/AccidentExplorer.js:45-48 | after search and k presses of Next, the table shows page k of the matches |
| Explorer.NextEnabledUntilLastPage | frontend/src/components/AccidentExplorer.js:139 | starting from a search, Next stays enabled on every page but the last, and is disabled on the last |
| Explorer.BrowsedIsPages | frontend/src/components/AccidentExplorer.js:45-48 | the tables shown on the first n pages, concatenated, are the first n pages of the matches |
| Explorer.BrowsingShowsEveryMatchOnce | frontend/src/components/AccidentExplorer.js:132-141 | paging from a search until Next is disabled shows every matching record exactly once, in order |
| Explorer.BrowsingExample | frontend/src/components/AccidentExplorer.js:40-48 | with the corrected handlers, three rows in pages of two: the search shows rows 1-2 and the click on Next shows row 3 |
| Explorer.Requested | frontend/src/components/AccidentExplorer.js:20-53 | as written, the search request carries the state before the search, and the request of the k-th Next click carries the state one click behind, at offset (k − 1)·limit; filters and page size are those of the search |
| Explorer.StaleShown | frontend/src/components/AccidentExplorer.js:20-53 | as written, when the year filter does not parse every request fails and the table keeps the rows on screen |
| Explorer.StaleShownIsPage | frontend/src/components/AccidentExplorer.js:40-48 | as written, a search from offset 0 shows page 0, and the k-th click on Next (k ≥ 1) shows page k − 1 instead of page k |
| Explorer.StaleBrowsingCounterexample | frontend/src/components/AccidentExplorer.js:40-48 | as written, three distinct rows in pages of two: the search and the single Next click allowed both show rows 1-2, Next is then disabled, and row 3 is never shown while paging forward |

## Left out

- CSV reading, `latin-1` decoding, and the NTSB data set: the records are a parameter. A failed load (`None, None`, then HTTP 500) is not modelled.
- `load_data` when an injury column is absent: the model assumes the four columns exist; `/api/accidents/by-year` aggregates `Event Id` and the three injury columns without checking for them (backend/app.py:166-171).
- Date parsing: `pd.to_datetime(...).dt.year` is a field `year: Option<int>`, where None means the date does not parse.
- Flask routing, JSON encoding and `fillna('')` on the returned rows: the page carries the cleaned records. When the year filter is active, `get_accidents` also adds a `Year` column to the returned rows (backend/app.py:136); the model's rows do not carry it.
- Negative `limit` and `offset` values: `Query.IntParam` reads them, but `Query.GetAccidents` takes `limit` and `offset` as natural numbers, so Python's slicing from the end is not modelled.
- `/api/predict` request handling (backend/app.py:236-272), `/`, `/api/health`, `/api/stats`, `/api/model-performance` with its placeholder metrics, and `/api/plots`: glue, clocks and files outside the core.
- Training (`train_severity_classifier`, `train_severity_regressor`), model saving and loading, and scikit-learn itself: the trained models are function parameters of `Prediction.Predict`.
- Text.ContainsFold: pandas treats the pattern as a regular expression and folds case over all of Unicode; the model matches it literally and folds ASCII letters only. A country or severity text that is not a valid regular expression (such as `(`) makes pandas raise `re.error`, and the request then ends in HTTP 500; `Query.FilterAccidents` and `Query.GetAccidents` do not model that failure.
- Records.CleanCount, Preprocess.NumericCell, Preprocess.SeverityScores: pandas stores the counts as 64-bit floats; the model uses exact reals, so rounding of very large or fractional counts is not modelled.
- Text.ParseDecimal: exponents, `inf` and digit separators are read as unparsable (so 0), not as the numbers pandas would read.
- Query.IntParam, Query.YearFilter: Python's `int()` also accepts underscores between digits and non-ASCII digits; the model accepts surrounding whitespace, an optional sign and ASCII digits only.
- Preprocess.NumericCell: the model reads a padded cell as 0, whereas pandas may tolerate surrounding whitespace in `to_numeric`. `Preprocess.SeverityScoresAgreeWithScore` therefore assumes unpadded cells.
- Preprocess.PreprocessData: the temporal features (Year, Month, DayOfWeek, Quarter) and `Is_Amateur_Built` are not modelled; nothing in the core reads them back.
- Preprocess.Filled: `astype(str)` on non-string cells (numbers in a categorical column) is not modelled; cells are strings or missing.
- Prediction.Predict: `str(severity_class)` is taken as the classifier's label text. Python floats are modelled as exact reals, so `round` and `int` act on exact values rather than on 64-bit floats.
- Aggregation.Leaders: among groups with equal counts, pandas' order, and so which one the cut at twenty keeps, is not promised. The contract says nothing about the order of ties. The rows also carry serious and minor sums that the endpoint drops.
- Aggregation.SeverityDistribution: the order of ties in `value_counts` is likewise left open.
- Aggregation.ByMake and Aggregation.ByCountry are `Leaders` applied to the make and the country. Their facts are those of `Aggregation.Leaders`.
- The explorer's rendering, loading flag and error logging, and the `apiService` HTTP client.
- Explorer.PagedFetch, Explorer.BrowsedIsPages, Explorer.BrowsingShowsEveryMatchOnce, Explorer.Fetch: `fetchAccidents` runs before React applies the new filter state, so the component as written requests the page of the previous state. These members fetch with the updated state, so they describe the corrected handlers; the component as written is `Explorer.StaleShown` (see "## Findings").
- Explorer.ChangeLimit: the select delivers the page size as a string, so in JavaScript `offset + limit` is a string concatenation; the model treats the page size as a number.

## Findings

| source | as written | input that shows it | evidently intended | confidence | as-written member | corrected member |
|---|---|---|---|---|---|---|
| frontend/src/components/AccidentExplorer.js:40-53 | each handler calls `setFilters` and then `fetchAccidents`, which reads the `filters` of the current render, so the request is for the state before the click | three distinct rows, page size 2 (equally: L+1 rows at page size L, e.g. 51 rows at the default 50): Search shows rows 1-2, the one Next click shows rows 1-2 again, and Next is then disabled, so row 3 is never shown while paging forward | each click requests the page of the state it has just set | not executed | Explorer.StaleBrowsingCounterexample | Explorer.BrowsingShowsEveryMatchOnce |
