# SecureCheck traffic-stop dashboard: a verified model of its core

SecureCheck loads a log of police traffic stops into a relational table and serves a
Streamlit dashboard on top of it. This project models, in Dafny, the parts of that
dashboard that make decisions:

- **the cleaning step** (`Policecheck.py`). Every missing spreadsheet cell becomes a null.
  Every null is then filled with its column's `mode().iloc[0]` (module `Cleaning`, which
  uses `Modes`).
- **the headline metrics**: total stops, arrests, warnings and drug-related stops, counted
  over the loaded log in both dashboard variants (`Metrics`).
- **the analytics catalog**. It has eighteen named SQL analyses. Each is given as
  declarative query data (`Catalog`) and run by one interpreter, `Query.Evaluate`, in this
  order:
  1. WHERE;
  2. GROUP BY, where NULL is one group;
  3. the COUNT / SUM / AVG columns;
  4. HAVING;
  5. ORDER BY, then LIMIT;
  6. the window columns: running sums by country and year, partition shares and `RANK()`.

  Percentages are integer hundredths, rounded half up (`Rounding`). What every result
  table promises is in `Results`. What the window columns mean is in `Windows`. What
  individual analyses promise is in `CatalogFacts`.
- **the "Run Query" button** in both variants (`Dispatch`). The current dashboard runs the
  selected query against the database. The earlier variant (`demo.py`) runs it against a
  stand-in fetch: that fetch answers with a fixed frame when the SQL text contains
  `LIMIT 10`, and with an empty frame otherwise.
- **the outcome/violation predictor** and its form (`Prediction`). It keeps the historical
  stops whose key fields equal the submitted ones. It then predicts the first mode of
  `stop_outcome` and of `violation` among them, or a fixed fallback when no stop matches.
- **the `st.session_state` slots** that carry the prediction across reruns, and the
  summary they gate (`Session`, a class whose methods update the four slots).

Records are `Records.StopRecord`, with every nullable column an `Option`. SQL values are
`Values.Value`: `Null`, `Int` or `Str`. They are ordered Null < Int < Str, with text
ordered by code point.

## Model

| member | source | states |
|---|---|---|
| Cleaning.Normalise | Policecheck.py:13 | every missing cell (NaN, NaT, None) becomes a null; every present cell keeps its value; the shape is kept |
| Cleaning.ModeRow | Policecheck.py:17 | the fill row is absent exactly when every column is all null; otherwise it holds each column's first mode |
| Cleaning.Clean | Policecheck.py:17 | cleaning fails (the `iloc[0]` IndexError) exactly when every column is all null; otherwise the frame keeps its shape |
| Cleaning.ModeOfAllNull | Policecheck.py:17 | a column has no mode exactly when it is all null |
| Cleaning.CleanedCell | Policecheck.py:17 | each cleaned cell is the original cell, or the column's first mode when the original is null |
| Cleaning.NonNullUnchanged | Policecheck.py:17 | `fillna` never changes a non-null cell |
| Cleaning.NullGetsFirstMode | Policecheck.py:17 | a null in a column with some value becomes the most frequent value of that column, the smallest on a tie |
| Cleaning.NullsFilled | Policecheck.py:17 | after cleaning, a column that had a value holds no null; an all-null column stays all null |
| Cleaning.ColumnsIndependent | Policecheck.py:17 | a cleaned column depends only on the same column before cleaning |
| Cleaning.CleanIdempotent | Policecheck.py:13-17 | cleaning a cleaned frame changes nothing |
| Modes.FirstMode | Securecheck.py:551-552 | `mode().iloc[0]` is absent exactly when the column is all null; otherwise it is a value that occurs and outranks every other value (more frequent, or as frequent and not larger) |
| Modes.FirstModeUnique | Securecheck.py:551-552 | at most one value meets that description, so the first mode is determined |
| Metrics.Headlines | Securecheck.py:72-91 | the total is the row count; arrests, warnings and drug-related stops are the number of rows passing each test, so none exceeds the total |
| Metrics.NullOutcomeNotCounted | Securecheck.py:81-85 | a NULL outcome (the text "None" after `astype(str)`) counts neither as an arrest nor as a warning |
| Metrics.MentionsArrestIff | Securecheck.py:81 | an outcome counts as an arrest exactly when "arrest" occurs in its lower-cased text |
| Metrics.DemoHeadlinesAgree | demo.py:46-63 | counted over any record list, the earlier variant's `na=False` tests give the same four numbers as the current ones |
| Metrics.ShownHeadlines | Securecheck.py:64-91 | the current dashboard shows no number for an empty log (`st.stop()`), and otherwise the four headline counts |
| Metrics.DemoShownHeadlines | demo.py:42-63 | the earlier variant shows no number for an empty log (the KeyError on a frame without columns), and otherwise its four counts |
| Metrics.ShownHeadlinesAgree | demo.py:42-63 | on every log, the empty one included, both dashboards show the same thing |
| Basics.ContainsIffOccurs | Securecheck.py:81 | `str.contains` of a literal holds exactly when the needle occurs at some position |
| Grouping.Tally | Securecheck.py:174-177 | a group's key is its key; its count is the number of its members; its searches, arrests and known ages never exceed its count |
| Grouping.Aggregate | Securecheck.py:180-182 | GROUP BY yields one non-empty tally per key, keys pairwise distinct, and every row passing WHERE has its key among them |
| Query.SurvivorsAre | Securecheck.py:183 | a group surviving HAVING is a non-empty tally meeting the threshold; every tally meeting it survives; survivors have distinct keys |
| Ordering.SortGroups | Securecheck.py:184-185 | ORDER BY returns the same groups, each as often, in an order that respects every sort key |
| Ordering.Take | Securecheck.py:186 | LIMIT n keeps the first n rows, or all rows when there are fewer |
| Ordering.TakeKeepsFirst | Securecheck.py:184-186 | after ORDER BY and LIMIT, every row cut off may be listed after every row kept |
| Ordering.BeforeTransitive | Securecheck.py:184-185 | the comparison defined by a list of sort keys is transitive |
| Ordering.BeforeTotal | Securecheck.py:184-185 | any two groups can be ordered one way or the other |
| Query.Evaluate | Securecheck.py:143-462 | at most LIMIT rows; without LIMIT, one row per surviving group; each row is a surviving group carrying its window values computed over all survivors |
| Query.EvaluateOrdered | Securecheck.py:143-462 | rows are sorted by ORDER BY with distinct keys; every surviving group cut off may follow every row shown; without LIMIT, the rows are exactly the survivors |
| Results.RowsAreGroups | Securecheck.py:143-462 | every row is the tally of its key over the rows passing WHERE and meets HAVING; searches and arrests are at most the count; rates are between 0 and 100% |
| Results.RowHasRecord | Securecheck.py:143-462 | every row's group holds some stop of the log |
| Results.SelectedRecordMakesGroup | Securecheck.py:143-462 | without HAVING, a stop passing WHERE makes the result non-empty |
| Results.LeadingKeyMonotone | Securecheck.py:143-462 | down the table, the leading ORDER BY value never rises under DESC and never falls under ASC |
| Results.FirstRowLeads | Securecheck.py:143-462 | no surviving group, shown or cut off, beats the first row on a descending leading key |
| Results.NoLimitListsAll | Securecheck.py:341-363 | without LIMIT, every surviving group is listed |
| Results.UnfilteredCountsEveryRecord | demo.py:153-165 | with no WHERE and no HAVING, every stop is counted in the group of its key |
| Results.HavingZeroKeepsAll | demo.py:416-430 | `HAVING COUNT(*) > 0` removes no group |
| Rounding.RoundHalfUp | Securecheck.py:177 | the rounded quotient is within half a unit of the exact quotient, halves going up |
| Rounding.Rate | Securecheck.py:177 | `ROUND(part / whole * 100, 2)` in hundredths: within half a hundredth of the exact rate; 0 for no part; 100% for the whole; at most 100% when part is at most whole |
| Rounding.RoundHalfUpMonotone | Securecheck.py:177 | a larger numerator never gives a smaller rounded rate |
| Rounding.AverageTenths | Securecheck.py:433 | `ROUND(AVG(driver_age), 1)` in tenths: the exact mean rounded to the nearest tenth, a half rounded away from zero, with the sign of the sum |
| Rounding.AverageTenthsDetermined | Securecheck.py:433 | only one number of tenths meets that rounding rule |
| Rounding.ShareSumError | Securecheck.py:437 | n rounded shares of one total add up to the exact share within n halves of a hundredth |
| Rounding.SharesOfWholeSum | Securecheck.py:437 | shares of a partition's own total add up to 100% within half a hundredth per group |
| Rounding.SevenEqualShares | Securecheck.py:437 | seven equal shares round to 14.29% each and add up to 100.03% |
| Windows.PartitionSharesSum | Securecheck.py:437 | the displayed shares of one partition add up to 100% within half a hundredth per group |
| Windows.FrameIsCountryPrefix | Securecheck.py:348-349 | in a table sorted by country and year, the running-sum frame of a row is the rows of its country up to that row |
| Windows.RunningSumIsPrefixSum | Securecheck.py:348-349 | the running sum of a row is the sum over its country's rows up to and including it |
| Windows.LastRowOfCountryIsTotal | Securecheck.py:348-349 | the last row of a country carries the country's total |
| Windows.YearsAscendWithinCountry | Securecheck.py:362-363 | within one country, sorted rows have non-decreasing years |
| Windows.TiedRatesShareRank | demo.py:383-384 | `RANK()` gives equal rates the same rank |
| Windows.HigherRateSmallerRank | demo.py:383-384 | a strictly higher rate gets a strictly smaller rank |
| Windows.TopRateRanksFirst | demo.py:383-384 | a rate no group exceeds ranks 1 |
| CatalogFacts.ArrestRateTable | Securecheck.py:172-186 | an arrest-rate ranking with HAVING > t and LIMIT n shows at most n rows, each with more than t stops and a rate within 0..100%, rates falling down the table |
| CatalogFacts.DashboardArrestRateTables | Securecheck.py:172-186 | the by-age (lines 172-186), by-country-and-violation (306-325) and top-5 (447-462) tables have at most 10, 20 and 5 rows, each with more than 50 stops, rates within 0..100% and falling |
| CatalogFacts.TopOneRow | Securecheck.py:327-339 | a LIMIT 1 query without HAVING shows one row exactly when some stop passes WHERE, and no survivor beats it |
| CatalogFacts.MostSearchedCountryIsTop | Securecheck.py:327-339 | one row exactly when some stop names a country; no country has more searched stops than the one shown |
| CatalogFacts.YearlyRunningTotals | Securecheck.py:341-363 | on every row, cumulative stops and arrests are the sums over its country's rows up to it; on a country's last row they are the country's totals (both variants) |
| CatalogFacts.RunningColumns | Securecheck.py:341-363 | the same for any query ordered by country then year with that window |
| CatalogFacts.PartitionShareColumn | Securecheck.py:188-204 | each row shows its group's share of its partition, and one partition's shares add up to 100% within half a hundredth per group |
| CatalogFacts.ShareColumnsOfCatalog | Securecheck.py:365-389 | for `percentage_of_stops` (lines 188-204), `percent_of_race` (365-389) and `percent_of_country` (430-445), one partition's shares add up to 100% within rounding |
| CatalogFacts.RankColumns | demo.py:373-400 | each row carries its group's ranks among all survivors; ranks agree with rates; the first row under search-rate DESC has search rank 1 |
| CatalogFacts.DemoRankColumns | demo.py:373-400 | the earlier variant's rank columns agree with the rates, and its first row has search rank 1 |
| CatalogFacts.DayNightAtMostTwoRows | Securecheck.py:251-269 | grouping by the day/night label gives at most two rows, one per label |
| CatalogFacts.DayNightTables | Securecheck.py:251-269 | both day/night analyses give at most two rows |
| CatalogFacts.StopWithoutTime | demo.py:226-243 | a stop without a time is left out by the dashboard's WHERE, but the earlier variant counts it as "Night" |
| CatalogFacts.DemoTopFiveKeepsAll | demo.py:416-430 | the earlier top-5 query keeps every violation group |
| CatalogFacts.DemoAgeGroupsCoverAll | demo.py:153-165 | every stop, a NULL age included, falls in a group of the earlier age query |
| Catalog.OptionsAreKeys | Securecheck.py:120-137 | every name the select box offers is a key of both query maps |
| Dispatch.RunQuery | Securecheck.py:465-475 | "not found" exactly for a name outside the map; the warning exactly when the fetch failed or the query gave no row; otherwise the query's non-empty table |
| Dispatch.EveryOptionIsFound | Securecheck.py:140-143 | no select-box option reaches "Selected query not found." |
| Dispatch.EmptyLogGivesNoRows | Securecheck.py:143-462 | with no stop recorded, every query gives no row |
| Dispatch.ResultsIffSurvivors | Securecheck.py:468-473 | with a positive LIMIT, a table is shown exactly when some group survives WHERE and HAVING |
| Dispatch.OptionOutcome | Securecheck.py:465-475 | for every option, the table is shown exactly when some group survives; an empty log always warns |
| Dispatch.MockFetch | demo.py:94-101 | the stand-in returns rows exactly when the SQL text contains `LIMIT 10` |
| Dispatch.DemoRunQuery | demo.py:433-438 | the earlier button shows the fixed frame exactly when the query's LIMIT clause contains `LIMIT 10` |
| Dispatch.LimitTenMatches | demo.py:99 | below 100, a LIMIT clause contains `LIMIT 10` exactly when it is `LIMIT 10` |
| Dispatch.DemoShowsOnlyLimitTen | demo.py:433-438 | in the earlier variant an option shows rows exactly when its query ends with `LIMIT 10`; every other option warns |
| Prediction.Precedents | Securecheck.py:539-547 | the matching stops are exactly the stops of the log equal on gender, age, search flag, duration, drug flag and race |
| Prediction.ColumnModes | Securecheck.py:551-552 | each column's prediction is absent exactly when it is NULL in every match; otherwise it is that column's first mode, taken from some match |
| Prediction.Predict | Securecheck.py:523-566 | blank key field gives "incomplete"; no match gives the fallback; a column NULL in every match gives the error path; otherwise the first modes of the matches, each from some match |
| Prediction.PrecedentColumns | Securecheck.py:539-552 | no stop is kept exactly when none passes; a column is NULL in every kept stop exactly when it is NULL in every passing stop |
| Prediction.CountryNotCompared | Securecheck.py:526-547 | the country is required but never compared: any two non-blank countries give the same prediction |
| Prediction.DemoPredict | demo.py:477-493 | no match gives the lower-case fallback; a column NULL in every match gives the uncaught error; otherwise the first modes over the five-column matches |
| Prediction.PrecedentIsDemoPrecedent | demo.py:479-485 | every match of the current filter also matches the earlier, coarser filter |
| Prediction.DurationChoice | Securecheck.py:515-516 | the duration is blank exactly for the first entry; otherwise it is a bucket label |
| Prediction.DemoDurationChoice | demo.py:463-470 | the earlier box has no blank entry, so its duration is always a bucket label |
| Session.SlotsAfter | Securecheck.py:524-570 | what a submission writes: "N/A" or "Error" with empty time and date, the fallback or the first modes with the formatted time and date |
| Session.SummaryAfterSubmit | Securecheck.py:585 | after a submission, the summary shows exactly for the fallback or a historical prediction that is not one of the two sentinel texts |
| Session.PredictionSlots.constructor | Securecheck.py:488-497 | a new session holds none of the four slots |
| Session.PredictionSlots.InitialiseMissing | Securecheck.py:488-497 | a missing slot gets its default; a present one keeps its value |
| Session.PredictionSlots.Submit | Securecheck.py:523-570 | all four slots are overwritten as the prediction dictates |
| Session.PredictionSlots.Rerun | Securecheck.py:488-585 | a rerun without submission keeps the earlier slots; with one it writes them; it reports whether the summary shows |
| Session.FreshSessionHidesSummary | Securecheck.py:488-585 | a fresh session shows no summary before any submission |

## Left out

- Database I/O: the connection, `st.cache_data`, the `SELECT *` load and the error text.
  A failed query is the `None` argument of `Dispatch.RunQuery`.
- Streamlit rendering: page layout, `st.metric`, `st.dataframe`, and lower-casing the
  column names.
- The summary's formatted date and time. `strftime` is a parameter of
  `Session.PredictionSlots.Submit`.
- `HOUR()`, `YEAR()` and `MONTH()`: they are read from pre-extracted record fields.
- The average column of "The average stop duration for different violations"
  (Securecheck.py:238-249). It averages text labels, which MySQL coerces to numbers.
  The groups are modelled; their order (by that average) and the average are not.
- Rounding.Rate: rates are exact rational values rounded half up to hundredths. MySQL's
  four-digit division scale and the DECIMAL double rounding of the `CAST` queries
  (Securecheck.py:347, 411-412) are not modelled.
- Rounding.AverageTenths: `AVG` over an integer column is a DECIMAL with four fractional
  digits before `ROUND(..., 1)`; that intermediate rounding is not modelled, the exact
  mean is rounded instead.
- Values.ValueLt and Ordering.SortGroups: SQL text equality and order are modelled as
  binary (code point by code point). MySQL's default collation, which the database gets
  (Policecheck.py:32, 39-60), ignores letter case, so GROUP BY would merge "Canada" and
  "canada" and ascending text sorts would interleave cases; that is not modelled.
- Metrics.DemoShownHeadlines: on an empty log the earlier variant displays the total
  (0) at demo.py:50-51 before the KeyError at demo.py:54; the model gives no headline
  at all for that case.
- Metrics.Headlines: lower-casing covers ASCII letters only; Unicode case folding is not
  modelled.
- Ordering.SortGroups: the order of rows that tie on every sort key is left open, as SQL
  leaves it.
- Cleaning.Clean: all columns share one cell type ordered by one total order. pandas
  orders each column by its own dtype.
- Cleaning: not modelled are reading the spreadsheet, creating the table and inserting
  the rows (Policecheck.py:7-11, 21-82).
- Dispatch.DemoRunQuery: requires the name to be a key. The earlier variant indexes the
  map directly and would raise KeyError, but its select box offers only keys.
- Dispatch.MockFetch: only the LIMIT clause of each query text is given to the stand-in,
  since its test looks for `LIMIT 10` alone. The rest of each query text is not modelled.
- Prediction.DemoPredict: the earlier handler runs its summary even without a submission
  and reads variables that may be unset (demo.py:497-511). Only the prediction itself is
  modelled.
- Session: the slots are modelled for one browser session; concurrent sessions are not.

## Notes

- A tie between equally frequent values could be broken by insertion order. The code's
  `mode().iloc[0]` (Securecheck.py:551-552, Policecheck.py:17) takes the smallest value,
  since pandas sorts the modes, and the model follows the code (`Modes.FirstMode`).
- Rounded shares of one partition need not add up to 100 within ±0.02:
  `Rounding.SevenEqualShares` shows seven equal groups giving 100.03. The general bound
  is `Windows.PartitionSharesSum`.
