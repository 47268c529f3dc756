# Energy access ETL pipeline, modelled in Dafny

This project models the core of an ETL pipeline that turns U.S. government
energy statistics into one table per state and year. It has five stages:

1. **Electricity panel** (`flatten_to_panel.dfy`). This stage:
   - decodes series identifiers such as `ELEC.SALES.TN-RES.M` into metric,
     geography, sector and frequency, splitting the geography-sector token
     at its last hyphen;
   - pivots the monthly series into a `defaultdict(dict)` keyed by
     `(geo, sector, date)`, skipping the `"- -"`/`null` sentinel, with a
     later record overwriting an earlier one;
   - writes one row per key in ascending key order, with `date`, `year`,
     `month` and one column per metric.
2. **State expenditure panel** (`extract_seds_burden.dfy`). This stage:
   - scans the bulk file's decoded lines for the four expenditure series
     (TEEAP, ESRCP, ESRCB, TERCB), counting lines and matches;
   - decodes `SEDS.TEEAP.AZ.A` into metric, state and frequency;
   - pivots the matched records into a panel keyed by `(state, date)`.
3. **Reliability** (`extract_reliability.dfy`). This stage:
   - coalesces each utility's IEEE and "Other" blocks, IEEE first, and tags
     the standard used;
   - keeps the eligible utilities;
   - aggregates them per state into customer-weighted SAIDI/SAIFI averages,
     a customer total and a utility count.
4. **Master table** (`merge_all_data.dfy`). This stage:
   - aggregates the residential rows from months to years and derives kWh
     per customer;
   - cleans the expenditure years;
   - left-joins the expenditure panel on `(state, year)`;
   - left-joins the reliability table on `state` alone;
   - derives the estimated annual bill.
5. **Energy burden** (`add_energy_burden.dfy`). This stage left-joins median
   incomes on `state` and derives `energy_burden_pct`.

Shared pieces:
- `panel.dfy` holds the panel both extraction scripts build:
  - `class Panel` is the `defaultdict(dict)`, with its keys in insertion order;
  - `Panel.Put` and `AddPoints` are the update and the inner loop;
  - the write-log functions (`ApplyWrites`, `Log`) are the specification the
    loops are proved against.
- `tables.dfy` holds pandas' boolean-mask filter, left merge, and the
  NaN-skipping sum and mean.
- `ordering.dfy` holds Python's string and tuple order and the
  sort-and-deduplicate behind `sorted(dict.keys())` and `groupby`.
- `text.dfy` holds `str.split`, `rsplit`, `lower` and the substring test.
- `wrappers.dfy` holds `Option`.

Representation:
- A pandas NaN is `None` in an `Option<real>`.
- Numbers are exact `real`s.
- A Python tuple key is a sequence of strings, ordered lexicographically as
  Python orders tuples and strings.

## Behaviour worth noting

- **The reliability join uses `state` only.** The comment at
  `eia_extraction/merge_all_data.py:71` says the reliability columns "will be
  NaN for other years". The join at lines 72-76 is on `state` alone, so every
  year of a state receives the single 2024 survey's values. The model follows
  the code: `MergeAll.ReliabilityJoinIgnoresYear` proves that any two rows of
  the same state carry the same `saidi` and `saifi`.
- **An all-missing sales group sums to 0.** A group whose monthly sales are
  all missing gets sales 0, not a missing value, because pandas' `sum` skips
  NaN (`MergeAll.AnnualSalesOfNothing`).
- **Zero divisors give a missing value.** When the mean customer count is 0,
  pandas yields an infinity or NaN for `kwh_per_customer`; the model makes it
  missing. `energy_burden_pct` with a zero income is treated the same way.
- **Eligibility accepts either SAIDI.** A utility is eligible with SAIDI
  either with or without major event days present, as
  `eia_extraction/extract_reliability.py:64-65` is written.
- **The expenditure stage ignores the frequency.** It does not filter on the
  frequency part of the identifier, unlike the electricity stage, so an
  annual and a monthly series of the same metric and state write to the same
  cells (`SedsBurden.FrequencyIgnored`).
- **The file names between stages do not match.** The reliability stage
  writes `reliability_by_state.csv`, but the merge reads
  `reliability_by_state_2024.csv`. The model composes the stages directly:
  `MergeAll.MasterTableShape` takes the reliability stage's own state table.

## Model

| member | source | states |
|---|---|---|
| Text.Split | eia_extraction/flatten_to_panel.py:15 | `str.split` gives one more piece than there are separators, none containing the separator |
| Text.JoinSplit | eia_extraction/flatten_to_panel.py:15 | joining the pieces of a split with the separator gives the string back |
| Text.SplitAfterPrefix | eia_extraction/flatten_to_panel.py:15 | splitting at a first separator gives the piece before it, then the split of the rest |
| Text.SplitJoin | eia_extraction/flatten_to_panel.py:15 | splitting a join of separator-free pieces gives the pieces back |
| Text.LastIndexOf | eia_extraction/flatten_to_panel.py:25 | the position `rsplit("-", 1)` splits at: missing iff the character is absent, else an occurrence with none after it |
| Text.Lower | eia_extraction/flatten_to_panel.py:68 | `lower()` keeps the length, maps each ASCII capital `A`-`Z` to its lower-case letter (code point + 32) and leaves every other character unchanged |
| Text.Contains | eia_extraction/extract_seds_burden.py:18 | `sub in s` holds iff `sub` occurs at some position of `s` |
| Text.ContainsAny | eia_extraction/extract_seds_burden.py:18 | `any(p in s for p in ps)` holds iff some pattern occurs at some position |
| Ordering.KeyLessIsStrictTotalOrder | eia_extraction/flatten_to_panel.py:81 | Python's order on tuples of strings is a strict total order |
| Ordering.StrIntLessIsStrictTotalOrder | eia_extraction/merge_all_data.py:22 | the order on `(geography, year)` group keys is a strict total order |
| Ordering.SortUnique | eia_extraction/flatten_to_panel.py:81 | the sorted distinct elements: strictly ascending, same members, same length when there were no repeats |
| Ordering.StrictlySortedUnique | eia_extraction/flatten_to_panel.py:81 | two strictly sorted sequences with the same members are equal, so sorted output does not depend on arrival order |
| Panels.Panel.constructor | eia_extraction/flatten_to_panel.py:47 | a fresh `defaultdict(dict)` is empty and its key order is empty |
| Panels.Panel.Put | eia_extraction/flatten_to_panel.py:67-68 | `panel_data[key][metric] = v` creates the key's dict on first use, appends the key to the insertion order only then, and keeps the keys distinct |
| Panels.AddPoints | eia_extraction/flatten_to_panel.py:62-68 | the inner loop leaves the panel equal to the old panel with each non-sentinel point written in order |
| Panels.ApplyWritesAppend | eia_extraction/flatten_to_panel.py:49-68 | applying two logs one after the other equals applying their concatenation |
| Panels.LogStep | eia_extraction/flatten_to_panel.py:49-68 | the panel after record `i` is the panel before it with that record's writes applied |
| Panels.ApplyWriteOther | eia_extraction/flatten_to_panel.py:67-68 | a write to another key or metric, or of the sentinel, leaves a cell unchanged |
| Panels.LastWriteWins | eia_extraction/flatten_to_panel.py:62-68 | a cell holds the value of the last write that stored under its key and metric |
| Panels.AbsentIffNeverStored | eia_extraction/flatten_to_panel.py:62-68 | a cell is absent iff no write stored a non-sentinel value under its key and metric |
| Panels.ApplyWritesWellFormed | eia_extraction/flatten_to_panel.py:64-65 | the panel never holds the sentinel, and every key holds at least one metric |
| Panels.KeysAreStoredKeys | eia_extraction/flatten_to_panel.py:64-68 | a key is present iff some write for it carried a non-sentinel value |
| Panels.SortedKeys | eia_extraction/flatten_to_panel.py:81 | `sorted(panel_data.keys())` is strictly ascending, has the same members and one entry per key |
| Panels.SortedKeysDependOnlyOnMembers | eia_extraction/flatten_to_panel.py:81 | sorting key lists with the same members gives the same sequence |
| Panels.StoredKeys | eia_extraction/flatten_to_panel.py:67-68 | the keys written with non-sentinel values are exactly the panel's keys |
| Panels.LogKeys | eia_extraction/flatten_to_panel.py:81 | the output keys of the panel a log builds are strictly ascending and exactly that panel's keys; the expenditure stage uses the same keys at eia_extraction/extract_seds_burden.py:92 |
| Panels.RenderedColumnFromLog | eia_extraction/flatten_to_panel.py:95-97 | a metric column renders as "" when no write stored a value for it, and otherwise as the value of the last write that did, as `values.get(m, "")` and `v.get(m, "")` do in both stages |
| FlattenToPanel.SplitGeoSector | eia_extraction/flatten_to_panel.py:24-28 | with a hyphen, `geo + "-" + sector` is the token and the sector has no hyphen; without, the result is `(token, "ALL")` |
| FlattenToPanel.SplitGeoSectorInverse | eia_extraction/flatten_to_panel.py:24-25 | splitting `geo + "-" + sector` recovers both when the sector has no hyphen, even if the geography has one |
| FlattenToPanel.SplitGeoSectorExamples | eia_extraction/flatten_to_panel.py:24-28 | `SAT-ALL` gives `(SAT, ALL)`, `TN-RES` gives `(TN, RES)`, `US` gives `(US, ALL)` |
| FlattenToPanel.ParseSeriesId | eia_extraction/flatten_to_panel.py:15-17 | the identifier is unparseable (the all-None tuple) iff it has fewer than three dots, that is fewer than four parts |
| FlattenToPanel.ParseSeriesIdOfParts | eia_extraction/flatten_to_panel.py:15-30 | an identifier of at least four dot-free parts parses to metric part 1, the split of part 2, frequency part 3 |
| FlattenToPanel.ParseSeriesIdExample | eia_extraction/flatten_to_panel.py:10-30 | `ELEC.SALES.TN-RES.M` parses to `(SALES, TN, RES, M)` |
| FlattenToPanel.PeriodColumnsAgree | eia_extraction/flatten_to_panel.py:86-92 | for a six-character period the date is year + "-" + month and drops back to the period; year + month is the period when it has at least six characters; other lengths leave the date unchanged |
| FlattenToPanel.FormatDateExample | eia_extraction/flatten_to_panel.py:32-36 | `202501` becomes `2025-01` |
| FlattenToPanel.Assemble | eia_extraction/flatten_to_panel.py:47-68 | the accumulation loop builds exactly the panel the records' write log specifies |
| FlattenToPanel.SkippedSeriesChangeNothing | eia_extraction/flatten_to_panel.py:53-58 | a record that does not parse, has an empty metric or geography, or is not monthly leaves the panel unchanged |
| FlattenToPanel.WritesHaveKeyShape | eia_extraction/flatten_to_panel.py:67-68 | every write is keyed by a triple with a non-empty geography and a hyphen-free sector |
| FlattenToPanel.PanelKeyShape | eia_extraction/flatten_to_panel.py:67-68 | every panel key is such a `(geo, sector, date)` triple |
| FlattenToPanel.LaterRecordOverwrites | eia_extraction/flatten_to_panel.py:62-68 | after a contributing record, its last non-sentinel point's cell holds that value whatever came before |
| Panels.EmitRows | eia_extraction/flatten_to_panel.py:81-98 | the row loop writes one row per panel key, the i-th rendering the i-th key in sorted order with that key's metrics; the expenditure stage runs the same loop at eia_extraction/extract_seds_burden.py:92-103 |
| FlattenToPanel.FlattenToPanel | eia_extraction/flatten_to_panel.py:47-98 | the output has one row per distinct key, and equals the rows rendered from the sorted keys of the panel the records specify, whatever the insertion order |
| SedsBurden.MatchesPattern | eia_extraction/extract_seds_burden.py:10-18 | true iff one of TEEAP, ESRCP, ESRCB, TERCB occurs as a substring of the identifier |
| SedsBurden.MatchesPatternExamples | eia_extraction/extract_seds_burden.py:17-18 | `SEDS.TEEAP.AZ.A` and `SEDS.ESRCB.TX.A` match; the empty identifier does not |
| SedsBurden.ParseSeriesId | eia_extraction/extract_seds_burden.py:25-27 | unparseable iff the identifier has fewer than four dot-separated parts |
| SedsBurden.ParseSeriesIdOfParts | eia_extraction/extract_seds_burden.py:25-33 | an identifier of dot-free parts parses to metric part 1, state part 2 taken whole, frequency part 3 |
| SedsBurden.ParseSeriesIdExample | eia_extraction/extract_seds_burden.py:20-33 | `SEDS.TEEAP.AZ.A` parses to `(TEEAP, AZ, A)` |
| SedsBurden.MatchingRecords | eia_extraction/extract_seds_burden.py:43-57 | the kept records are exactly the decodable lines whose identifier matches, never more than the lines |
| SedsBurden.MatchingRecordsAreKeptLines | eia_extraction/extract_seds_burden.py:43-57 | the kept records are the matching lines one for one, in file order, so later lines are written after earlier ones |
| SedsBurden.ScanLines | eia_extraction/extract_seds_burden.py:35-57 | the scan counts every line, keeps exactly the matching records in file order, and counts them |
| SedsBurden.Assemble | eia_extraction/extract_seds_burden.py:62-79 | the panel loop builds exactly the panel the matched records' write log specifies |
| SedsBurden.FrequencyIgnored | eia_extraction/extract_seds_burden.py:64-69 | two records differing only in the frequency make the same writes |
| SedsBurden.SkippedSeriesChangeNothing | eia_extraction/extract_seds_burden.py:68-69 | a record that does not parse or has an empty metric or state leaves the panel unchanged |
| SedsBurden.WritesHaveKeyShape | eia_extraction/extract_seds_burden.py:78-79 | every write is keyed by a `(state, date)` pair with a non-empty state |
| SedsBurden.PanelKeyShape | eia_extraction/extract_seds_burden.py:78-79 | every panel key is such a pair |
| SedsBurden.LaterRecordOverwrites | eia_extraction/extract_seds_burden.py:74-79 | after a usable record, its last non-sentinel point's cell holds that value |
| SedsBurden.ExtractSedsBurden | eia_extraction/extract_seds_burden.py:35-103 | the line and match counts, and rows equal to those rendered from the sorted panel of the matching records |
| Reliability.FillNa | eia_extraction/extract_reliability.py:40-46 | `fillna` keeps a present value and otherwise takes the fallback |
| Reliability.StandardOf | eia_extraction/extract_reliability.py:49-50 | IEEE iff IEEE SAIDI-with-MED is present; Other iff only the Other one is; None iff neither |
| Reliability.Coalesce | eia_extraction/extract_reliability.py:40-50 | every coalesced field is the IEEE value filled from the Other value, with the standard tag and the state |
| Reliability.CoalesceProperties | eia_extraction/extract_reliability.py:40-50 | a field is present iff either standard reports it, IEEE wins when both do, and the tag is set iff SAIDI-with-MED is present and names the block it came from |
| Reliability.UtilityTable | eia_extraction/extract_reliability.py:53-56 | one coalesced row per survey row, in order |
| Reliability.ValidRowsMembers | eia_extraction/extract_reliability.py:64-65 | `valid` holds exactly the coalesced survey rows that are eligible |
| Reliability.Contributions | eia_extraction/extract_reliability.py:69 | the masked pairs are empty iff no row has both metric and weight, and each comes from such a row |
| Reliability.ContributionsComplete | eia_extraction/extract_reliability.py:69 | every row that has both metric and weight gives its (customers, metric) pair |
| Reliability.ContributionsAreMaskedRows | eia_extraction/extract_reliability.py:69-72 | the pairs are exactly the (customers, metric) pairs of the rows the mask keeps, one per kept row, in row order |
| Reliability.WeightTotalPositive | eia_extraction/extract_reliability.py:72 | positive weights have a positive total when there is at least one |
| Reliability.ContributionsWithin | eia_extraction/extract_reliability.py:69-72 | the masked pairs carry positive weights and values within the contributing rows' bounds |
| Reliability.WeightedAvg | eia_extraction/extract_reliability.py:68-72 | missing iff no row has both the metric and the weight |
| Reliability.DeviationIsShift | eia_extraction/extract_reliability.py:72 | Σw·(v - c) equals Σw·v - c·Σw |
| Reliability.DeviationSign | eia_extraction/extract_reliability.py:72 | with positive weights, the weighted deviation is non-negative from the least value and non-positive from the greatest |
| Reliability.WeightedSumBounds | eia_extraction/extract_reliability.py:72 | with positive weights, lo·Σw ≤ Σw·v ≤ hi·Σw |
| Reliability.AverageBounds | eia_extraction/extract_reliability.py:72 | Σw·v / Σw lies within the values' bounds |
| Reliability.WeightedAvgBounds | eia_extraction/extract_reliability.py:68-72 | the weighted average lies between the least and greatest contributing value |
| Reliability.ContributionsIndependent | eia_extraction/extract_reliability.py:69 | the masked pairs depend only on that metric and the weight |
| Reliability.WeightedAvgIndependent | eia_extraction/extract_reliability.py:74-79 | each metric's average depends only on its own column and the weights, so the metrics are averaged independently |
| Reliability.WeightedAvgExample | eia_extraction/extract_reliability.py:68-72 | weights 100 and 200 on values 50 and 100 give 250/3 |
| Reliability.EligibleHavePositiveWeights | eia_extraction/extract_reliability.py:64-65 | eligible rows have positive customer weights |
| Reliability.StateGroup | eia_extraction/extract_reliability.py:74 | a state's group is exactly the valid rows of that state |
| Reliability.KnownStates | eia_extraction/extract_reliability.py:74 | the states named are exactly those of rows with a state |
| Reliability.SortedStates | eia_extraction/extract_reliability.py:74 | the group keys are strictly ascending and exactly the states named |
| Reliability.StateAggregate | eia_extraction/extract_reliability.py:74-83 | a state's row carries that state |
| Reliability.AggregateStatesKeys | eia_extraction/extract_reliability.py:74-83 | the state column is strictly ascending (each state once), and a state is listed iff some valid row names it |
| Reliability.EligibleStatesOfSurvey | eia_extraction/extract_reliability.py:64-65 | a valid row names a state iff an eligible survey row does |
| Reliability.StateTableStates | eia_extraction/extract_reliability.py:64-87 | the state table lists each state once, ascending, iff some eligible utility reports it |
| Reliability.StateTableRows | eia_extraction/extract_reliability.py:74-87 | every state row has year 2024, its four SAIDI/SAIFI columns are the customer-weighted averages over that state's eligible rows, its utility count is the number of those rows (at least 1), and its total customers is their summed customers (positive) |
| Reliability.EligibleCustomersPositive | eia_extraction/extract_reliability.py:80 | a non-empty group of eligible rows has a positive customer total |
| Reliability.IneligibleRowIgnored | eia_extraction/extract_reliability.py:64-65 | adding an ineligible survey row changes no state row |
| Tables.Filter | eia_extraction/merge_all_data.py:19 | a mask keeps exactly the rows satisfying it, never more |
| Tables.LeftJoin | eia_extraction/merge_all_data.py:65-69 | a left merge has at least as many rows as its left side |
| Tables.LeftJoinKeepsLeftRows | eia_extraction/merge_all_data.py:65-69 | whatever the right side holds, each left row appears in the output combined with its first match (or nothing when it has none), and combined with every one of its matches |
| Tables.JoinRowCovers | eia_extraction/merge_all_data.py:65-69 | the rows one left row turns into include its combination with its first match (or nothing) and with each of its matches |
| Tables.JoinRowInLeftJoin | eia_extraction/merge_all_data.py:65-69 | every row a left row turns into is a row of the merged table |
| Tables.LeftJoinIsLookup | eia_extraction/merge_all_data.py:65-76 | with unique right keys, the left merge equals looking each left row's key up on the right |
| Tables.LeftJoinUnique | eia_extraction/merge_all_data.py:65-76 | with unique right keys, the output is the left rows in order, each combined with its match or with nothing |
| Tables.CountPresentZero | eia_extraction/merge_all_data.py:24-25 | nothing is counted iff every value is missing |
| Tables.SumOfNothingIsZero | eia_extraction/merge_all_data.py:23 | the sum of all-missing values is 0 |
| Tables.MeanPresentBounds | eia_extraction/merge_all_data.py:24-25 | the mean is missing iff every value is, and otherwise within the values' bounds |
| MergeAll.ResidentialRows | eia_extraction/merge_all_data.py:19 | exactly the rows with sector RES |
| MergeAll.NonResidentialIgnored | eia_extraction/merge_all_data.py:19 | a row of another sector changes nothing in the annual table |
| MergeAll.GroupKeys | eia_extraction/merge_all_data.py:22 | the group keys are exactly the `(geography, year)` pairs of rows with a year |
| MergeAll.SortedGroupKeys | eia_extraction/merge_all_data.py:22-26 | the groups, strictly ascending, exactly those pairs |
| MergeAll.GroupRows | eia_extraction/merge_all_data.py:22 | a group holds exactly its key's rows |
| MergeAll.KwhPerCustomer | eia_extraction/merge_all_data.py:31 | missing iff the mean customers is missing or 0, and otherwise times the customers gives sales × 1,000,000 |
| MergeAll.AnnualOf | eia_extraction/merge_all_data.py:22-31 | a group's row carries the group's state and year |
| MergeAll.AnnualKeys | eia_extraction/merge_all_data.py:28 | the `(state, year)` column pair, one per row |
| MergeAll.AnnualTableKeys | eia_extraction/merge_all_data.py:19-28 | one row per `(state, year)`, strictly ascending, present iff some residential row has that geography and year |
| MergeAll.AnnualSalesOfNothing | eia_extraction/merge_all_data.py:23 | a group with no sales reported has sales 0, not missing |
| MergeAll.AnnualMeansMissing | eia_extraction/merge_all_data.py:24-25 | mean price and mean customers are missing iff no month of the group reports them |
| MergeAll.AnnualPriceBounds | eia_extraction/merge_all_data.py:24 | the mean price lies between the least and greatest monthly price |
| MergeAll.TruncToInt | eia_extraction/merge_all_data.py:45 | `astype(int)` truncates toward zero: the result is within 1 of the year, toward zero |
| MergeAll.TruncOfInteger | eia_extraction/merge_all_data.py:45 | a whole-number year converts to that integer |
| MergeAll.CleanSeds | eia_extraction/merge_all_data.py:43-45 | cleaning never adds rows |
| MergeAll.CleanSedsMembers | eia_extraction/merge_all_data.py:43-45 | a cleaned row comes from a row with a numeric year, truncated, and every such row gives one |
| MergeAll.CleanSedsDropsMissingYear | eia_extraction/merge_all_data.py:44 | a row with a missing year leaves no trace |
| MergeAll.MergeSpendKeepsEveryRow | eia_extraction/merge_all_data.py:65-69 | whatever the expenditure side holds, every annual row is kept: joined with each SEDS row of its `(state, year)`, or with empty expenditures when there is none |
| MergeAll.MergeSpendKeepsRows | eia_extraction/merge_all_data.py:65-69 | with unique `(state, year)` on the expenditure side, every annual row is kept in order with its match's expenditures, or none |
| MergeAll.EstAnnualBill | eia_extraction/merge_all_data.py:80 | missing iff price or consumption is missing, and otherwise 100 × bill = price × consumption |
| MergeAll.ReliabilityJoinIgnoresYear | eia_extraction/merge_all_data.py:71-80 | every row keeps its place, passes its sales, price, customers, consumption and both expenditure columns through unchanged, gets the bill derived from its price and consumption, and takes saidi/saifi from the without-MED averages; rows of one state get the same values whatever their year |
| MergeAll.StateTableUniqueStates | eia_extraction/extract_reliability.py:74-83 | the reliability state table has one row per state |
| MergeAll.MasterTableShape | eia_extraction/merge_all_data.py:62-80 | one master row per annual row, with the same state, year, sales, price, customers and consumption, the bill derived from them, and the expenditures of its `(state, year)`, empty where the SEDS file has none |
| EnergyBurden.Burden | eia_extraction/add_energy_burden.py:26 | missing iff the bill or the income is missing or the income is 0, and otherwise burden × income = bill × 100 |
| EnergyBurden.BurdenExample | eia_extraction/add_energy_burden.py:26 | a bill of 1500 on an income of 60000 is 2.5 |
| EnergyBurden.BurdenStrictlyIncreasing | eia_extraction/add_energy_burden.py:26 | for a fixed positive income the burden strictly increases with the bill |
| EnergyBurden.AddEnergyBurdenKeepsRows | eia_extraction/add_energy_burden.py:22-26 | with unique income states, every master row is kept unchanged in order, all years of a state get the same income, and the burden comes from the row's bill and that income |
| EnergyBurden.AddEnergyBurdenKeepsEveryRow | eia_extraction/add_energy_burden.py:22-26 | whatever the income side holds, every master row is kept, joined with each income row of its state and the burden derived from that income |
| EnergyBurden.AddEnergyBurdenNoMatch | eia_extraction/add_energy_burden.py:22-26 | a master row whose state has no income row becomes exactly one output row, with no income and no burden |

## Left out

- File input and output are not modelled. This covers reading the JSON series list, the bulk text file, the Excel survey and the CSV files, and writing every CSV. Each stage takes and returns in-memory records and rows. A line of the bulk file that is not valid JSON is a `None` line. A JSON line that is not an object would raise in `record.get`; that is not modelled.
- The CSV round trips between stages are not modelled. The merge takes the previous stages' tables as typed records. Years and numbers arrive already coerced, and pandas' dtype inference (`pd.to_numeric(errors='coerce')`) becomes `Option<real>`.
- Printing is not modelled: progress messages, summaries and previews.
- The survey's header handling (`header=1`, `iloc[1:]`) and the column renames are not modelled. The model's records carry named fields.
- The survey columns the pipeline drops are not modelled: loss-of-supply, voltage, automatic, inactive and momentary.
- The SEDS `units` field is read but never used, so it is not modelled.
- `eia_extraction/extract_access_series.py`, `eia_extraction/visualize_energy_access.py` and the front-end components are not part of this model.
- Floating-point rounding is not modelled. All arithmetic is exact.
- Text.Lower: lowers the ASCII capitals only. Non-ASCII capitals (accented Latin, Greek, Cyrillic and the rest) are left unchanged, where Python's `str.lower()` lowers them; the metric codes the pipeline lower-cases are ASCII.
- MergeAll.KwhPerCustomer: a zero mean customer count gives a missing value, where pandas gives an infinity or NaN.
- EnergyBurden.Burden: a zero income gives a missing value, where pandas gives an infinity or NaN.
- Reliability.WeightedAvg: requires every weight present in the group to be positive. `np.average` raises on a zero weight total, and the eligibility filter guarantees positive weights for every group the pipeline forms.
- Reliability.AggregateStates: defined only on eligible rows, which is what the pipeline passes. With no eligible row at all, the model gives an empty table; pandas' group-by `apply` on an empty frame does not produce the selected columns.
- Panels.RenderedColumnFromLog: states only one direction for "". A stored value that is itself the empty string also renders as "".
- MergeAll.MergeSpendKeepsRows: states row preservation only when the expenditure keys are unique. Duplicate keys multiply rows; for that case `MergeAll.MergeSpendKeepsEveryRow` proves that each annual row appears with each of its matches, but not the output's order or row count.
- EnergyBurden.AddEnergyBurdenKeepsRows: the same uniqueness caveat for income rows. For duplicate income states, `EnergyBurden.AddEnergyBurdenKeepsEveryRow` and `EnergyBurden.AddEnergyBurdenNoMatch` prove that each master row appears with each of its matches, or once with nothing, but not the output's order or row count.
- MergeAll.TruncToInt: does not model the overflow of `astype(int)` outside the 64-bit range.
