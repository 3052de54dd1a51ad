# Smart Energy Consumption Dashboard: a verified model of its data pipeline

The dashboard loads a table of household energy records, lets the user
narrow it to one region, shows summary figures over what is left, and
lists per-household recommendations that can be downloaded as a text file.
This project models that pipeline in Dafny. All drawing and page layout are
left out.

- **Region filter** (`region_filter.dfy`, module `RegionFilter`). The
  selector offers `"All"` followed by the sorted distinct regions. `"All"`
  keeps the table unchanged. Any other choice keeps, in order, the rows
  whose region equals it exactly. The dashboard's table is a `Dashboard`
  object whose `df` field the filter replaces in place.
- **Aggregates** (`aggregates.dfy`, module `Aggregates`). Computes the total
  and the mean consumption, the number of households per region
  (`value_counts`), and the mean consumption per region from highest to
  lowest. A mean is the exact pair `Mean(total, count)`. `Value` gives the
  number it stands for, and means are compared by cross-multiplication.
- **Recommendations** (`recommendations.dfy`, module `Recommendations`).
  Each row gets at most one recommendation, from the first rule that
  matches. Above 250 kWh it gets the solar/LED advice (`High`). Otherwise,
  with EV charging, it gets the EV-meter advice (`Info`). Otherwise it gets
  nothing. The loop `GenerateRecommendations` is proved to compute the pure
  specification `Messages(Recommend(rows))`.
- **Export** (`export.dfy`, module `Export`). The messages are joined with
  `"\n"`. The download exists only when there is at least one message.
  When no message contains a line break, splitting the text on `"\n"`
  gives the messages back.
- **Pipeline** (`pipeline.dfy`). Lemmas that connect the stages, and a
  three-household sample worked through the summary, the per-region
  averages, the recommendations and the download.
- `seqs.dfy` holds the generic pieces: an `Option` type, an
  order-preserving filter-map with the positions it keeps, and an insertion
  sort by a "may come before" relation.

Consumption is a whole number of kWh (`nat`). A household identifier is
kept as the text it prints as.

## Model

| member | source | states |
|---|---|---|
| RegionFilter.RegionOptions | app.py:44 | the choices are `"All"` followed by every region of the table, each exactly once, in ascending Python string order; there are one more choices than regions |
| RegionFilter.DistinctRegions | app.py:44 | `unique()`: duplicate-free, and holds exactly the regions that occur in the table |
| RegionFilter.LexLeTotal | app.py:44 | any two region names are ordered one way or the other |
| RegionFilter.LexLeAntisymmetric | app.py:44 | two names each ordered before the other are equal |
| RegionFilter.LexLeTransitive | app.py:44 | the order is transitive, so with totality and antisymmetry it is the total order `sorted()` uses |
| RegionFilter.SelectRegionSpec | app.py:45-46 | `"All"` returns the table unchanged; any other choice keeps exactly the rows of that region, never adds rows, and gives an empty table exactly when the region does not occur |
| RegionFilter.InRegionSubsequence | app.py:46 | the filtered table is an order-preserving subsequence: its k-th row is the input row at an ascending position, and a position is kept iff its region equals the choice |
| RegionFilter.InRegionMembers | app.py:46 | a row is in the filtered table iff it is in the table and its region equals the choice |
| RegionFilter.InRegionEmpty | app.py:46 | filtering gives nothing iff the chosen region does not occur in the table |
| RegionFilter.InRegionIdempotent | app.py:46 | filtering an already filtered table by the same region changes nothing |
| RegionFilter.SelectRegionIdempotent | app.py:45-46 | applying the same sidebar choice twice is the same as applying it once |
| RegionFilter.SelectedRegionsOnly | app.py:45-46 | after a region other than `"All"` is chosen, that region is the only one left, or none is when it did not occur |
| RegionFilter.Dashboard.ApplyRegionFilter | app.py:45-46 | replaces `df` by the filtered table; the new table is no longer than the old one, holds only old rows, and (unless `"All"`) only rows of the chosen region |
| Aggregates.TotalEnergyAppend | app.py:54 | the total of two tables put together is the sum of their totals |
| Aggregates.TotalEnergyBounds | app.py:54 | if every consumption lies in `[lo, hi]`, the total lies in `[lo * n, hi * n]` for `n` rows |
| Aggregates.MeanEnergy | app.py:53 | no mean for an empty table; otherwise a mean over all `n` rows whose value times `n` is the total |
| Aggregates.MeanWithinBounds | app.py:53 | the mean lies between any lower and upper bound on the rows' consumption |
| Aggregates.AtLeastValue | app.py:86 | comparing means by cross-multiplication agrees with comparing their values |
| Aggregates.GroupsPartition | app.py:86 | grouping by a duplicate-free list of regions that covers every row counts every row once: group sizes add up to the number of rows, group totals to the overall total |
| Aggregates.RegionGroupsMembers | app.py:86 | `groupby("Region")` gives one group per region present, no region twice, each with its own total and a non-zero size |
| Aggregates.RegionGroupsSums | app.py:86 | the group sizes add up to the number of rows and the group totals to the total consumption |
| Aggregates.SortedGroups | app.py:86 | reordering the groups keeps exactly the same groups: one per region present, no region twice, each with its own total and a non-zero size |
| Aggregates.SortedGroupsSums | app.py:86 | reordering the groups keeps their sizes adding up to the number of rows and their totals to the total consumption |
| Aggregates.RegionCountsMembers | app.py:78 | `value_counts()` lists exactly the regions present, each once, with its own non-zero number of rows |
| Aggregates.RegionCountsOrder | app.py:78 | the counts run from the most to the least populous region and add up to the number of rows |
| Aggregates.RegionAveragesSpec | app.py:86 | the averages cover exactly the regions present, each once, each with its total over its non-zero size; the values never increase along the sequence; together they cover every row and the whole total |
| Recommendations.AdvisePrecedence | app.py:97-103 | above 250 kWh the advice is always high usage, whatever the EV flag; the EV-meter advice comes iff consumption is at most 250 and EV charging is on; no advice iff neither holds; advice names its own household |
| Recommendations.RecommendOrder | app.py:94-104 | the k-th recommendation comes from a row at an ascending position, so recommendations follow row order; a row yields one iff it exceeds 250 kWh or charges an EV |
| Recommendations.HighUsageSingleLine | app.py:98 | the high-usage message has no line break when the identifier has none |
| Recommendations.EvMeterSingleLine | app.py:102 | the EV-meter message has no line break when the identifier has none |
| Recommendations.MessageSingleLine | app.py:98-102 | a message has no line break when its household identifier has none |
| Recommendations.GenerateRecommendations | app.py:94-104 | the loop's list equals the messages of the rule-based recommendations of the rows, in row order |
| Export.SplitJoin | app.py:110 | for at least one single-line message, splitting the joined text on `"\n"` gives the messages back |
| Export.JoinBreaks | app.py:110 | the joined text of `n` single-line messages has `n - 1` line breaks, so it has `n` lines |
| Export.Download | app.py:107-110 | the download exists iff there is a message; for single-line messages its text splits back into the messages and has one line per message |
| Pipeline.RecommendNonEmpty | app.py:94-107 | the recommendation list is non-empty iff some row exceeds 250 kWh or charges an EV |
| Pipeline.MessagesSingleLine | app.py:98-102 | when no household identifier has a line break, no message has one |
| Pipeline.DownloadOfTable | app.py:94-110 | for single-line identifiers, the download is offered iff some row exceeds 250 kWh or charges an EV, and its lines are the messages |
| Pipeline.FilteredDistribution | app.py:78 | after a present region is chosen, the household distribution is that one region with every remaining row |
| Pipeline.SampleSummary | app.py:53-54 | on a three-row sample (300, 100 and 50 kWh) the total is 450 and the mean 150 |
| Pipeline.SampleAverages | app.py:86 | on the sample, North (350 over 2, i.e. 175) comes before South (100 over 1) |
| Pipeline.SampleRecommendations | app.py:94-110 | on the sample, household 1 gets the high-usage advice, household 2 the EV-meter advice, and the download is those two messages on two lines |

## Left out

- Page set-up, styling, titles, tables, metrics, warnings, notices, the
  download widget and the footer (app.py lines 10-34, 40, 43, 49-50,
  56-58, 61, 67, 77, 85, 93, 100, 104, 108-113, 116-117). These only display values that the model computes.
- Reading the CSV file (app.py line 37). This is file I/O. The model starts
  from a sequence of records.
- The scatter plot, the pie chart with its percentages and the bar charts
  (app.py lines 62-64, 79-82, 87-90). The appliance bar chart with its
  appliance selector and axis labels (lines 68-74) is left out too, because its aggregation happens inside the plotting library.
  So the appliance counts are carried in each record but no stage reads
  them.
- Floating point. Consumption and income are whole numbers. A mean is an
  exact fraction, not a float. The `:.2f` and `:.0f` formatting is not
  modelled.
- Aggregates.MeanEnergy: pandas gives NaN for the mean of an empty table.
  The model gives `None` instead.
- Tie order. For equal counts or equal means, pandas' `value_counts` and
  `sort_values` may order regions either way; for the averages pandas
  starts from the group keys in sorted order. The model's insertion sort
  is stable over the regions in first-seen order, so its ties come out in
  first-seen order. Aggregates.RegionCountsOrder and
  Aggregates.RegionAveragesSpec promise no tie order: they state only the
  non-increasing order and the set of entries.
- How pandas prints a `Household_ID` inside the message (for example a
  number read as a float). The identifier is kept as its printed text.
- Missing cells. The model assumes every cell of the table is present;
  a `Record` cannot hold a missing (NaN) value. With missing cells the
  code behaves in ways the model does not capture: a missing `Region`
  makes the sort of the selector's choices (app.py line 44) fail, because
  a float cannot be compared with a string; `.sum()` and `.mean()`
  (lines 53-54) skip missing consumption, and the mean divides by the
  number of present values only; `value_counts` and `groupby` (lines 78,
  86) drop rows with a missing region; and a missing consumption is never
  `> 250` (line 97), so such a row falls through to the EV rule.
- `EV_Charging` is a 0/1 column that the source compares with `== 1`. The
  model makes it a boolean.
- A region literally named `"All"` cannot be told apart from the sentinel.
  Choosing it shows the whole table, as in the code.
- An unknown region choice gives an empty table; the code has no
  fallback to the whole table (app.py lines 45-46), and neither has the
  model.
