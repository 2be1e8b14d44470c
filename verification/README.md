# Customer segmentation core, modelled in Dafny

This project models the computations of the e-commerce customer-segmentation
pipeline. The pipeline has four parts:

- **RFM profile.** It builds a profile of every named customer from the invoice
  line items. The profile holds recency, frequency and monetary value (RFM).
- **Enrichment.** It adds engineered features to the profile: a first-time-buyer
  flag, the mean time interval between purchases, per-invoice means and
  per-month means.
- **Segmentation.** It picks the number of KMeans clusters with an elbow search
  over the distortions of k = 1 .. n clusters.
- **Interpretation and export.** It keeps the five most important features per
  cluster and explodes them into a ranked table. It flags as anomalous any
  cluster whose top five scores are all zero. It merges the interpreter
  parameters, the metrics and the anomaly flag into one control-file dictionary.

Tables are modelled as follows:

- A pandas DataFrame becomes a `seq` of row datatypes.
- A `groupby(...).agg(...)` becomes a `map` from key to aggregate.
- A JSON dictionary becomes a `map<string, Value>`.
- Timestamps are whole seconds since 1970-01-01. A day gap is the floor of the
  difference divided by 86400, which is what `Timedelta.days` gives.
- Money and means are `real`.

Modules:

- `Wrappers`: `Option` and `Result`.
- `Seqs`: `Sum` and `Mean` over a projection.
- `Grouping`: selection by key, `groupby` as an ordered list of groups, and
  per-key aggregation.
- `Calendar`: day gaps and `dt.month`.
- `Profiling`: `drop_anonymous`, `distinct_customer_invoice`, `get_recency`,
  `get_frequency`, `get_monetary` and `merge_rfm`.
- `Enrichment`: `feature_en_additional`.
- `Segmentation`: `find_best_elbow` and the k-range of `train`.
- `Interpretation`: `map_feature_importance`, `build_explode_cluster_df`,
  `exclude_unimportant_feature` and `identify_anomaly_cluster`.
- `ControlFile`: `build_flag_dict`, `build_control_file_dict` and the artifact
  order of `LocalOutputWriter.write`.

Two places in the source do something other than what they evidently intend
(see "## Findings"). For each, the model keeps the behaviour as written next to
a corrected definition, and the rest of the model uses the corrected one.

Two edge cases follow the code:

- Fewer than three distortions is an error. `np.argmin` of an empty slope-change
  array raises at code/models/ml_services.py:231, and line 241 re-raises that
  error as `ValueError`.
- An empty transaction table is not an error: it gives an empty profile.

## Model

| member | source | states |
|---|---|---|
| `Profiling.DropAnonymous` | code/models/ml_services.py:29-33 | a row survives if and only if it is a row of the input whose CustomerID is not 0 |
| `Profiling.DropAnonymousCounts` | code/models/ml_services.py:29-33 | every named-customer row survives exactly as often as it occurs; anonymous rows never survive |
| `Profiling.DropAnonymousConcat` | code/models/ml_services.py:29-33 | dropping distributes over concatenation, so survivors keep their relative order |
| `Profiling.DistinctInvoices` | code/models/ml_services.py:35-42 | the deduplicated table holds, for each invoice, the customer and date of its first row, in first-occurrence order, with no invoice twice |
| `Profiling.DistinctInvoicesCustomers` | code/models/ml_services.py:40 | every customer of the deduplicated table is a customer of the input rows |
| `Profiling.MaxDate` | code/models/ml_services.py:52 | the calculation date bounds every invoice date and is one of them |
| `Profiling.DiffDaysInGroup` | code/models/ml_services.py:48 | the per-row day-diff is missing for a customer's first invoice and otherwise is the day gap to the customer's previous invoice |
| `Profiling.RecencyTable` | code/models/ml_services.py:44-58 | one row per customer's last invoice row, holding the day gap to that customer's previous invoice or else the days to the latest date; customers are distinct and each is a customer of the input |
| `Profiling.RecencyTableOrder` | code/models/ml_services.py:49 | the recency rows keep the order of the customers' last rows: of two table rows, the earlier comes from the earlier last row |
| `Profiling.RecencyTableCustomers` | code/models/ml_services.py:49 | keeping the last row per customer gives exactly one recency row per customer of the deduplicated table |
| `Profiling.RecencyOfCustomer` | code/models/ml_services.py:44-58 | every customer gets the reference recency: whole days between their last two invoices in row order, or for a single-invoice customer the non-negative days from that invoice to the latest date |
| `Profiling.RecencyOfMember` | code/models/ml_services.py:44-58 | every row of the recency table carries its customer's reference recency |
| `Profiling.FrequencyTable` | code/models/ml_services.py:60-63 | keys are the customers of the rows; each value is the number of distinct invoices among that customer's rows, at least 1 |
| `Profiling.MonetaryTable` | code/models/ml_services.py:65-68 | keys are the customers of the rows; each value is the sum of total_spend over that customer's rows |
| `Profiling.MergeRfm` | code/models/ml_services.py:70-74 | the inner merge keeps a recency row exactly when its customer has frequency and monetary entries, takes the values from the three tables, and keeps customers unique |
| `Profiling.MergeRfmSingle` | code/models/ml_services.py:70-74 | a single recency row is kept, with its frequency and monetary values, exactly when both tables hold its customer |
| `Profiling.MergeRfmConcat` | code/models/ml_services.py:70-74 | the merge distributes over concatenation, so the profile keeps the recency table's row order |
| `Profiling.RfmProfile` | code/models/ml_services.py:153-157 | the profile has at most one row per recency row, unique customers, and each row's recency is its customer's recency row (full contract: `Profiling.RfmProfileSpec`) |
| `Profiling.RfmProfileSpec` | code/models/ml_services.py:153-159 | the RFM profile has one row per named customer of the deduplicated invoices, none anonymous, each with the reference recency |
| `Profiling.RfmRowSpec` | code/models/ml_services.py:153-159 | any single profile row is named, belongs to a customer of the deduplicated invoices, and has the reference recency |
| `Grouping.GroupBy` | code/models/ml_services.py:115-121 | groups have distinct, non-empty keys; the keys are those of the rows; each group holds exactly the rows of its key, in order |
| `Grouping.GroupByTotal` | code/models/ml_services.py:115-126 | grouping partitions the rows: the group totals add up to the plain total |
| `Grouping.AggregateGroupBy` | code/models/ml_services.py:62 | a per-key aggregate has the rows' keys as its keys and the aggregate of each key's rows as its value |
| `Calendar.DayGap` | code/models/ml_services.py:48 | the whole-day gap is the floor of the difference in days, and is non-negative for ordered dates |
| `Calendar.YearAndDay` | code/models/ml_services.py:137 | normalising a year and day offset gives a day inside its year that lies the same number of days after 1970-01-01 |
| `Calendar.CalendarMonth` | code/models/ml_services.py:137 | the month is 1 to 12, and is the month whose day range holds the timestamp's day within its year, year and day being those that lie the timestamp's whole days after 1970-01-01 |
| `Enrichment.FirstTimeBuyerAsWritten` | code/models/ml_services.py:91-93 | the flag as written is 0 for every profile row |
| `Enrichment.FirstTimeBuyer` | code/models/ml_services.py:91-93 | the corrected flag is 0 or 1, and is 1 exactly for customers with a single deduplicated invoice |
| `Enrichment.FirstTimeBuyerFinding` | code/models/ml_services.py:91-93 | every profile customer with one deduplicated invoice is a first-time buyer, yet the flag as written is 0 for them |
| `Enrichment.FirstTimeBuyerExample` | code/models/ml_services.py:91-93 | one invoice of customer 7 gives recency 0 and corrected flag 1, while the flag as written is 0 |
| `Enrichment.MeanGapChange` | code/models/ml_services.py:100 | the aggregate is missing exactly for customers with at most two deduplicated invoices; otherwise it is the non-negative sum of the absolute gap changes divided by their number, two less than the number of invoices |
| `Enrichment.GapChangeTerms` | code/models/ml_services.py:98-100 | with n >= 3 invoices there are n - 2 terms, term j being the absolute difference between the gap after row j + 1 and the gap after row j |
| `Enrichment.UnevenGapsInterval` | code/models/ml_services.py:98-100 | gaps of 1, 3 and 6 days give a mean time interval of 2.5, while the mean gap is 10/3 |
| `Enrichment.DiffColumnIsGaps` | code/models/ml_services.py:98-100 | the day-diff column the aggregate sees is, per customer, missing at the first row and then the consecutive day gaps |
| `Enrichment.EvenlySpacedInterval` | code/models/ml_services.py:98-100 | purchases evenly spaced `gap` days apart have mean gap `gap` but mean time interval 0 |
| `Enrichment.TimeTable` | code/models/ml_services.py:100-102 | the interval table has one entry per customer of the deduplicated invoices, holding that customer's first-time flag and mean gap change |
| `Enrichment.PurchaseTable` | code/models/ml_services.py:115-133 | keys are the customers of the rows; each value is the per-invoice means of that customer's rows |
| `Enrichment.TicketSizePerInvoice` | code/models/ml_services.py:115-126 | mean ticket size is the customer's total spend divided by their number of distinct invoices |
| `Enrichment.QuantityPerInvoice` | code/models/ml_services.py:115-126 | mean quantity is the customer's total quantity divided by their number of distinct invoices |
| `Enrichment.UniqueItemBounds` | code/models/ml_services.py:115-126 | mean distinct items per invoice lies between 1 and the customer's number of distinct stock codes |
| `Enrichment.MonthTable` | code/models/ml_services.py:136-145 | keys are the customers of the rows; each value is the per-month means of that customer's rows |
| `Enrichment.AtMostTwelveMonths` | code/models/ml_services.py:137-139 | a customer's rows fall into at most twelve month groups, whatever years they span |
| `Enrichment.FreqPerMonthBounds` | code/models/ml_services.py:139-145 | invoices per month lie between 1 and the customer's frequency |
| `Enrichment.SpentPerMonthBounds` | code/models/ml_services.py:139-145 | with every line's spend in [lo, hi], the mean spent per month stays in [lo, hi], because it averages line items rather than monthly totals |
| `Enrichment.Enrich` | code/models/ml_services.py:148-150 | the inner joins keep a profile row exactly when every feature table has its customer; when all do, the result is row for row the profile |
| `Enrichment.ProfileJoinable` | code/models/ml_services.py:148-150 | every RFM profile customer has an entry in each of the three feature tables |
| `Enrichment.EnrichedProfile` | code/models/ml_services.py:147-151 | the three inner merges lose no RFM row and keep the profile's customer order |
| `Enrichment.EnrichedProfileSpec` | code/models/ml_services.py:91-151 | the enriched profile keeps every RFM row in order; flag, interval (falling back to recency), ticket size and invoices per month are as above |
| `Segmentation.Slopes` | code/models/ml_services.py:219 | one slope per consecutive pair of distortions, each the ratio of the later to the earlier |
| `Segmentation.SlopeChanges` | code/models/ml_services.py:221 | one change per consecutive pair of slopes, each the difference of the later and the earlier |
| `Segmentation.ArgMinAbs` | code/models/ml_services.py:231 | among the unrejected candidates, returns the first in order of magnitude, lower index first on ties |
| `Segmentation.ArgMinAbsSeq` | code/models/ml_services.py:231 | `argmin(abs(...))`: an index of least magnitude, with no earlier index as small |
| `Segmentation.SearchElbow` | code/models/ml_services.py:228-239 | a returned index is the best accepted slope change; none is returned exactly when no slope change passes the test |
| `Segmentation.BestElbowUnique` | code/models/ml_services.py:228-239 | at most one index is the best elbow |
| `Segmentation.FindBestElbow` | code/models/ml_services.py:213-241 | errors exactly on fewer than three distortions, a zero divisor, or no accepted slope change; otherwise k is two more than the best elbow index |
| `Segmentation.ElbowAsWritten` | code/models/ml_services.py:228-239 | a k returned by the loop as written lies in 2 .. (number of slope changes) + 1, and the test that accepted it compared either the original slope change or the overwriting constant 1 |
| `Segmentation.ElbowAsWrittenLoops` | code/models/ml_services.py:228-239 | on distortions 1, 1, 3 the loop as written returns within no number of rounds |
| `Segmentation.ElbowAsWrittenLoopsDecreasing` | code/models/ml_services.py:228-239 | on the decreasing distortions 100, 30, 20 (slope change 11/30, slopes 0.3 and 2/3) the loop as written returns within no number of rounds |
| `Segmentation.ElbowAsWrittenReturnsRejected` | code/models/ml_services.py:228-239 | on distortions 1, 2, 10 no slope change passes the test, yet the loop as written returns k = 2 |
| `Segmentation.ChooseK` | code/models/ml_services.py:195-211 | distortions are the inertia of k = 1 .. n in order; a chosen k lies in 2 .. n-1 and is the elbow of those distortions; fewer than three is an error, a zero inertia for some k < n is the zero-distortion error, and no accepted slope change is the no-convergence error, each in both directions |
| `Interpretation.RankIndices` | code/models/ml_services.py:395-396 | the ranking lists every index exactly once, by non-increasing score |
| `Interpretation.TopIndices` | code/models/ml_services.py:395-397 | the top indices are min(5, n) distinct ones by non-increasing score, and no index left out scores higher than one kept |
| `Interpretation.MapCluster` | code/models/ml_services.py:393-404 | a cluster keeps its name; position k holds the column and score at the k-th of the top min(5, n) distinct indices, so scores are non-increasing and no left-out feature scores higher |
| `Interpretation.MapFeatureImportance` | code/models/ml_services.py:390-406 | one mapped entry per cluster, in the input order |
| `Interpretation.ExplodeEntry` | code/models/ml_services.py:410 | an entry explodes into one row per feature, or into a single row with missing feature and score for an empty list; every row carries the entry's cluster |
| `Interpretation.ExplodeEntryRow` | code/models/ml_services.py:410 | the k-th exploded row of an entry holds its k-th feature and that feature's own score |
| `Interpretation.Explode` | code/models/ml_services.py:410 | no entries give no rows, and the row count is the sum over the entries of one row per feature, or one row for an empty list |
| `Interpretation.ExplodeSnoc` | code/models/ml_services.py:410 | one more entry appends exactly that entry's rows to the exploded table |
| `Interpretation.ExplodeConcat` | code/models/ml_services.py:410 | exploding a concatenation concatenates the two explosions, so no entry's rows move, repeat or vanish |
| `Interpretation.ExplodeAround` | code/models/ml_services.py:410 | an entry's rows sit between the rows of the entries before it and those of the entries after it |
| `Interpretation.ExplodeOfCluster` | code/models/ml_services.py:410 | with distinct clusters, the exploded rows of an entry's cluster are exactly that entry's rows, in feature order |
| `Interpretation.ExplodeClusterSet` | code/models/ml_services.py:410 | the exploded rows carry exactly the clusters of the entries, no more and no fewer |
| `Interpretation.RankRows` | code/models/ml_services.py:411 | ranking keeps every row's cluster, feature and score in place, and every rank is at least 1 |
| `Interpretation.BuildExplodeClusterTable` | code/models/ml_services.py:408-412 | one ranked row per exploded row with its cluster, feature and score, so the row count is that of `Interpretation.Explode`; every rank is at least 1; each entry's cluster has a row and no other cluster appears |
| `Interpretation.TableClusterCount` | code/models/ml_services.py:408-412 | the table holds as many rows of each cluster as the exploded rows it ranks |
| `Interpretation.ClusterTableRows` | code/models/ml_services.py:408-412 | with distinct clusters, a cluster's entry with n features gets exactly n table rows, and an entry with none gets one |
| `Interpretation.ExplodeLayout` | code/models/ml_services.py:410 | the exploded rows of each entry follow those of the entries before it, in feature order |
| `Interpretation.ExplodeRank` | code/models/ml_services.py:408-412 | with distinct clusters, the k-th feature of an entry sits in the exploded table with its score and rank k + 1 |
| `Interpretation.Take` | code/models/ml_services.py:423-424 | Python slicing keeps a prefix of length min(n, length) |
| `Interpretation.ExcludeUnimportant` | code/models/ml_services.py:414-432 | an entry is kept, trimmed to its non-zero count, exactly when not all five of its scores are zero; nothing is dropped exactly when no entry is unimportant |
| `Interpretation.ExcludeSingle` | code/models/ml_services.py:418-430 | a single entry is dropped when unimportant and otherwise kept, trimmed |
| `Interpretation.ExcludeConcat` | code/models/ml_services.py:414-432 | exclusion distributes over concatenation, so the kept entries stay in their input order |
| `Interpretation.TrimKeepsPositive` | code/models/ml_services.py:422-424 | for sorted non-negative scores the trim keeps exactly the positive scores and drops only zeros |
| `Interpretation.ExcludeKeepsZerosAndNegatives` | code/models/ml_services.py:418-424 | the trim cuts by count, not by value: scores 0, 0, -0.1, -0.2, -0.3 keep the entry, cut to its first three scores, both zeros included |
| `Interpretation.FewFeaturesNeverUnimportant` | code/models/ml_services.py:418 | an entry with fewer than five scores is never dropped |
| `Interpretation.IdentifyAnomalyCluster` | code/models/ml_services.py:434-456 | the anomaly flag is set exactly when some entry is unimportant; a row is tagged exactly when its cluster was dropped; no row is tagged without an anomaly |
| `Interpretation.NoneDroppedNoAnomaly` | code/models/ml_services.py:439-442 | when no entry is dropped the set of anomaly clusters is empty |
| `Interpretation.AnomalyClustersAreDropped` | code/models/ml_services.py:445-447 | with distinct cluster names, a cluster is an anomaly exactly when its entry is unimportant |
| `ControlFile.BuildFlagDict` | code/models/io_services.py:215-216 | the flag dictionary has exactly the one key, holding the value |
| `ControlFile.AllKeysSnoc` | code/models/io_services.py:220-221 | merging one more artifact adds exactly its keys to the merged key set |
| `ControlFile.LatestValue` | code/models/io_services.py:221 | a merged key's value is that of the last artifact holding it |
| `ControlFile.BuildControlFileDict` | code/models/io_services.py:218-223 | the merged keys are the union of the artifacts' keys, each holding the value from the last artifact that has it |
| `ControlFile.MergeEdgeCases` | code/models/io_services.py:218-223 | merging no artifacts gives the empty dictionary; merging one gives it back |
| `ControlFile.MergeOfThree` | code/models/io_services.py:343-344 | merging three artifacts: keys are their union, and the third's value beats the second's, which beats the first's |
| `ControlFile.ControlFileOf` | code/models/io_services.py:337-344 | a missing params or metrics artifact is an error; otherwise the anomaly flag always wins its key, and metrics beat params on a shared key |

## Left out

- Rounding: `round(x, 2)` of the interval, `.round(2)` of the per-invoice and per-month means, and `np.round(..., 4)` of importance scores. All values are exact reals.
- The rounding of importance scores at code/models/ml_services.py:397 feeds the zero tests at lines 418 and 422. A score with magnitude below 0.00005 is zero in the source but not in the model. For such scores, `Interpretation.Unimportant`, `Interpretation.Trim` and the anomaly flag can differ from the source.
- Row labels: the model assumes the DataFrame index is unique. `drop_anonymous` drops rows by index label (lines 31-32), and the recency fill aligns by label (line 53). With a repeated label, pandas can drop or fill rows that the model keeps apart.
- Group order: pandas `groupby` sorts groups by key, and the model lists them by first appearance. Every grouped result is a keyed map, a count or a mean, so no contract depends on group order.
- The KMeans fits of `train`: the inertia of k clusters is a parameter. The LightGBM fit and permutation importance are also left out: the importance scores are inputs.
- Floating point: `np.divide` and `np.diff` are modelled on reals. Division by a zero distortion, which gives inf or NaN in NumPy, is an explicit error.
- I/O: reading the source tables, `json.dump`, database and parquet writes, model pickling, the model-version bump and logging.
- The caching in `distinct_customer_invoice`: `unique_invoice` is never initialised before the first call, so the attribute test at line 37 fails as written. The model computes the deduplicated table from the anonymous-free rows each time, as the pipeline intends.
- The missing `self` of `find_best_elbow` at line 213: the model treats it as a plain function of the distortions.
- `combine_first` at lines 108-112: it aligns positionally after sorting both sides by CustomerID. The model does a lookup by customer, which equals the positional fill because both sides hold the same sorted customers. The extra columns `combine_first` carries in, and the `_x`/`_y` suffixes they cause in the merge of line 148, are not modelled.
- Enrichment.EnrichedProfileSpec: states the corrected first-time flag, not the as-written one, which is always 0 (see "## Findings").
- The tie order of `argsort` at line 395: NumPy's default sort is not stable, so equal scores may come out in any order. The model ranks a later index first on ties, and its contracts state only the score order.
- The missing value the explode of line 410 produces for an empty feature list is modelled as an absent feature and score.
- Interpretation.IdentifyAnomalyCluster: models the evident meaning of the `DataFrame.apply` with a dict at lines 449-451, a per-row test of the cluster against the anomaly set. The as-written pandas behaviour is not pinned down.
- The is_anomaly flag at line 337 may be missing from the output; it is then written as JSON `null`. Params or metrics that are missing are an error, because `**None` raises.

## Findings

| source | as written | input that shows it | evidently intended | confidence | as-written member | corrected member |
|---|---|---|---|---|---|---|
| code/models/ml_services.py:91-93 | the null test reads the profile's recency, which `get_recency` already filled, so `is_first_time_buyer` is 0 for every customer | one invoice row of customer 7: recency 0, flag 0 | flag 1 exactly for customers with a single invoice, whose recency was missing before the fill | not executed | `Enrichment.FirstTimeBuyerAsWritten` (`Enrichment.FirstTimeBuyerFinding`, `Enrichment.FirstTimeBuyerExample`) | `Enrichment.FirstTimeBuyer` |
| code/models/ml_services.py:228-239 | a rejected slope change is overwritten with 1 and stays a candidate, and the test then compares the 1 | distortions 1, 1, 3 never return, nor do the decreasing distortions 100, 30, 20 that KMeans inertia can produce; distortions 1, 2, 10 return k = 2 although its slope change fails the test | reject the candidate for good and report failure once every candidate is rejected | not executed | `Segmentation.ElbowAsWritten` (`Segmentation.ElbowAsWrittenLoops`, `Segmentation.ElbowAsWrittenLoopsDecreasing`, `Segmentation.ElbowAsWrittenReturnsRejected`) | `Segmentation.FindBestElbow` |
