# Migration mismatch dashboard: the aggregation step, in Dafny

The dashboard reads a migration file. Each row records one customer: the
product on the legacy system, the product the customer was migrated to, and
the SI reason code. A row is a **mismatch** when the two products differ.
`compute_stats` turns the rows into these outputs:

- the key metrics: customers, mismatches, and the mismatch rate in percent;
- the mismatching rows on their four original columns (`impacted_customers`);
- the customer ids of the mismatching rows, grouped by (legacy, migrated, reason)
  pattern (`impacted`);
- the number of mismatching rows per pattern (`summary`), per reason code
  (`by_reason`) and per (legacy, migrated) pair (`by_pair`). Each of these is
  sorted by count, largest first;
- a narrative. The narrative comes from a language model that is given
  `summary` and `impacted`. A file without mismatches gets a fixed text instead,
  and that path asks the model nothing.

The project models this step as pure functions over a sequence of rows, and
proves what the outputs mean.

- `sorting.dfy`, module `Sorting`: an insertion sort over any strongly
  connected relation (one that relates every two values one way or the other).
  Its contract says the result is a permutation that is ordered from each
  element to the next. The module also has Python's string order (code point by
  code point, a prefix first), proved total, antisymmetric and transitive.
  pandas' `sort_values` is unstable by default, so a caller may rely only on
  what this contract states.
- `group_by.dfy`, module `GroupBy`: pandas' `groupby(..).size()` (`Size`) and
  `groupby(..)[col].apply(list)` (`Collect`), modelled as folds over the rows.
  Two predicates say what a correct table is, using reference definitions that
  do not use the folds. `IsSizeTable` requires one row per key that occurs,
  with the number of rows that carry that key. `IsGroupTable` requires one row
  per key that occurs, with the values of that key's rows in row order. The
  module proves that every permutation of a correct table is again a correct
  table. This is all the later proofs use about a sort, so they hold for every
  ordering of ties that pandas may produce. It also proves that a key order
  that is transitive and antisymmetric on keys admits only one sorted correct
  table.
- `mismatch_dashboard.dfy`, module `MismatchDashboard`: the rows, the
  `is_mismatch` column, `total_mismatches`, the rate, the four grouped views,
  and `ComputeStats` with its zero-mismatch guard.

The model takes every key field to be a non-null string. The statements
"counts sum to `total_mismatches`" depend on that: pandas drops rows with a
null key from a `groupby`.

The rate is a percentage: the code multiplies the ratio by 100
(src/mismatch_dashboard.py:87).

## Model

| member | source | states |
|---|---|---|
| `MismatchDashboard.Flag` | src/mismatch_dashboard.py:84 | the `is_mismatch` column; see `FlagSpec` |
| `MismatchDashboard.FlagSpec` | src/mismatch_dashboard.py:84 | adding `is_mismatch` keeps every row in place; a row's flag is true exactly when its legacy and migrated products differ |
| `MismatchDashboard.TotalMismatches` | src/mismatch_dashboard.py:86 | `int(df["is_mismatch"].sum())`; see `TotalMismatchesSpec` and `SelectFlaggedCount` |
| `MismatchDashboard.Mismatches` | src/mismatch_dashboard.py:89 | the rows whose flag is set, in file order; see `MismatchesSpec` and `TotalMismatchesSpec` |
| `MismatchDashboard.SelectFlaggedCount` | src/mismatch_dashboard.py:86-89 | the filtered frame has exactly as many rows as the column sum counts, never more than the frame, and every kept row is flagged |
| `MismatchDashboard.MismatchesSpec` | src/mismatch_dashboard.py:84-89 | `mismatches` has `total_mismatches` rows, at most the number of rows; each is flagged and its products really differ |
| `MismatchDashboard.ImpactedCustomers` | src/mismatch_dashboard.py:142 | the four original columns of the mismatching rows; see `ImpactedCustomersMembers`, `ImpactedCustomersConcat` and `ImpactedCustomersOfRow` |
| `MismatchDashboard.ImpactedCustomersOfRow` | src/mismatch_dashboard.py:84-89 | a single row is kept exactly when its products differ |
| `MismatchDashboard.ImpactedCustomersConcat` | src/mismatch_dashboard.py:142 | the filter keeps the original order: on two consecutive parts of the file, the result is the result on the first part followed by the result on the second |
| `MismatchDashboard.ImpactedCustomersMembers` | src/mismatch_dashboard.py:142 | `impacted_customers` holds each mismatching row as many times as the file does, and no other row; a row is in it if and only if it is in the file and its products differ |
| `MismatchDashboard.TotalMismatchesSpec` | src/mismatch_dashboard.py:85-86 | `total_mismatches` is the length of `impacted_customers` and at most `total_rows`; it is 0 exactly when no row mismatches, which is exactly when `mismatches` is empty |
| `MismatchDashboard.MismatchRate` | src/mismatch_dashboard.py:87 | `mismatch_rate`, including 0 for a file without rows; see `MismatchRateSpec` |
| `MismatchDashboard.MismatchRateSpec` | src/mismatch_dashboard.py:87 | the rate lies in [0, 100]; it is 0 exactly when there are no mismatches (including a file with no rows); it is 100 exactly when every row of a non-empty file mismatches; for a non-empty file, rate × total_rows = total_mismatches × 100 |
| `MismatchDashboard.PatternLe` | src/mismatch_dashboard.py:132 | the order `groupby` lists patterns in: legacy, then migrated, then reason, each as a Python string; see `PatternOrderIsTotal` |
| `MismatchDashboard.PatternOrderStronglyConnected` | src/mismatch_dashboard.py:132 | the pattern order relates every two patterns one way or the other |
| `MismatchDashboard.PatternLeAntisymmetric` | src/mismatch_dashboard.py:132 | two patterns that are each at most the other are the same pattern |
| `MismatchDashboard.PatternLeTransitive` | src/mismatch_dashboard.py:132 | the pattern order is transitive |
| `MismatchDashboard.PatternOrderIsTotal` | src/mismatch_dashboard.py:132 | on rows of `impacted`, the pattern order is strongly connected, transitive, and antisymmetric on the pattern key |
| `MismatchDashboard.Impacted` | src/mismatch_dashboard.py:131-135 | `impacted`; see `ImpactedSpec` and `ImpactedUnique` |
| `MismatchDashboard.ImpactedSpec` | src/mismatch_dashboard.py:131-135 | `impacted` has one row per pattern that occurs among the mismatches; each row lists the customer ids of that pattern's rows in file order and is non-empty; patterns ascend; together the lists hold every mismatching customer id exactly once, as a multiset |
| `MismatchDashboard.ImpactedUnique` | src/mismatch_dashboard.py:131-135 | any table with one row per pattern, listing that pattern's customer ids in file order, with patterns ascending, is `impacted` itself: the group order of `groupby` is fully determined |
| `MismatchDashboard.Summary` | src/mismatch_dashboard.py:147-152 | `summary`; see `SummarySpec` |
| `MismatchDashboard.SummarySpec` | src/mismatch_dashboard.py:147-152 | `summary` has each pattern of a mismatching row once, with its row count (at least 1) and no other pattern; the counts sum to `total_mismatches`; counts never increase down the table |
| `MismatchDashboard.ByReason` | src/mismatch_dashboard.py:154-159 | `by_reason`; see `ByReasonSpec` |
| `MismatchDashboard.ByReasonSpec` | src/mismatch_dashboard.py:154-159 | `by_reason` has each reason code of a mismatching row once, with its row count (at least 1) and no other code; the counts sum to `total_mismatches`; counts never increase down the table |
| `MismatchDashboard.ByPair` | src/mismatch_dashboard.py:161-166 | `by_pair`; see `ByPairSpec` |
| `MismatchDashboard.ByPairSpec` | src/mismatch_dashboard.py:161-166 | `by_pair` has each (legacy, migrated) pair of a mismatching row once, with its row count (at least 1) and no other pair; the counts sum to `total_mismatches`; counts never increase down the table |
| `MismatchDashboard.ImpactedMatchesSummary` | src/mismatch_dashboard.py:131-152 | `impacted` and `summary` have the same patterns; each pattern's list of customer ids is exactly as long as its count |
| `MismatchDashboard.ComputeStats` | src/mismatch_dashboard.py:81-191 | `compute_stats`; see `ComputeStatsKpi`, `ComputeStatsGuard` and `ComputeStatsTables` |
| `MismatchDashboard.ComputeStatsKpi` | src/mismatch_dashboard.py:96-100 | on both paths the reported metrics are (`total_rows`, `total_mismatches`, rate); the literal "0" and "0.00" of the zero-mismatch path are the true count and rate (lines 168-172 give the other path) |
| `MismatchDashboard.ComputeStatsGuard` | src/mismatch_dashboard.py:94-128 | the guard branch is taken if and only if no row's products differ; it then gives zero metrics, empty reason and pair tables, empty customer files and the fixed narrative, and asks the language model nothing; otherwise the model is asked about `summary` and `impacted` |
| `MismatchDashboard.ComputeStatsTables` | src/mismatch_dashboard.py:128-191 | on both paths the returned reason and pair tables are the grouped counts of the mismatching rows, sum to the reported mismatch total and never increase; the two customer files hold `impacted` and `impacted_customers` |
| `GroupBy.Size` | src/mismatch_dashboard.py:148-150 | `groupby(..).size().reset_index(name="count")`; see `SizeSpec` |
| `GroupBy.SizeSpec` | src/mismatch_dashboard.py:148-150 | `groupby(..).size()` gives one row per key that occurs, with the number of rows carrying that key (at least 1), and distinct keys; the counts sum to the number of rows |
| `GroupBy.Collect` | src/mismatch_dashboard.py:132-134 | `groupby(..)[col].apply(list).reset_index(..)`; see `CollectSpec` |
| `GroupBy.CollectSpec` | src/mismatch_dashboard.py:132-134 | `groupby(..)[col].apply(list)` gives one non-empty row per key that occurs, with distinct keys; each key's list holds its rows' values in row order; all lists together hold the column's values, as a multiset |
| `GroupBy.AddKeySpec` | src/mismatch_dashboard.py:148-149 | one more row opens or bumps only its own group's count; the total grows by one; keys stay distinct and counts stay positive |
| `GroupBy.AddMemberSpec` | src/mismatch_dashboard.py:132-133 | one more row appends its value only to its own group's list; keys stay distinct and lists stay non-empty |
| `GroupBy.AddMemberFlatten` | src/mismatch_dashboard.py:132-133 | one more row adds its value to the listed values exactly once |
| `GroupBy.ValuesWhereLength` | src/mismatch_dashboard.py:131-152 | a group's list of values is as long as its row count |
| `GroupBy.GroupsMatchSizes` | src/mismatch_dashboard.py:131-152 | a list table and a count table over the same rows and key have the same keys; each key's list is as long as its count |
| `GroupBy.PermutedKeySet` | src/mismatch_dashboard.py:151 | any permutation of a table has the same keys |
| `GroupBy.PermutedKeyed` | src/mismatch_dashboard.py:151 | any permutation of a table with distinct keys keeps its keys, keeps them distinct, and keeps each key's aggregate |
| `GroupBy.PermutedTotal` | src/mismatch_dashboard.py:151 | any permutation of a count table keeps the sum of its counts |
| `GroupBy.PermutedFlatten` | src/mismatch_dashboard.py:132-135 | any permutation of a list table keeps every listed value, as often as it is listed |
| `GroupBy.PermutedSizeTable` | src/mismatch_dashboard.py:151 | any permutation of a correct count table is a correct count table of the same rows, with the same total |
| `GroupBy.PermutedGroupTable` | src/mismatch_dashboard.py:132-135 | any permutation of a correct list table is a correct list table of the same rows, listing the same values |
| `GroupBy.SortedTablesEqual` | src/mismatch_dashboard.py:132 | under a transitive order that is antisymmetric on keys, two tables with distinct keys, the same keys and the same aggregate per key that are both in order are equal |
| `GroupBy.SortByCountDesc` | src/mismatch_dashboard.py:151 | `sort_values("count", ascending=False)` returns a permutation of the table in which counts never increase |
| `GroupBy.SortedByCountIsNonIncreasing` | src/mismatch_dashboard.py:151 | if each count is at least the next one, then every count is at least every later one |
| `GroupBy.SizeSortedByCount` | src/mismatch_dashboard.py:147-166 | a size table sorted by count descending is still the size table of its rows; its counts sum to the number of rows and never increase |
| `Sorting.Insert` | src/mismatch_dashboard.py:151 | inserting an element adds it exactly once and keeps every other element; the new head is the element or the old head |
| `Sorting.InsertSorted` | src/mismatch_dashboard.py:151 | inserting into an ordered sequence keeps it ordered |
| `Sorting.SortBy` | src/mismatch_dashboard.py:151 | the result is a permutation of the input, with each element and its successor in order |
| `Sorting.SortedPairwise` | src/mismatch_dashboard.py:151 | under a transitive order, a sequence ordered from each element to the next is ordered between any element and every later one |
| `Sorting.StrLe` | src/mismatch_dashboard.py:132 | Python's `<=` on `str`; see `StrLeTotal`, `StrLeAntisymmetric` and `StrLeTransitive` |
| `Sorting.StrLeTotal` | src/mismatch_dashboard.py:132 | Python's string order relates every two strings |
| `Sorting.StrLeAntisymmetric` | src/mismatch_dashboard.py:132 | two strings that are each at most the other are equal |
| `Sorting.StrLeTransitive` | src/mismatch_dashboard.py:132 | Python's string order is transitive |

## Left out

- Loading the `.env` file and setting the API key (src/mismatch_dashboard.py:5-17): environment set-up, no logic.
- The language-model client and `run_llm_analysis`, including its prompt and its fallback error string (src/mismatch_dashboard.py:28-78): an external network call whose output cannot be predicted. The model keeps only the request. `Narrative.LlmAnalysis` carries the two tables the model is given, and the zero-mismatch path is proved never to produce one.
- Reading the CSV, `os.makedirs`, every `to_csv`/file write and the `print` calls: filesystem and console I/O. `Stats` carries what the two customer files hold, and the narrative stands for the text file.
- The matplotlib figures (src/mismatch_dashboard.py:103-106, 175-181): rendering only.
- The Gradio interface and `demo.launch()` (src/mismatch_dashboard.py:193-234): UI wiring.
- The two-decimal rendering of the rate and the text layout of the key metrics (src/mismatch_dashboard.py:96-100, 168-172). The rate is an exact `real`, and `Kpi` holds the three numbers that the text shows.
- pandas' handling of missing values. `groupby` drops rows whose key is null, and `NaN != NaN` flags two null products as a mismatch. All key fields are assumed to be non-null strings.
- The column types that `read_csv` infers. pandas may parse a column of digits as integers. For `customer_id` this changes nothing here, because the model carries ids unchanged and never compares them. For the product and reason columns it does change results: "007" and "7" become the same key, and numeric reason codes group and sort as numbers rather than as strings. The model takes every key field to be a string as written in the file.
- The key order that `groupby` gives the three count tables before `sort_values`. The sort is unstable, so the final order of equal counts is unspecified either way. The model groups in order of first appearance and then sorts, which yields one of the orders pandas allows. Only the non-increasing count order is stated, and `PermutedSizeTable` shows that every order pandas may choose is a correct table. For `impacted` no such gap remains: `ImpactedUnique` shows that the key order fixes the table.
- The empty `pd.DataFrame()` of the zero-mismatch path has no columns. The model returns an empty sequence of the table's row type.
