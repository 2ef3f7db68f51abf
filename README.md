# Orange County parcel revaluation: reconciliation pipeline in Dafny

This project models the batch preprocessing of `preprocess.py`. The script
takes two yearly parcel extracts of Orange County, NC: 2024, the prior year,
and 2025, the current year. It produces one record per surviving parcel with
its year-over-year value ratios. It also produces a per-ZIP table of median
values joined to ZIP boundaries. Every stage builds a new table from the
previous one, so the model is a chain of functions over sequences of records,
with lemmas about them.

The modules:

- `Tables` (`tables.dfy`) holds the table operations every stage is built
  from:
  - selection of rows by a boolean mask (`Where`);
  - first-match lookup of a key (`FirstIndex`, `FirstWithKey`);
  - keep-first deduplication on a key column (`DropDuplicates`);
  - the subsequence relation, "obtained by deleting rows only".
- `Statistics` (`statistics.dfy`) holds an insertion sort on reals and the
  median used by the ZIP grouping. For an even count the median is the mean
  of the two middle values.
- `Parcels` (`reconcile.dfy`) holds the parcel pipeline, in order:
  1. projection and renaming of the 2024 columns;
  2. deduplication of both years;
  3. the exemption filter;
  4. the left join on ParcelID;
  5. the validity filter;
  6. the four derived columns.

  `Reconcile` composes them. `ReconcileLookup` states which record the
  pipeline produces for each ParcelID.
- `ParcelScenarios` (`scenarios.dfy`) holds single-parcel worked examples.
- `ZipSummary` (`zip_summary.dfy`) holds the ZIP exclusion, the grouping
  with medians, and the right merge with a boundary reference followed by
  dropping the ZIPs that have no boundary.

Modelling choices:

- Numbers are `real`. The ratios and medians are exact divisions, with no
  floating-point rounding.
- A cell that pandas fills with NaN is `None` in an `Option` or `Missing`
  in a `Cell`. This covers the 2025 columns of a parcel without a 2025
  match.
- A division by zero gives a signed `Infinite` cell, as pandas does. The
  case 0 / 0 gives `Missing`.
- A parcel without a 2025 match fails the validity filter, because a NaN
  compares unequal to everything.

What the code does, where one might expect otherwise:

- Deduplication keeps the first row of each ParcelID. The comments at
  preprocess.py:22 and :25 say "last occurrence", but both calls keep the
  first. The model follows the code. `ExemptFirstOccurrenceWins` shows one
  consequence: if a parcel's first 2025 row is exempt, a later non-exempt
  duplicate does not bring the parcel back.
- The guard of the building-share column is the prior building value. Its
  denominator is the current total value, which nothing checks. A valid
  parcel whose current total is 0 gets an infinite share when its current
  building value is non-zero, and a NaN share when that is 0 too.
  `BuildingShareCanBeInfinite` exhibits the infinite case.
- Every ratio guard (`> 1` on the prior value) is already implied by the
  validity filter, so the missing-marker branch never fires on the output
  (`DeriveOfValid`). For the same reason, a parcel with a prior land value
  of 0 is not in the output at all, rather than appearing with a missing
  land ratio (`ZeroPriorLandValue`).
- A ratio in the output is 0 when the current value is 0. Ratios are not
  always positive (`RatiosFollowCurrentSign`).
- The excluded ZIPs are the fixed list 27312 and 27515, not a
  minimum-count rule. The ZIP table has no percent-change column.

## Model

| member | source | states |
|---|---|---|
| `Tables.DropDuplicates` | preprocess.py:22-26 | The result has unique ParcelIDs and is the input with rows deleted, in the same order. It has the same set of ParcelIDs as the input. For every ParcelID it holds the input's first row with that ID. |
| `Tables.DropDuplicatesIdempotent` | preprocess.py:23-26 | Deduplicating twice gives the same table as deduplicating once. |
| `Tables.DropDuplicatesOfUnique` | preprocess.py:23-26 | A table whose ParcelIDs are already unique is returned unchanged. |
| `Tables.Where` | preprocess.py:29-39 | Boolean-mask selection. Every kept row satisfies the mask. Every input row that satisfies the mask is kept, as many times as it occurs in the input. The result is the input with rows deleted, order kept. |
| `Tables.FirstWithKeyWhere` | preprocess.py:26-29 | On a table with unique keys, looking a key up after the filter finds the row the unfiltered lookup finds if the mask keeps that row, and nothing otherwise. |
| `Tables.SubsequenceKeepsUniqueKeys` | preprocess.py:26-29 | Deleting rows from a table with unique ParcelIDs leaves them unique. The exemption filter keeps the 2025 table unique. |
| `Tables.SubsequenceKeepsIncreasing` | preprocess.py:101-102 | Deleting rows keeps the ZIPs in ascending order. |
| `Tables.WhereOfWhere` | preprocess.py:82-87 | Selecting one ZIP's rows after the exclusion mask gives the same rows as selecting them without it, when that ZIP is not excluded. |
| `Parcels.ThinPrior` | preprocess.py:13-20 | One row per 2024 row with the same ParcelID. The five comparison columns are carried over under their `_2024` names. |
| `Parcels.ThinThenDropDuplicates` | preprocess.py:13-23 | Projecting and then deduplicating, as the script does, equals deduplicating the full rows and then projecting. |
| `Parcels.FirstWithKeyThin` | preprocess.py:13-20 | A lookup in the projected table finds the projection of the row found in the full table. |
| `Parcels.DropExempt` | preprocess.py:29 | Every kept 2025 row has exemption 0. Every input row with exemption 0 is kept. Order is kept. |
| `Parcels.LeftJoin` | preprocess.py:32 | Every joined row's 2024 side is a row of the 2024 table. A matched 2025 side is a row of the 2025 table with the same ParcelID. A missing 2025 side means no 2025 row has that ParcelID. There are at least as many rows as 2024 rows. |
| `Parcels.LeftJoinOneToOne` | preprocess.py:23-32 | When the 2025 table has unique ParcelIDs, the join has exactly one row per 2024 row, in 2024 order. Each row is paired with the first 2025 row of its ParcelID, or with nothing. |
| `Parcels.FirstWithKeyLeftJoin` | preprocess.py:32 | Looking a ParcelID up in the join finds the 2024 row paired with the 2025 lookup of the same ID. |
| `Parcels.KeepValid` | preprocess.py:35-39 | Every kept row has a 2025 side, equal land and finished areas, and all three 2024 values above 1. Every joined row meeting these conditions is kept, in order. Unmatched parcels are dropped. |
| `Parcels.Divide` | preprocess.py:44-66 | Pandas division on cells that may be NaN. The result is a number exactly when both cells are present and the divisor is non-zero; that number times the divisor is the dividend. It is infinite exactly for a non-zero dividend over 0, with the dividend's sign. |
| `Parcels.Derive` | preprocess.py:44-66 | Each ratio is defined exactly when its prior value is above 1 and the 2025 side is present, and then ratio × prior = current; no ratio is infinite. The building share is defined exactly when the prior building value is above 1, the 2025 side is present and the current total is non-zero, and then share × current total = current building. It is infinite exactly when the current total is 0 and the current building value is not. |
| `Parcels.DeriveAll` | preprocess.py:42-66 | The columns are computed row by row, from each row alone, one output row per input row. |
| `Parcels.DeriveOfValid` | preprocess.py:35-66 | On a row that passed the filters, the three ratios are defined and equal current ÷ prior. The missing-marker branch is unreachable. The building share is current building ÷ current total when the current total is non-zero, and is NaN or infinite otherwise. |
| `Parcels.Reconcile` | preprocess.py:13-66 | The output has at most one record per ParcelID. Every record is non-exempt, has equal land and finished areas, has all three prior values above 1, and has ratios equal to current ÷ prior. |
| `Parcels.ReconcileLookup` | preprocess.py:13-66 | The record for ParcelID k is built from the first 2024 row with k and the first 2025 row with k. It exists exactly when both rows exist, the 2025 row is not exempt, and the pair passes the validity filter. |
| `Parcels.ReconcileMembers` | preprocess.py:13-66 | A record is in the output exactly when it is the record the pipeline produces for its own ParcelID. This determines the whole output set. |
| `Parcels.RatiosFollowCurrentSign` | preprocess.py:44-60 | An output ratio is positive exactly when the current value is positive. |
| `ParcelScenarios.UnchangedParcelRatio` | preprocess.py:35-48 | A parcel with unchanged areas whose total went from 100000 to 155000 has a total ratio of 1.55. |
| `ParcelScenarios.ChangedAreaExcluded` | preprocess.py:35-36 | The same parcel with a finished area changed from 1500 to 1600 is not in the output. |
| `ParcelScenarios.ZeroPriorLandValue` | preprocess.py:35-54 | A prior land value of 0 gives a missing land ratio, and the parcel is not in the output. |
| `ParcelScenarios.BuildingShareCanBeInfinite` | preprocess.py:62-66 | A valid parcel with current total 0 and current building value 5 has an infinite building share. |
| `ParcelScenarios.ExemptFirstOccurrenceWins` | preprocess.py:26-29 | An exempt first 2025 row removes the parcel even when a later duplicate is not exempt. |
| `Statistics.SortAscending` | preprocess.py:86-88 | Insertion sort returns an ascending permutation of its input. |
| `Statistics.MedianIgnoresOrder` | preprocess.py:86-88 | Two columns with the same multiset of values have the same median. |
| `Statistics.Median` | preprocess.py:86-88 | The median of a group's column: the middle of its ascending arrangement, or the mean of the two middle values for an even count. At least half of the values are at most it and at least half are at least it, counted with multiplicity. |
| `Statistics.MedianWithinValues` | preprocess.py:86-88 | Some value is at most the median and some value is at least it. For an odd count the median is one of the values. |
| `ZipSummary.ExcludeSmallZips` | preprocess.py:82-83 | No kept row has ZIP 27312 or 27515. Every other row is kept, including rows without a ZIP, in order. |
| `ZipSummary.Group` | preprocess.py:86-87 | The rows of a ZIP group are exactly the rows whose current-year ZIP is that ZIP. |
| `ZipSummary.SortedDistinct` | preprocess.py:86-89 | The group keys are strictly ascending and are exactly the ZIP values present. |
| `ZipSummary.GroupMedians` | preprocess.py:86-91 | There is one row per distinct ZIP present, ZIPs ascending. Each row's group is non-empty. Each row holds the median of the current totals and the median of the prior totals of its group. |
| `ZipSummary.ZipAverages` | preprocess.py:82-92 | There is exactly one row per ZIP present other than 27312 and 27515, ZIPs ascending. The medians are over all retained parcels of that ZIP. |
| `ZipSummary.RightMerge` | preprocess.py:101 | There is one row per summary row, in summary order. The boundary is present exactly when the reference has the ZIP, and it is that ZIP's boundary. |
| `ZipSummary.DropMissingGeometry` | preprocess.py:102 | Every kept row has a boundary. Every row with a boundary is kept, in order. |
| `ZipSummary.MergeThenDrop` | preprocess.py:101-102 | After the merge and the drop, the ZIPs are exactly the summary ZIPs the reference knows, still ascending, each with its own boundary and its summary row. |
| `ZipSummary.ZipMap` | preprocess.py:82-102 | The map table has strictly ascending ZIPs. Its ZIPs are exactly the retained ZIPs that are not excluded and have a boundary. Each row carries that ZIP's boundary and the medians of its parcels. |

## Left out

- Reading the two Excel extracts and the county shapefile, and writing the
  three Parquet files (preprocess.py:9-10, 72, 105-108, 114-115): file I/O.
- The download of the ZIP boundary file (preprocess.py:96-97): a network
  fetch. The boundary reference is a parameter, a map from integer ZIP to a
  geometry of any type.
- Geometry itself and the selection of the Orange County polygon
  (preprocess.py:111): geospatial library calls.
- The conversion of ZIPs to integers (preprocess.py:92, 98): ZIPs are
  integers from the start.
- Missing values inside the raw extracts: every raw cell is a number.
  Only the NaN cells the left join introduces are modelled.
- Columns of the extracts that the script carries along but never reads,
  such as the building type: the records keep only the columns the script
  reads.
- Floating-point rounding in the ratio and median divisions: the model
  divides exactly.
- The Streamlit dashboard `app.py` (display, caching, quantile trimming,
  parcel lookup): presentation code that is not part of this model.
