# FHB product pipeline — Dafny model

This project models the logic of a two-stage batch pipeline for the FHB
product catalog:

* **Extract** (`extract_fhb_products.py`) downloads the catalog page by
  page. It checks the number of products collected against the total the
  API reports. It infers a column schema and widens Null and Boolean
  columns to Utf8. It then stamps every row of the day's snapshot with the
  run date key `YYYYMMDD`.
* **Transform** (`transform_fhb_products.py`, `present_fhb`) reads every
  historical snapshot and drops fully identical rows. It groups the rows by
  the seven identity columns (`internal_code`, `ean`, `name`, `photo`,
  `archived`, `stock_quantity`, `free_quantity`). Each group gets
  `update_date_key = min(run_date_key)`. A group gets `current_flag = "Y"`
  when its `update_date_key` is the largest among the groups of its
  `internal_code`; every other group gets null.

Modules:

| file | module | contents |
|---|---|---|
| `wrappers.dfy` | `Wrappers` | `Option` (null) and `Result` |
| `seqs.dfy` | `Seqs` | `Flatten` (reading many files as one frame), `Unique` (`DataFrame.unique`) |
| `lex_order.dfy` | `LexOrder` | the text order Polars uses for `min`/`max` on Utf8 columns |
| `run_date.dfy` | `RunDate` | `strftime("%Y%m%d")`; its text order agrees with the calendar |
| `extract.dfy` | `Extract` | schema coercion, paging, the download loop, the count check, stamping |
| `transform.dfy` | `Transform` | `present_fhb`, and a reference definition of the present table |
| `present_properties.dfy` | `PresentProperties` | properties of the present table and two concrete histories |

`run_date_key` is kept as text, as in the snapshot files. `min` and `max`
therefore compare it as text (`LexOrder.LexLe`). `RunDate.RunDateKeyOrder`
proves that this order agrees with the calendar for keys produced by the
extract stage.

The central result is `Transform.PresentFhb`. A row is in its output exactly
when it satisfies `Transform.IsPresentRow`, a definition stated on the input
rows alone, with no min, max or grouping. Under that definition:

* the identity occurs in the input;
* the update key is the first run date on which that identity was seen;
* the row is flagged "Y" exactly when every identity of its `internal_code`
  had already been seen by that date.

Every other property follows from this one.

The docstring of `present_fhb` says the flag marks "the most recent update
for each product" (`transform_fhb_products.py:13`). The code does more than
that: it flags every group that reaches the maximum update key of its
`internal_code`. If two identities of one `internal_code` first appear on the
same run date, both are flagged. The model follows the code.
`PresentProperties.TieBothFlagged` proves that both rows are flagged in such
a history. `PresentProperties.AtMostOneCurrent` proves "at most one" only for
histories in which no run saw one `internal_code` with two identities.
`PresentProperties.EveryCodeHasCurrent` proves "at least one" without
conditions.

The page count is `int(total / 250) + 1` (`extract_fhb_products.py:66`).
`int()` truncates the quotient toward zero, whereas a floor rounds it down.
For a non-negative total the two agree. They also agree for a negative total
that is a multiple of 250: for -250, both give 0 pages. For any other
negative total they differ: for -100, truncation gives 1 page and a floor
gives 0. The model follows the code (`Extract.TruncDiv`).

## Model

| member | source | states |
|---|---|---|
| Seqs.Unique | transform_fhb_products.py:17 | the deduplicated rows are exactly the input's rows, each once, and never more of them |
| Seqs.UniqueIdempotent | transform_fhb_products.py:17 | deduplicating twice equals deduplicating once |
| Seqs.UniqueCount | transform_fhb_products.py:17 | the row count after `unique()` is the number of distinct rows (the union size minus the duplicates) |
| LexOrder.Min | transform_fhb_products.py:29 | `min` of two keys is one of them and sorts at or before both |
| LexOrder.Max | transform_fhb_products.py:31-33 | `max` of two keys is one of them and sorts at or after both |
| RunDate.RunDateKey | extract_fhb_products.py:62 | the run date key is eight decimal digits |
| RunDate.Pad | extract_fhb_products.py:62 | a zero-padded field has the requested width, only digits, and denotes the number formatted |
| RunDate.RunDateKeyRoundTrip | extract_fhb_products.py:110 | reading a run date key back yields the date it was formatted from |
| RunDate.RunDateKeyInjective | extract_fhb_products.py:110 | two run dates share a key exactly when they are the same date |
| RunDate.RunDateKeyOrder | extract_fhb_products.py:62 | comparing two keys as text agrees with comparing their dates on the calendar |
| RunDate.DigitsOrder | extract_fhb_products.py:62 | on digit strings of equal length, text order is numeric order |
| Extract.CoerceType | extract_fhb_products.py:36-41 | a Null or Boolean type becomes Utf8, every other type is kept, so no coerced type is Null or Boolean |
| Extract.CoerceSchema | extract_fhb_products.py:33-42 | same column names; Null and Boolean columns become Utf8; every other column keeps its type; no Null or Boolean remains |
| Extract.CoerceSchemaIdempotent | extract_fhb_products.py:33-42 | coercing a coerced schema changes nothing |
| Extract.CoerceSchemaFixedPoint | extract_fhb_products.py:35-41 | coercion leaves a schema unchanged exactly when it has no Null or Boolean column |
| Extract.TruncDiv | extract_fhb_products.py:66 | `int(a / b)` is the quotient truncated toward zero, for either sign of `a` |
| Extract.PageCount | extract_fhb_products.py:66 | for a non-negative total, at least one page, `(pages-1)*250 <= total < pages*250`, and one page beyond the items when the total is a multiple of 250; for a negative total, at most one page, and one exactly when the total is above -250 |
| Extract.PageNumbers | extract_fhb_products.py:70-71 | the requested page numbers are 1, 2, …, pages in order, none when pages <= 0 |
| Extract.CheckCount | extract_fhb_products.py:74-77 | PASSED exactly when the reported total equals the collected count, FAILED otherwise |
| Extract.FetchAllProducts | extract_fhb_products.py:64-77 | requests pages 1..PageCount(total) in order; the products are the in-order concatenation of the page responses, their number the sum of the page sizes; the check result is PASSED iff total equals that number, and the products are returned either way |
| Extract.ServedPage | extract_fhb_products.py:71 | a page wholly past the end of a consistent catalog is empty |
| Extract.ServedPrefix | extract_fhb_products.py:68-72 | the first n pages of a consistent catalog concatenate to its first min(250n, size) items |
| Extract.PaginationComplete | extract_fhb_products.py:66-77 | with a consistent catalog, the pages requested concatenate to exactly its items and the count check passes |
| Extract.FetchConsistentCatalog | extract_fhb_products.py:66-77 | the download loop, run against a consistent catalog that reports its true total, collects exactly its items and the count check passes |
| Extract.BoundaryPageEmpty | extract_fhb_products.py:66 | when the total is a multiple of 250 the last page requested is empty |
| Extract.Stamp | extract_fhb_products.py:122-124 | same number of rows; each row gains `run_date_key` = the key; all other columns unchanged |
| Extract.StampRoundTrip | extract_fhb_products.py:122-124 | stamping loses nothing: removing the column restores rows that did not have it |
| Extract.Snapshot | extract_fhb_products.py:110-124 | every row of a run's snapshot carries a key that reads back as the run date |
| Extract.SnapshotKeyUniform | extract_fhb_products.py:122-124 | all rows of one snapshot carry the same key, the run's eight-digit key |
| Transform.EarliestKey | transform_fhb_products.py:29 | `min(run_date_key)` of a group is one of the group's keys and no later than any of them |
| Transform.IdentityColumn | transform_fhb_products.py:20-28 | the identity column holds exactly the identities that occur |
| Transform.Aggregate | transform_fhb_products.py:19-29 | one group per distinct identity tuple, no identity twice, each with the earliest run date key of its rows |
| Transform.LatestUpdate | transform_fhb_products.py:31-33 | the window `max` over an internal code is attained by a group of that code and no group of the code exceeds it; null exactly when the code has no group |
| Transform.MarkCurrent | transform_fhb_products.py:30-37 | keeps every group; flag "Y" exactly on the groups whose key is the maximum of their internal code; null otherwise, never a third value |
| Transform.EarliestUnique | transform_fhb_products.py:29 | an identity has only one earliest key |
| Transform.WindowMaxIsLatest | transform_fhb_products.py:30-37 | a group at the window maximum first appeared no earlier than every identity of its code |
| Transform.LatestBoundsEarliest | transform_fhb_products.py:30-37 | under a latest version's key, every identity of the code first appeared no later |
| Transform.LatestIsWindowMax | transform_fhb_products.py:30-37 | a group that first appeared no earlier than every identity of its code is at the window maximum |
| Transform.MarkCurrentCharacterization | transform_fhb_products.py:19-37 | grouping then flagging yields exactly the rows of the reference definition |
| Transform.SameMembersSamePresent | transform_fhb_products.py:16-29 | the reference definition depends only on which rows occur |
| Transform.PresentFhb | transform_fhb_products.py:16-38 | no two output rows share an identity; a row is in the output iff it satisfies the reference definition |
| Transform.PresentFromPartitions | transform_fhb_products.py:16-17 | no snapshot file is an error; otherwise the output is the reference present table of all files' rows together |
| PresentProperties.PresentRowDeterminedByIdentity | transform_fhb_products.py:19-29 | an identity determines its present row |
| PresentProperties.PresentRowOf | transform_fhb_products.py:19-37 | every identity seen has a row satisfying the reference definition |
| PresentProperties.IdentityHasRow | transform_fhb_products.py:20-29 | every identity seen has its row in the output |
| PresentProperties.DistinctIdentityCount | transform_fhb_products.py:20-28 | rows with pairwise distinct identities number as many as their identities |
| PresentProperties.OneRowPerIdentity | transform_fhb_products.py:20-28 | the output's identities are exactly the input's, one row each |
| PresentProperties.UpdateDateKeyMinimal | transform_fhb_products.py:29 | each `update_date_key` is one of its group's run date keys and no later than any of them |
| PresentProperties.CurrentFlagIsWindowMax | transform_fhb_products.py:30-37 | "Y" iff the row's key is the maximum among output rows of its internal code; otherwise null, never "N" |
| PresentProperties.EveryCodeHasCurrent | transform_fhb_products.py:31-36 | every internal code of the input has a row flagged "Y" |
| PresentProperties.CodesPreserved | transform_fhb_products.py:20-29 | the output's internal codes are exactly the input's |
| PresentProperties.AtMostOneCurrent | transform_fhb_products.py:29-36 | if no run saw one internal code with two identities, at most one row per internal code is flagged |
| PresentProperties.CurrentRowsCoincide | transform_fhb_products.py:29-36 | two flagged rows of one internal code are the same row when no run saw that code with two identities |
| PresentProperties.TieBothFlagged | transform_fhb_products.py:29-36 | two identities of one internal code first seen on the same run are both flagged "Y", and such a history breaks the one-identity-per-run condition |
| PresentProperties.SameRowsSamePresent | transform_fhb_products.py:16-29 | inputs with the same rows (any order, any repetition) give the same output rows and row count |
| PresentProperties.DedupDoesNotMatter | transform_fhb_products.py:17-29 | running `unique()` beforehand changes nothing, and `unique()` is idempotent |
| PresentProperties.ReingestDoesNotMatter | transform_fhb_products.py:17 | reading rows a second time does not change the output |
| PresentProperties.PartitionOrderDoesNotMatter | transform_fhb_products.py:16-17 | the order in which snapshot files are read does not change the output |
| PresentProperties.TwoVersionTable | transform_fhb_products.py:19-37 | a history with two identities has exactly their two present rows |
| PresentProperties.DayHistoryCurrent | transform_fhb_products.py:30-37 | stock 5 first seen on 20240102, after stock 10 on 20240101: (5, 20240102, "Y") is a present row |
| PresentProperties.DayHistoryStale | transform_fhb_products.py:29-37 | stock 10 keeps its first date 20240101 even if seen again on 20240103, and is not flagged |
| PresentProperties.DayTwoVersionsPresent | transform_fhb_products.py:19-37 | any history of those sightings, in any order or repetition, gives exactly (10, 20240101, null) and (5, 20240102, "Y") |
| PresentProperties.StockChangeScenario | transform_fhb_products.py:19-37 | stock 10 on 20240101 then 5 on 20240102 gives two rows, the stock-5 one flagged "Y" |
| PresentProperties.RevertScenario | transform_fhb_products.py:19-37 | stock 10, 5, 10 on three days: the stock-10 row keeps 20240101 and the flag goes to stock 5, not to the latest snapshot's version |

## Left out

- HTTP errors abort the run in the source. The page function of the model is total, so that failure path is not modelled.
- HTTP: login, base64 token encoding, the requests to `/product/all` (extract_fhb_products.py:64, 71, 150-157). This is network I/O. Each page response is a parameter: a function from page number to that page's records.
- Schema inference with `pl.from_dicts(..., infer_schema_length=None)` is a library call. The inferred schema is an input, a map from column name to type.
- Turning records into a frame with the coerced schema is also a library call and is left out. Reading snapshot Parquet files back is left out for the same reason. The transform takes typed snapshot rows as input.
- JSON and Parquet reads and writes are file I/O and are left out.
- Directory creation, glob paths and `print` logging are filesystem plumbing and are left out. Only the outcome of the count check is modelled.
- The time zone of `datetime.now` is left out. The run date is a given calendar date.
- Extract.TruncDiv: `int(total / 250)` goes through a float. The model is exact integer truncation. Totals above 2^53, where float rounding could matter, are not modelled.
- RunDate.RunDateKey: `%Y` is modelled as a four-digit, zero-padded year, as Python documents. Some C libraries do not pad years below 1000.
- Extract.CoerceSchema: the schema is a map, so the column order of the inferred dict is not modelled. Column order does not affect the transform.
- Cell values are null, boolean, integer or text. Floats, lists and structs are not modelled. Grouping and `unique()` only compare cells for equality.
- Transform.PresentFhb: Polars does not keep the row order of `group_by` or `unique()`. The model fixes one order, and every property is stated independently of that order.
- Polars errors when snapshot files have incompatible schemas are not modelled. Neither is a missing identity column.
- `get_auth` and the two `main` entry points are configuration only and are left out.
- Concurrent runs overwriting the present table are outside this single-run model.
