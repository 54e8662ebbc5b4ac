# Star Wars character pipeline: a Dafny model

This project models the data pipeline of a small web application. The pipeline downloads the paginated character listing of a Star Wars API and cleans each record. It writes the result as a CSV snapshot with a timestamped name and records a metadata row for it. Later it serves offset/limit previews and group-by counts of a snapshot. Everything lives in `src/core/services.py`:

- **Collector** (`collector.dfy`): the `while url:` loop of `fetch_and_store_characters`. The loop follows `next` links and appends each page's `results`. `CollectPages` is an imperative loop proved against `Walk`, a recursive reference definition of the same walk. The HTTP server is a map from URL to response. An unknown URL or a failed response is a request failure.
- **Transformer** (`transformer.dfy`): `transform_data`. It adds `date` (the first ten characters of `edited`). It resolves `homeworld` through `planet_cache` and drops seven fields. The planet service is an abstract total function `lookup` that answers with a body, which may carry a `name`, or with a failure. The cache is the class `PlanetResolver`. Its invariant says three things: every cached name is what an uncached resolution returns, no empty URL is cached, and the cache holds exactly the URLs requested, each requested once. `TransformData` runs the resolver over the records in order. It is proved equal to the uncached `TransformSpec`. It also issues one planet request per distinct non-empty URL, in order of first appearance. The table is lazy and raises in two places, and the model has both. First, a selected field (`homeworld` or a dropped one) may be no column of the table, for instance when the listing is empty. Then `convert`/`cutout` raise before any data row. `cutout` checks its seven fields before it passes the header on, while `convert` passes the header on before it looks for `homeworld`, so a table lacking only `homeworld` produces its header row first. Second, a record may lack `edited` while the column exists. Then slicing its None raises when that record is reached, after the earlier records were produced.
- **Timestamp** (`timestamp.dfy`): `strftime("%Y%m%d_%H%M%S")` and `swapi_characters_<timestamp>.csv`. Both come with parsers and round-trip lemmas.
- **Preview** (`preview.dfy`): `load_dataset_preview`. `head` and `rowslice` are written as the take/skip iterators they are, so that the agreement of the two branches is a theorem.
- **KeyOrder / Aggregate** (`order.dfy`, `aggregate.dfy`): `aggregate_provided_dataset`. petl's `aggregate(key=columns, aggregation=len)` sorts rows by the key tuple and counts each run; that is `Tally`, in Python's string and tuple order. `sort("count", reverse=True)` is a stable sort, so groups with equal counts stay in ascending key order; that is `SortByCount`.
- **Services** (`services.dfy`): the whole `fetch_and_store_characters`. The snapshot directory and the metadata table are the two fields of `SnapshotStore`. A run that fails on any page leaves both unchanged. Otherwise the file is created and filled as `tocsv` drains the table. A table lacking a dropped field raises before its header row and leaves the file empty. A table lacking only `homeworld` leaves the header row and no data row, so aggregating it on its columns gives no groups. A record without `edited` leaves the header and the earlier rows. Only a table that yields every row is followed by the metadata row. A written row carries every column of the table, empty where the record had no value, as the CSV file holds it. The two read paths are functions over the stored files.

Where the code and its descriptions differ, the model follows the code:
- The docstring of `transform_data` lists six dropped fields, but the code also drops `url`.
- A planet body whose `name` is the empty string makes `homeworld` empty even though a URL was present (`ResolveOutcomes` states when `homeworld` is empty).
- With equal counts, the group order is ascending key order, because `aggregate` sorts by key before the stable count sort. It is not first-encountered order.

The file name's clock is read after every page has been fetched. Two runs whose readings at that point fall in the same second get the same file name (`SnapshotNameInjective`). The second run then overwrites the first snapshot and adds a second metadata row with the same name. `FetchAndStore` states this as written.

## Model

| member | source | states |
|---|---|---|
| Collector.PageResults | src/core/services.py:63 | `data.get("results", [])`: a page without `results` contributes no records (definition; its use is stated by `Collector.PageThenRest` and `Collector.DoneIsConcatenation`) |
| Collector.Walk | src/core/services.py:59-64 | reference definition of the loop; an abort names a non-empty URL whose request failed |
| Collector.NextUrl | src/core/services.py:64 | the loop continues with the empty URL exactly when `next` is missing, null or empty |
| Collector.CollectPages | src/core/services.py:57-64 | the loop returns the records of the reference walk, or `RequestError` with the URL of the first page whose request failed |
| Collector.WalkFuelIrrelevant | src/core/services.py:59-64 | a finished walk gives the same outcome under any larger bound, so the proof bound is not part of the behaviour |
| Collector.StopsOnFalsyNext | src/core/services.py:63-64 | a page with a falsy `next` ends the walk with exactly that page's records |
| Collector.PageThenRest | src/core/services.py:63-64 | a fetched page contributes its records, in order, ahead of everything the rest of the chain contributes |
| Collector.FailureAnywhereAborts | src/core/services.py:60-61 | a failed request on any page reached along the chain, after any number of good pages, aborts the whole walk with that page's URL |
| Collector.DoneVisitsOnlyFetchedPages | src/core/services.py:59-62 | when the walk finishes, every URL reached along the chain is either the end or a page that was fetched |
| Collector.DoneChainEnds | src/core/services.py:59-64 | a finished walk reaches the falsy `next` within the bound |
| Collector.DoneIsConcatenation | src/core/services.py:57-64 | the records of a finished walk are the `results` of the pages reached along the chain, concatenated in chain order |
| Transformer.Columns | src/core/services.py:18 | the table's columns are exactly the fields some record has |
| Transformer.MissingFields | src/core/services.py:36-46 | the fields `convert` or `cutout` name that no record has |
| Transformer.TableHeader | src/core/services.py:18-46 | the header row a run writes: every field some record has, plus `date` and `homeworld`, minus the seven cut fields |
| Transformer.MissingFieldsCases | src/core/services.py:18-46 | an empty listing lacks every selected field; records that all carry them lack none |
| Transformer.Dated | src/core/services.py:19 | the length of the longest prefix of records that carry `edited`: the record after it lacks the field |
| Transformer.EditedDate | src/core/services.py:19 | `date` is the prefix of `edited` of length min(10, its length); the pass applies it only to records that carry `edited` (see `Transformer.Dated`) |
| Transformer.Resolve | src/core/services.py:22-32 | uncached `get_planet_name`; the result is "" exactly for an empty URL or an empty returned name |
| Transformer.ResolveOutcomes | src/core/services.py:22-32 | an empty URL resolves to ""; a failed request or a body without `name` resolves to the URL; otherwise to the returned name |
| Transformer.Reshape | src/core/services.py:19-46 | `addfield("date")`, `convert("homeworld")` with a given name, and `cutout` of the seven fields on one record (definition; its fields are stated by `Transformer.ReshapeFields`) |
| Transformer.ReshapeFields | src/core/services.py:36-46 | an output record has none of the seven dropped fields, always has `date` and `homeworld`, keeps every other input field and value, and has nothing else |
| Transformer.FirstSeenDistinct | src/core/services.py:25-33 | the memoised request list holds each URL once and exactly the non-empty URLs that occur |
| Transformer.PlanetResolver.constructor | src/core/services.py:20 | the cache starts empty with no request made |
| Transformer.PlanetResolver.GetPlanetName | src/core/services.py:22-34 | returns the uncached resolution; an empty or cached URL leaves cache and request log unchanged; a new URL adds one request and caches its outcome; the cache invariant is kept |
| Transformer.TransformSpec | src/core/services.py:18-47 | the uncached pass, one reshaped record per input record (definition; stated by `Transformer.TransformSpecShape` and `Transformer.TransformSpecAppend`) |
| Transformer.TransformData | src/core/services.py:11-47 | a missing selected field fails with no row and no request; otherwise the rows are the uncached transformation of the records before the first one without `edited`, and that record, if any, is reported; the requests issued are those records' distinct non-empty homeworld URLs in order of first appearance, each once; the final cache maps exactly those URLs to their uncached resolution |
| Transformer.TransformSpecShape | src/core/services.py:18-46 | as many output records as input records; each has no dropped field, the derived `date`, the resolved `homeworld` and every other field unchanged |
| Transformer.TransformSpecAppend | src/core/services.py:18-47 | transforming a concatenation is concatenating the transforms: a record's output does not depend on its neighbours |
| Transformer.LukeAndLeia | src/core/tests.py:50-73 | on the test records, the dates are `2025-06-13` and `2025-06-12`, the homeworlds `Tatooine` and "", and no dropped field remains |
| Transformer.LukeAndLeiaComplete | src/core/tests.py:50-58 | the test records have every selected column and all carry `edited`, so the table yields both |
| Timestamp.FormatTimestamp | src/core/services.py:69 | the timestamp has the shape `YYYYMMDD_HHMMSS`: 15 characters, `_` at position 8, digits elsewhere |
| Timestamp.DigitsRoundTrip | src/core/services.py:69 | reading a zero-padded field back gives the number written |
| Timestamp.TimestampRoundTrip | src/core/services.py:69 | parsing the formatted timestamp gives back the clock reading |
| Timestamp.SnapshotName | src/core/services.py:70 | the file name is `swapi_characters_`, then the timestamp, then `.csv` |
| Timestamp.SnapshotNameRoundTrip | src/core/services.py:69-70 | a run's file name is 36 characters long, and its middle parses back to the run's clock reading |
| Timestamp.SnapshotNameInjective | src/core/services.py:69-70 | two runs get the same file name exactly when their clock readings, taken after the pages are fetched, fall in the same second |
| Preview.PreviewRows | src/core/services.py:89-92 | the two branches `head` and `rowslice` (definition; stated by `Preview.PreviewIsWindow`) |
| Preview.HeadIsPrefix | src/core/services.py:89-90 | `head(rows, n)` is the first min(n, row count) rows |
| Preview.SkipIsSuffix | src/core/services.py:91-92 | skipping n rows leaves the rows from min(n, row count) on |
| Preview.RowSliceIsSlice | src/core/services.py:91-92 | `rowslice(start, stop)` is the index slice clamped to the row count |
| Preview.HeadAgreesWithRowSlice | src/core/services.py:89-92 | the `head` branch and the `rowslice` branch give the same rows |
| Preview.PreviewIsWindow | src/core/services.py:80-93 | the preview is rows [min(offset,n), min(offset+limit,n)), never longer than `limit`, and empty when offset >= n |
| Preview.PreviewTiles | src/core/services.py:89-93 | consecutive previews tile: `a` rows from `offset` followed by `b` rows from `offset+a` are the `a+b` rows from `offset` |
| Preview.PreviewAll | src/core/services.py:89-90 | a preview from 0 with a limit covering the rows returns all rows |
| Aggregate.Tally | src/core/services.py:104 | `aggregate(key=columns, aggregation=len)`: the key tuples counted in key order (definition; stated by `Aggregate.TallyCorrect`) |
| Aggregate.SortByCount | src/core/services.py:106 | stable sort by descending count (definition; stated by `Aggregate.SortByCountCorrect`) |
| Aggregate.AggregateRows | src/core/services.py:103-107 | unknown columns fail, otherwise tally then sort (definition; stated by `Aggregate.AggregateCorrect` and `Aggregate.AggregateRejectsUnknownColumns`) |
| Aggregate.TallyCorrect | src/core/services.py:104 | the key-sorted groups have distinct keys; each count is positive and equals the number of occurrences of its key; every occurring key is present; the counts sum to the number of rows |
| Aggregate.SortByCountCorrect | src/core/services.py:106 | the count sort is a permutation of the groups, ordered by non-increasing count with ties in key order, keeping distinct keys, per-key counts and the total |
| Aggregate.GroupCountsExact | src/core/services.py:104-106 | each output count is the number of rows carrying that key tuple |
| Aggregate.GroupKeysExact | src/core/services.py:104-106 | the output keys are exactly the key tuples that occur in the rows |
| Aggregate.MissingColumns | src/core/services.py:104 | lists exactly the requested columns absent from the header |
| Aggregate.AggregateCorrect | src/core/services.py:103-107 | one group per distinct key tuple and no other; count = rows with that tuple, at least 1; counts sum to the row count; counts never increase down the list |
| Aggregate.AggregateTieOrder | src/core/services.py:104-106 | groups with equal counts are in ascending key order |
| Aggregate.AggregateRejectsUnknownColumns | src/core/services.py:103-104 | the aggregation fails exactly when a requested column is not in the header, and names the missing columns |
| Aggregate.ThreeRowExample | src/core/tests.py:129-148 | rows X, X, Y grouped by `col1` give `X` with 2 and then `Y` with 1 |
| Services.ListingUrl | src/core/services.py:55-56 | the first URL is `SWAPI_URL` (or the default base) followed by `/people/`, and is never empty |
| Services.Written | src/core/services.py:72-73 | a written snapshot has the table's header and one row per table row, each carrying exactly the header's columns with the row's own value or "" |
| Services.WrittenUniformRows | src/core/services.py:72-73 | rows that already carry exactly the header's columns are stored unchanged |
| Services.SnapshotStore.WriteFile | src/core/services.py:72-73 | one file is created or overwritten; the metadata is untouched |
| Services.SnapshotStore.SaveDataset | src/core/services.py:75-76 | exactly one metadata row is appended; the files are untouched |
| Services.FailedFile | src/core/services.py:36-46 | the file left by a table lacking a selected column has no data row; its header is empty exactly when a dropped field is missing, and is the run's header without `homeworld` when `homeworld` alone is missing |
| Services.FailedFilePreview | src/core/services.py:36-46 | such a file previews as no rows |
| Services.HeaderOnlyAggregates | src/core/services.py:36-46 | when `homeworld` alone is missing, the header-only file aggregated on columns of its header gives no groups rather than an error |
| Services.FetchAndStore | src/core/services.py:50-77 | a failed page request returns `RequestError` and changes neither files nor metadata; a missing selected column fails with the missing fields and adds no metadata, leaving the file `swapi_characters_<timestamp>.csv` empty when a dropped field is missing and holding only the header row when `homeworld` alone is missing; otherwise the file holds the table's header and the transformed records before the first record without `edited`; if there is such a record the run fails naming it and adds no metadata, else exactly one metadata row naming the file is appended and the name is returned |
| Services.LoadDatasetPreview | src/core/services.py:80-93 | a missing file is `NotFound`, otherwise the preview of its rows (definition; stated by `Services.LoadDatasetPreviewWindow`) |
| Services.AggregateProvidedDataset | src/core/services.py:96-107 | a missing file is `NotFound`, otherwise the aggregation of its rows (definition; stated by `Services.AggregateProvidedDatasetOutcomes`) |
| Services.LoadDatasetPreviewWindow | src/core/services.py:80-93 | a preview fails exactly when the file is missing, and otherwise is the clamped window of the file's rows |
| Services.AggregateProvidedDatasetOutcomes | src/core/services.py:96-107 | a missing file is reported first; no columns give no groups; the call fails exactly when a column is not in the header; otherwise the counts sum to the file's row count, never increase, and the keys are distinct |
| Services.SnapshotRoundTrip | src/core/services.py:88-93 | writing rows and previewing them from 0 with a covering limit returns every written row in order; rows that carry exactly the header's columns come back unchanged |
| Services.StoredRunReadsBack | src/core/services.py:66-77 | the file a run stores, previewed from 0 with a covering limit, returns one row per stored record (every record before the first without `edited`), in order: the transformed record, with the table's other columns empty |
| Services.FirstPageFailureAborts | src/core/services.py:59-61 | when the first page request fails, the run aborts with the listing URL |
| Services.TwoPageListing | src/core/tests.py:76-121 | a first page linking to a second page whose `next` is null yields both pages' records, in page order |

## Left out

- HTTP and JSON: `requests.get`, `raise_for_status` and `.json()` are abstracted. The listing server is a map from URL to "decoded page or failure". The planet service is a total function from URL to "body with optional `name`, or failure". A JSON `name` of null is not modelled. A page whose `results` is null, where `extend(None)` raises TypeError, is not modelled either: `Page` has no such value. Neither is a record field holding null.
- Collector.CollectPages: requires a ghost bound under which the chain of `next` links ends. On a cyclic chain the source loops forever, and the model does not describe that run.
- Transformer.Columns: petl discovers the header from a leading sample of the records; the model takes every field of every record. A raw field named `date`, which `addfield` would duplicate, is not modelled.
- Transformer.TransformData: a field-selection failure carries every missing field; petl names only the first one it checks.
- Laziness: the model produces the rows and then writes them; in the source `tocsv` drains the table, so planet requests and the failures above happen during the write. The stored outcome is the same: the rows before the failure, or none.
- Services.FetchAndStore: the file left behind when the table raises before its header row is a snapshot with no columns and no rows; what `fromcsv` makes of such an empty file is not modelled. A header-only file is modelled (`Services.FailedFile`).
- CSV: quoting, column order and `fromcsv` parsing are not modelled. A snapshot is the set of its columns plus its rows, with every value a string; `Services.Written` pads each row to every column.
- Filesystem: `settings.BASE_DIR`, `os.makedirs` and path joining are not modelled. Files are keyed by name.
- Clock: `datetime.now()` and `timezone.now()` are parameters. Timestamp.FormatTimestamp requires a year from 1000 to 9999; the platform `strftime` does not pad earlier years. Days are only checked to be in 1..31, not against the month.
- Preview.PreviewRows: offset and limit are natural numbers. Negative values are not modelled. Depending on them `islice` raises, or it returns no rows without raising (offset 5 with limit -2 gives the bounds 5 and 3). The defaults `offset=0, limit=10` are not modelled; callers pass both.
- Aggregate.AggregateRows: for an empty column list, the service's behaviour depends on petl. The model returns no groups, which is what the application answers for an empty request (src/core/tests.py:233-236).
- Aggregate output: output rows are (key tuple, count) pairs, not dictionaries. A grouping column named `count` or `value`, which would collide after `rename`, is not modelled.
- Framework: Django views, URL routing, the `Dataset` ORM model (its `id` and listing order) and date formatting for display are not part of this model.
