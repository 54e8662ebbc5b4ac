/** The services that tie the stages together: `fetch_and_store_characters`
    (collect, transform, write the snapshot, record its metadata) and the
    two read paths over written snapshots. The snapshot directory and the
    metadata table are the fields of one store object. */
module Services {
  import opened Records
  import opened Collector
  import opened Transformer
  import opened Timestamp
  import opened Preview
  import opened Aggregate

  /** The listing base used when `SWAPI_URL` is not set. */
  const DefaultBaseUrl: string := "http://swapi:12345/api"

  /** `f"{os.environ.get('SWAPI_URL', default)}/people/"`: never empty, so the
      collector always requests at least one page. */
  function ListingUrl(env: map<string, string>): (url: string)
    ensures "SWAPI_URL" in env ==> url == env["SWAPI_URL"] + "/people/"
    ensures "SWAPI_URL" !in env ==> url == DefaultBaseUrl + "/people/"
    ensures url != ""
  {
    (if "SWAPI_URL" in env then env["SWAPI_URL"] else DefaultBaseUrl) + "/people/"
  }

  /** A written snapshot: the set of its columns and its rows. */
  datatype Snapshot = Snapshot(header: set<string>, rows: seq<Record>)

  /** One metadata row: the file name and the moment it was recorded. */
  datatype Dataset = Dataset(filename: string, downloadDate: DateTime)

  /** A row as the CSV file holds it and `fromcsv` reads it back: every
      column of the header, empty where the record has no value. */
  function Pad(header: set<string>, r: Record): Record
  {
    map k | k in header :: Field(r, k)
  }

  /** The snapshot `tocsv` leaves for a table with these columns and rows:
      each row carries exactly the header's columns, with its own value or
      the empty string. */
  function Written(header: set<string>, rows: seq<Record>): (s: Snapshot)
    ensures s.header == header && |s.rows| == |rows|
    ensures forall i, k :: 0 <= i < |rows| ==> (k in s.rows[i] <==> k in header)
    ensures forall i, k :: 0 <= i < |rows| && k in header ==> s.rows[i][k] == Field(rows[i], k)
  {
    Snapshot(header, seq(|rows|, i requires 0 <= i < |rows| => Pad(header, rows[i])))
  }

  /** Rows that already carry exactly the header's columns are written and
      read back unchanged. */
  lemma WrittenUniformRows(header: set<string>, rows: seq<Record>)
    requires forall i :: 0 <= i < |rows| ==> rows[i].Keys == header
    ensures Written(header, rows).rows == rows
  {
    var s := Written(header, rows);
    forall i | 0 <= i < |rows| ensures s.rows[i] == rows[i] {
      assert s.rows[i].Keys == rows[i].Keys;
    }
  }

  /** The file `tocsv` leaves when the table raises before its header row:
      opened, nothing written. */
  const EmptyFile: Snapshot := Snapshot({}, [])

  /** The file a run leaves when a selected column is missing. `cutout`
      looks its seven fields up in the header before passing the header on,
      so a missing dropped field leaves the file empty. `convert` passes the
      header on before looking `homeworld` up, so when `homeworld` is the
      only missing field the file holds the header row (the table's columns
      and `date`, without the seven) and no data row. */
  function FailedFile(records: seq<Record>): (s: Snapshot)
    ensures s.rows == []
    ensures s.header == {} <==> MissingFields(records) * Dropped != {}
    ensures MissingFields(records) == {"homeworld"} ==> s.header == TableHeader(records) - {"homeworld"}
  {
    if MissingFields(records) * Dropped == {} then Snapshot(Columns(records) - Dropped + {"date"}, [])
    else EmptyFile
  }

  /** The snapshot directory (file name to snapshot) and the metadata table
      (rows in insertion order). */
  class SnapshotStore {
    var files: map<string, Snapshot>
    var datasets: seq<Dataset>

    constructor ()
      ensures files == map[] && datasets == []
    {
      files := map[];
      datasets := [];
    }

    /** `tocsv`: creates or overwrites one file. */
    method WriteFile(name: string, snapshot: Snapshot)
      modifies this
      ensures files == old(files)[name := snapshot]
      ensures datasets == old(datasets)
    {
      files := files[name := snapshot];
    }

    /** `Dataset(...).save()`: appends one metadata row. */
    method SaveDataset(ds: Dataset)
      modifies this
      ensures datasets == old(datasets) + [ds]
      ensures files == old(files)
    {
      datasets := datasets + [ds];
    }
  }

  /** `fetch_and_store_characters`. `fileClock` is the reading formatted into
      the file name, taken after every page has been fetched, and
      `saveClock` the one stored in the metadata row; the ghost `fuel`
      bounds the length of the page chain. A failed page request leaves the
      store as it was. Otherwise the file is created; a table lacking a
      selected column leaves it empty or holding only the header row (see
      `FailedFile`), a record without `edited` leaves it
      holding the rows before that record, and only a table that yields
      every row is followed by a metadata row naming the file. */
  method FetchAndStore(store: SnapshotStore, env: map<string, string>, server: Server,
                       lookup: string -> Lookup, fileClock: DateTime, saveClock: DateTime, ghost fuel: nat)
    returns (r: Result<string, Error>)
    requires ValidDateTime(fileClock)
    requires !Walk(server, ListingUrl(env), fuel).OutOfFuel?
    modifies store
    ensures Walk(server, ListingUrl(env), fuel).Aborted? ==>
              && r == Failure(RequestError(Walk(server, ListingUrl(env), fuel).url))
              && store.files == old(store.files)
              && store.datasets == old(store.datasets)
    ensures Walk(server, ListingUrl(env), fuel).Done? && MissingFields(Walk(server, ListingUrl(env), fuel).records) != {} ==>
              var records := Walk(server, ListingUrl(env), fuel).records;
              var name := SnapshotName(FormatTimestamp(fileClock));
              && r == Failure(FieldSelection(MissingFields(records)))
              && store.files == old(store.files)[name := FailedFile(records)]
              && store.datasets == old(store.datasets)
    ensures Walk(server, ListingUrl(env), fuel).Done? && MissingFields(Walk(server, ListingUrl(env), fuel).records) == {} ==>
              var records := Walk(server, ListingUrl(env), fuel).records;
              var name := SnapshotName(FormatTimestamp(fileClock));
              var n := Dated(records);
              && store.files == old(store.files)[name := Written(TableHeader(records), TransformSpec(lookup, records[..n]))]
              && (n == |records| ==> r == Success(name) && store.datasets == old(store.datasets) + [Dataset(name, saveClock)])
              && (n < |records| ==> r == Failure(UndatedRecord(n)) && store.datasets == old(store.datasets))
  {
    var collected := CollectPages(server, ListingUrl(env), fuel);
    if collected.Failure? {
      return Failure(collected.error);
    }
    var records := collected.value;
    var rows, error, _, _ := TransformData(lookup, records);
    var name := SnapshotName(FormatTimestamp(fileClock));
    if error.Some? && error.value.FieldSelection? {
      store.WriteFile(name, FailedFile(records));
      return Failure(error.value);
    }
    store.WriteFile(name, Written(TableHeader(records), rows));
    if error.Some? {
      return Failure(error.value);
    }
    store.SaveDataset(Dataset(name, saveClock));
    return Success(name);
  }

  /** `load_dataset_preview` on the store's files. */
  function LoadDatasetPreview(files: map<string, Snapshot>, filename: string, offset: nat, limit: nat)
    : Result<seq<Record>, Error>
  {
    if filename !in files then Failure(NotFound(filename))
    else Success(PreviewRows(files[filename].rows, offset, limit))
  }

  /** `aggregate_provided_dataset` on the store's files. */
  function AggregateProvidedDataset(files: map<string, Snapshot>, filename: string, columns: seq<string>)
    : Result<seq<Group>, Error>
  {
    if filename !in files then Failure(NotFound(filename))
    else AggregateRows(files[filename].header, files[filename].rows, columns)
  }

  /** A preview reports a missing file, and otherwise is the clamped window
      `[offset, offset + limit)` of the file's rows. */
  lemma LoadDatasetPreviewWindow(files: map<string, Snapshot>, filename: string, offset: nat, limit: nat)
    ensures LoadDatasetPreview(files, filename, offset, limit).Failure? <==> filename !in files
    ensures filename in files ==>
              var rows := files[filename].rows;
              LoadDatasetPreview(files, filename, offset, limit)
                == Success(rows[Min(offset, |rows|)..Min(offset + limit, |rows|)])
  {
    if filename in files {
      PreviewIsWindow(files[filename].rows, offset, limit);
    }
  }

  /** An aggregation reports a missing file first, gives no groups for an
      empty column list, rejects exactly the column lists with a column
      outside the header, and otherwise counts every row of the file once,
      largest counts first. */
  lemma AggregateProvidedDatasetOutcomes(files: map<string, Snapshot>, filename: string, columns: seq<string>)
    ensures filename !in files ==> AggregateProvidedDataset(files, filename, columns) == Failure(NotFound(filename))
    ensures filename in files && columns == [] ==> AggregateProvidedDataset(files, filename, columns) == Success([])
    ensures filename in files && columns != [] ==>
              (AggregateProvidedDataset(files, filename, columns).Failure? <==>
                 exists c :: c in columns && c !in files[filename].header)
    ensures filename in files && columns != [] && AggregateProvidedDataset(files, filename, columns).Success? ==>
              var gs := AggregateProvidedDataset(files, filename, columns).value;
              && SumCounts(gs) == |files[filename].rows|
              && (forall i, j :: 0 <= i < j < |gs| ==> gs[i].count >= gs[j].count && gs[i].key != gs[j].key)
  {
    if filename in files {
      var snap := files[filename];
      AggregateRejectsUnknownColumns(snap.header, snap.rows, columns);
      if columns != [] && forall c :: c in columns ==> c in snap.header {
        AggregateCorrect(snap.header, snap.rows, columns);
      }
    }
  }

  /** Writing a table and reading it back from the start with a limit that
      covers it returns every written row, in order, each carrying the
      header's columns; rows that already have exactly those columns come
      back unchanged. */
  lemma SnapshotRoundTrip(files: map<string, Snapshot>, name: string, header: set<string>, rows: seq<Record>, limit: nat)
    requires limit >= |rows|
    ensures LoadDatasetPreview(files[name := Written(header, rows)], name, 0, limit) == Success(Written(header, rows).rows)
    ensures (forall i :: 0 <= i < |rows| ==> rows[i].Keys == header) ==>
              LoadDatasetPreview(files[name := Written(header, rows)], name, 0, limit) == Success(rows)
  {
    PreviewAll(Written(header, rows).rows, limit);
    if forall i :: 0 <= i < |rows| ==> rows[i].Keys == header {
      WrittenUniformRows(header, rows);
    }
  }

  /** The file a run stores for the collected `records` (see
      `FetchAndStore`), previewed from the start with a limit that covers
      it, returns one row per stored record, in order: the transformed
      record, with the table's other columns read back as empty. */
  lemma StoredRunReadsBack(records: seq<Record>, lookup: string -> Lookup, name: string,
                           files: map<string, Snapshot>, limit: nat)
    requires limit >= |records|
    ensures var n := Dated(records);
            var read := LoadDatasetPreview(files[name := Written(TableHeader(records), TransformSpec(lookup, records[..n]))], name, 0, limit);
            && read.Success? && |read.value| == n
            && (forall i, k :: 0 <= i < n ==> (k in read.value[i] <==> k in TableHeader(records)))
            && (forall i, k :: 0 <= i < n && k in TableHeader(records) ==>
                  read.value[i][k] == Field(TransformRecord(lookup, records[i]), k))
  {
    var n := Dated(records);
    var table := TransformSpec(lookup, records[..n]);
    SnapshotRoundTrip(files, name, TableHeader(records), table, limit);
    forall i | 0 <= i < n ensures table[i] == TransformRecord(lookup, records[i]) {
      assert records[..n][i] == records[i];
    }
  }

  /** The file a run leaves when a selected column is missing previews as
      no rows. */
  lemma FailedFilePreview(files: map<string, Snapshot>, name: string, records: seq<Record>, offset: nat, limit: nat)
    ensures LoadDatasetPreview(files[name := FailedFile(records)], name, offset, limit) == Success([])
  {
    PreviewIsWindow(FailedFile(records).rows, offset, limit);
  }

  /** When only `homeworld` was missing, aggregating the header-only file
      on columns of its header row gives no groups rather than an error. */
  lemma HeaderOnlyAggregates(files: map<string, Snapshot>, name: string, records: seq<Record>, columns: seq<string>)
    requires MissingFields(records) == {"homeworld"}
    requires forall c :: c in columns ==> c in TableHeader(records) - {"homeworld"}
    ensures AggregateProvidedDataset(files[name := FailedFile(records)], name, columns) == Success([])
  {
    AggregateNoRows(FailedFile(records).header, columns);
  }

  /** When the very first page request fails, the run aborts with that URL. */
  lemma FirstPageFailureAborts(env: map<string, string>, server: Server, fuel: nat)
    requires Get(server, ListingUrl(env)) == Failed
    requires fuel > 0
    ensures Walk(server, ListingUrl(env), fuel) == Aborted(ListingUrl(env))
  {
  }

  /** The two-page listing of the service tests: the first page links to a
      second, whose `next` is null; both pages' records are collected, in
      page order, after exactly two requests. */
  lemma TwoPageListing(env: map<string, string>, a: Record, b: Record)
    requires "SWAPI_URL" !in env
    ensures var server := map[
              "http://swapi:12345/api/people/" := Fetched(Page(Some([a]), Some("http://api/next"))),
              "http://api/next" := Fetched(Page(Some([b]), None))];
            Walk(server, ListingUrl(env), 2) == Done([a, b])
  {
    var server := map[
      "http://swapi:12345/api/people/" := Fetched(Page(Some([a]), Some("http://api/next"))),
      "http://api/next" := Fetched(Page(Some([b]), None))];
    assert ListingUrl(env) == "http://swapi:12345/api/people/";
    assert Walk(server, "http://api/next", 1) == Done([b]);
  }
}
