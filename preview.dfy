/** `load_dataset_preview` on the parsed rows of a snapshot: `head(table,
    limit)` when the offset is zero, `rowslice(table, offset, offset +
    limit)` otherwise. Both are written as the row iterators they are
    (take and skip), so that their agreement is a theorem. */
module Preview {
  import opened Records

  /** `head(rows, n)`: at most the first `n` rows. */
  function Head(rows: seq<Record>, n: nat): seq<Record>
  {
    if n == 0 || rows == [] then [] else [rows[0]] + Head(rows[1..], n - 1)
  }

  /** Skips the first `n` rows (all of them when there are fewer). */
  function Skip(rows: seq<Record>, n: nat): seq<Record>
  {
    if n == 0 || rows == [] then rows else Skip(rows[1..], n - 1)
  }

  /** `rowslice(rows, start, stop)`: rows `start` up to `stop`, iterator style. */
  function RowSlice(rows: seq<Record>, start: nat, stop: nat): seq<Record>
  {
    Head(Skip(rows, start), if stop >= start then stop - start else 0)
  }

  /** The two branches of `load_dataset_preview`. */
  function PreviewRows(rows: seq<Record>, offset: nat, limit: nat): seq<Record>
  {
    if offset == 0 then Head(rows, limit) else RowSlice(rows, offset, offset + limit)
  }

  lemma {:induction false} HeadIsPrefix(rows: seq<Record>, n: nat)
    ensures Head(rows, n) == rows[..Min(n, |rows|)]
  {
    if n != 0 && rows != [] {
      HeadIsPrefix(rows[1..], n - 1);
    }
  }

  lemma {:induction false} SkipIsSuffix(rows: seq<Record>, n: nat)
    ensures Skip(rows, n) == rows[Min(n, |rows|)..]
  {
    if n != 0 && rows != [] {
      SkipIsSuffix(rows[1..], n - 1);
    }
  }

  /** `rowslice` is the index slice clamped to the row count. */
  lemma RowSliceIsSlice(rows: seq<Record>, start: nat, stop: nat)
    requires start <= stop
    ensures RowSlice(rows, start, stop) == rows[Min(start, |rows|)..Min(stop, |rows|)]
  {
    SkipIsSuffix(rows, start);
    var rest := rows[Min(start, |rows|)..];
    HeadIsPrefix(rest, stop - start);
  }

  /** The `head` branch and the `rowslice` branch agree where both apply. */
  lemma HeadAgreesWithRowSlice(rows: seq<Record>, limit: nat)
    ensures Head(rows, limit) == RowSlice(rows, 0, limit)
  {
    HeadIsPrefix(rows, limit);
    RowSliceIsSlice(rows, 0, limit);
  }

  /** The preview is rows `[offset, offset + limit)`, clamped to the rows
      that exist; in particular it is empty from the end onwards and never
      longer than `limit`. */
  lemma PreviewIsWindow(rows: seq<Record>, offset: nat, limit: nat)
    ensures PreviewRows(rows, offset, limit) == rows[Min(offset, |rows|)..Min(offset + limit, |rows|)]
    ensures |PreviewRows(rows, offset, limit)| <= limit
    ensures offset >= |rows| ==> PreviewRows(rows, offset, limit) == []
  {
    if offset == 0 {
      HeadAgreesWithRowSlice(rows, limit);
    }
    RowSliceIsSlice(rows, offset, offset + limit);
  }

  /** Consecutive previews tile: reading `a` rows from `offset` and then `b`
      rows from `offset + a` gives the `a + b` rows from `offset`. */
  lemma {:induction false} PreviewTiles(rows: seq<Record>, offset: nat, a: nat, b: nat)
    ensures PreviewRows(rows, offset, a) + PreviewRows(rows, offset + a, b) == PreviewRows(rows, offset, a + b)
  {
    var lo, mid, hi := Min(offset, |rows|), Min(offset + a, |rows|), Min(offset + a + b, |rows|);
    var first, second, both := PreviewRows(rows, offset, a), PreviewRows(rows, offset + a, b), PreviewRows(rows, offset, a + b);
    PreviewIsWindow(rows, offset, a);
    PreviewIsWindow(rows, offset + a, b);
    PreviewIsWindow(rows, offset, a + b);
    assert first == rows[lo..mid] && second == rows[mid..hi] && both == rows[lo..hi];
    SlicesJoin(rows, lo, mid, hi);
    assert first + second == both;
  }

  lemma SlicesJoin(rows: seq<Record>, lo: nat, mid: nat, hi: nat)
    requires lo <= mid <= hi <= |rows|
    ensures rows[lo..mid] + rows[mid..hi] == rows[lo..hi]
  {
  }

  /** A limit at least the row count from offset zero returns every row. */
  lemma PreviewAll(rows: seq<Record>, limit: nat)
    requires limit >= |rows|
    ensures PreviewRows(rows, 0, limit) == rows
  {
    PreviewIsWindow(rows, 0, limit);
  }
}
