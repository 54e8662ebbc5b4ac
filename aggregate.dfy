/** `aggregate_provided_dataset` on the parsed rows of a snapshot:
    `aggregate(key=columns, aggregation=len)` sorts the rows by the key
    tuple and counts each run of equal keys, `rename` calls the count
    `count`, and `sort("count", reverse=True)` orders the groups by
    non-increasing count; Python's sort is stable, so groups with equal
    counts keep their ascending key order. */
module Aggregate {
  import opened Records
  import opened KeyOrder

  /** One output row: the values of the grouping columns, in column order,
      and the number of rows that carry them. */
  datatype Group = Group(key: seq<string>, count: nat)

  /** The key tuple of a row. */
  function KeyOf(r: Record, columns: seq<string>): seq<string>
  {
    seq(|columns|, i requires 0 <= i < |columns| => Field(r, columns[i]))
  }

  function RowKeys(rows: seq<Record>, columns: seq<string>): (keys: seq<seq<string>>)
    ensures |keys| == |rows|
    ensures forall i :: 0 <= i < |rows| ==> keys[i] == KeyOf(rows[i], columns)
  {
    seq(|rows|, i requires 0 <= i < |rows| => KeyOf(rows[i], columns))
  }

  function Keys(gs: seq<Group>): (ks: seq<seq<string>>)
    ensures |ks| == |gs|
    ensures forall i :: 0 <= i < |gs| ==> ks[i] == gs[i].key
  {
    seq(|gs|, i requires 0 <= i < |gs| => gs[i].key)
  }

  /** The total count the groups with key `k` carry. */
  function CountOf(gs: seq<Group>, k: seq<string>): nat
  {
    if gs == [] then 0
    else (if gs[0].key == k then gs[0].count else 0) + CountOf(gs[1..], k)
  }

  function SumCounts(gs: seq<Group>): nat
  {
    if gs == [] then 0 else gs[0].count + SumCounts(gs[1..])
  }

  ghost predicate KeySorted(gs: seq<Group>)
  {
    forall i, j :: 0 <= i < j < |gs| ==> KeyLess(gs[i].key, gs[j].key)
  }

  ghost predicate DistinctKeys(gs: seq<Group>)
  {
    forall i, j :: 0 <= i < j < |gs| ==> gs[i].key != gs[j].key
  }

  ghost predicate Positive(gs: seq<Group>)
  {
    forall i :: 0 <= i < |gs| ==> gs[i].count >= 1
  }

  // ----- Grouping: the key-sorted groups with their counts -----

  /** Counts one more row with key `k` in key-sorted groups. */
  function Bump(gs: seq<Group>, k: seq<string>): seq<Group>
  {
    if gs == [] then [Group(k, 1)]
    else if gs[0].key == k then [Group(k, gs[0].count + 1)] + gs[1..]
    else if KeyLess(k, gs[0].key) then [Group(k, 1)] + gs
    else [gs[0]] + Bump(gs[1..], k)
  }

  /** The groups of a list of keys, in ascending key order. */
  function Tally(keys: seq<seq<string>>): seq<Group>
  {
    if keys == [] then [] else Bump(Tally(keys[..|keys| - 1]), keys[|keys| - 1])
  }

  lemma KeysCons(g: Group, gs: seq<Group>)
    ensures Keys([g] + gs) == [g.key] + Keys(gs)
  {
  }

  lemma {:induction false} BumpKeys(gs: seq<Group>, k: seq<string>)
    ensures forall j :: j in Keys(Bump(gs, k)) <==> j == k || j in Keys(gs)
  {
    if gs == [] {
      assert Keys(Bump(gs, k)) == [k];
    } else {
      var g, rest := gs[0], gs[1..];
      assert gs == [g] + rest;
      KeysCons(g, rest);
      if g.key == k {
        KeysCons(Group(k, g.count + 1), rest);
      } else if KeyLess(k, g.key) {
        KeysCons(Group(k, 1), gs);
      } else {
        BumpKeys(rest, k);
        KeysCons(g, Bump(rest, k));
      }
    }
  }

  lemma {:induction false} BumpSorted(gs: seq<Group>, k: seq<string>)
    requires KeySorted(gs)
    ensures KeySorted(Bump(gs, k))
  {
    if gs == [] {
    } else if gs[0].key == k {
    } else if KeyLess(k, gs[0].key) {
      var b := Bump(gs, k);
      forall i, j | 0 <= i < j < |b| ensures KeyLess(b[i].key, b[j].key) {
        if i == 0 && j > 1 {
          KeyLessTransitive(k, gs[0].key, gs[j - 1].key);
        }
      }
    } else {
      KeyLessTotal(k, gs[0].key);
      BumpSorted(gs[1..], k);
      BumpKeys(gs[1..], k);
      var rest := Bump(gs[1..], k);
      var b := Bump(gs, k);
      assert b == [gs[0]] + rest;
      forall j | 0 < j < |b| ensures KeyLess(b[0].key, b[j].key) {
        assert b[j].key == Keys(rest)[j - 1];
        assert b[j].key in Keys(rest);
        if b[j].key != k {
          var m :| 0 <= m < |gs[1..]| && Keys(gs[1..])[m] == b[j].key;
          assert gs[m + 1].key == b[j].key;
        }
      }
    }
  }

  lemma {:induction false} BumpCount(gs: seq<Group>, k: seq<string>, j: seq<string>)
    ensures CountOf(Bump(gs, k), j) == CountOf(gs, j) + (if j == k then 1 else 0)
  {
    if gs != [] {
      if gs[0].key == k {
        assert Bump(gs, k)[1..] == gs[1..];
      } else if KeyLess(k, gs[0].key) {
        assert Bump(gs, k)[1..] == gs;
      } else {
        BumpCount(gs[1..], k, j);
        assert Bump(gs, k)[1..] == Bump(gs[1..], k);
      }
    }
  }

  lemma {:induction false} BumpSum(gs: seq<Group>, k: seq<string>)
    ensures SumCounts(Bump(gs, k)) == SumCounts(gs) + 1
  {
    if gs != [] {
      if gs[0].key == k {
        assert Bump(gs, k)[1..] == gs[1..];
      } else if KeyLess(k, gs[0].key) {
        assert Bump(gs, k)[1..] == gs;
      } else {
        BumpSum(gs[1..], k);
        assert Bump(gs, k)[1..] == Bump(gs[1..], k);
      }
    }
  }

  lemma {:induction false} BumpPositive(gs: seq<Group>, k: seq<string>)
    requires Positive(gs)
    ensures Positive(Bump(gs, k))
  {
    if gs != [] && gs[0].key != k && !KeyLess(k, gs[0].key) {
      BumpPositive(gs[1..], k);
    }
  }

  lemma KeySortedDistinct(gs: seq<Group>)
    requires KeySorted(gs)
    ensures DistinctKeys(gs)
  {
    forall i, j | 0 <= i < j < |gs| ensures gs[i].key != gs[j].key {
      KeyLessIrreflexive(gs[i].key);
    }
  }

  /** The groups of `keys`: sorted by key (hence each key once), each count
      positive and equal to the number of occurrences of its key, every key
      present, and the counts add up to the number of keys. */
  lemma {:induction false} TallyCorrect(keys: seq<seq<string>>)
    ensures KeySorted(Tally(keys)) && DistinctKeys(Tally(keys)) && Positive(Tally(keys))
    ensures forall j :: CountOf(Tally(keys), j) == multiset(keys)[j]
    ensures forall j :: j in Keys(Tally(keys)) <==> j in keys
    ensures SumCounts(Tally(keys)) == |keys|
  {
    if keys != [] {
      var init, last := keys[..|keys| - 1], keys[|keys| - 1];
      TallyCorrect(init);
      BumpSorted(Tally(init), last);
      BumpPositive(Tally(init), last);
      BumpKeys(Tally(init), last);
      BumpSum(Tally(init), last);
      assert keys == init + [last];
      forall j ensures CountOf(Tally(keys), j) == multiset(keys)[j] {
        BumpCount(Tally(init), last, j);
      }
    }
    KeySortedDistinct(Tally(keys));
  }

  // ----- Ordering: the stable sort on count, descending -----

  /** Inserts `g` before the first group whose count is not larger than its
      own, so that an earlier group stays ahead of later ones with an equal
      count. */
  function InsertByCount(g: Group, s: seq<Group>): seq<Group>
  {
    if s == [] || g.count >= s[0].count then [g] + s
    else [s[0]] + InsertByCount(g, s[1..])
  }

  /** `sort("count", reverse=True)`: a stable insertion sort. */
  function SortByCount(gs: seq<Group>): seq<Group>
  {
    if gs == [] then [] else InsertByCount(gs[0], SortByCount(gs[1..]))
  }

  /** The order the output is in: larger counts first, and among equal
      counts the smaller key first. */
  predicate Before(g: Group, h: Group)
  {
    g.count > h.count || (g.count == h.count && KeyLess(g.key, h.key))
  }

  ghost predicate Ordered(gs: seq<Group>)
  {
    forall i, j :: 0 <= i < j < |gs| ==> Before(gs[i], gs[j])
  }

  lemma {:induction false} InsertByCountPermutes(g: Group, s: seq<Group>)
    ensures multiset(InsertByCount(g, s)) == multiset(s) + multiset{g}
    ensures |InsertByCount(g, s)| == |s| + 1
  {
    if s != [] && g.count < s[0].count {
      InsertByCountPermutes(g, s[1..]);
      assert s == [s[0]] + s[1..];
    }
  }

  lemma {:induction false} InsertByCountOrdered(g: Group, s: seq<Group>)
    requires Ordered(s)
    requires forall h :: h in s ==> KeyLess(g.key, h.key)
    ensures Ordered(InsertByCount(g, s))
  {
    var r := InsertByCount(g, s);
    if s == [] || g.count >= s[0].count {
      forall j | 0 < j < |r| ensures Before(r[0], r[j]) {
        assert r[j] == s[j - 1];
        if j > 1 {
          assert Before(s[0], s[j - 1]);
        }
      }
    } else {
      InsertByCountOrdered(g, s[1..]);
      InsertByCountPermutes(g, s[1..]);
      var rest := InsertByCount(g, s[1..]);
      assert r == [s[0]] + rest;
      forall j | 0 < j < |r| ensures Before(r[0], r[j]) {
        assert r[j] in multiset(rest);
        if r[j] != g {
          assert r[j] in multiset(s[1..]);
          var m :| 0 <= m < |s[1..]| && s[1..][m] == r[j];
          assert Before(s[0], s[m + 1]);
        }
      }
    }
  }

  lemma {:induction false} InsertByCountDistinct(g: Group, s: seq<Group>)
    requires DistinctKeys(s)
    requires forall h :: h in s ==> h.key != g.key
    ensures DistinctKeys(InsertByCount(g, s))
  {
    if s != [] && g.count < s[0].count {
      InsertByCountDistinct(g, s[1..]);
      InsertByCountPermutes(g, s[1..]);
      var rest := InsertByCount(g, s[1..]);
      var r := InsertByCount(g, s);
      assert r == [s[0]] + rest;
      forall j | 0 < j < |r| ensures r[0].key != r[j].key {
        assert r[j] in multiset(rest);
        if r[j] != g {
          assert r[j] in multiset(s[1..]);
          var m :| 0 <= m < |s[1..]| && s[1..][m] == r[j];
          assert s[0].key != s[m + 1].key;
        }
      }
    }
  }

  lemma {:induction false} InsertByCountCounts(g: Group, s: seq<Group>, j: seq<string>)
    ensures CountOf(InsertByCount(g, s), j) == CountOf(s, j) + (if g.key == j then g.count else 0)
    ensures SumCounts(InsertByCount(g, s)) == SumCounts(s) + g.count
  {
    if s == [] || g.count >= s[0].count {
      assert InsertByCount(g, s)[1..] == s;
    } else {
      InsertByCountCounts(g, s[1..], j);
      assert InsertByCount(g, s)[1..] == InsertByCount(g, s[1..]);
    }
  }

  lemma {:induction false} SortByCountPermutes(gs: seq<Group>)
    ensures multiset(SortByCount(gs)) == multiset(gs)
    ensures forall j :: CountOf(SortByCount(gs), j) == CountOf(gs, j)
    ensures SumCounts(SortByCount(gs)) == SumCounts(gs)
  {
    if gs != [] {
      var tail := gs[1..];
      SortByCountPermutes(tail);
      InsertByCountPermutes(gs[0], SortByCount(tail));
      assert gs == [gs[0]] + tail;
      forall j ensures CountOf(SortByCount(gs), j) == CountOf(gs, j) {
        InsertByCountCounts(gs[0], SortByCount(tail), j);
      }
      InsertByCountCounts(gs[0], SortByCount(tail), []);
    }
  }

  /** The head of key-sorted groups is below every group of the sorted tail. */
  lemma HeadBelowSortedTail(gs: seq<Group>)
    requires KeySorted(gs) && gs != []
    ensures forall h :: h in SortByCount(gs[1..]) ==> KeyLess(gs[0].key, h.key) && h.key != gs[0].key
  {
    var tail := gs[1..];
    SortByCountPermutes(tail);
    KeyLessIrreflexive(gs[0].key);
    forall h | h in SortByCount(tail) ensures KeyLess(gs[0].key, h.key) {
      assert h in multiset(tail);
      var m :| 0 <= m < |tail| && tail[m] == h;
      assert gs[m + 1] == h;
    }
  }

  /** Sorting key-sorted groups by count keeps exactly the same groups (so
      the same counts and the same keys, each once) and orders them by
      count, descending, ties in key order. */
  lemma {:induction false} SortByCountCorrect(gs: seq<Group>)
    requires KeySorted(gs)
    ensures multiset(SortByCount(gs)) == multiset(gs)
    ensures Ordered(SortByCount(gs)) && DistinctKeys(SortByCount(gs))
    ensures forall j :: CountOf(SortByCount(gs), j) == CountOf(gs, j)
    ensures SumCounts(SortByCount(gs)) == SumCounts(gs)
  {
    SortByCountPermutes(gs);
    if gs != [] {
      SortByCountCorrect(gs[1..]);
      HeadBelowSortedTail(gs);
      InsertByCountOrdered(gs[0], SortByCount(gs[1..]));
      InsertByCountDistinct(gs[0], SortByCount(gs[1..]));
    }
  }

  // ----- The aggregation -----

  /** The requested columns the snapshot header lacks. */
  function MissingColumns(header: set<string>, columns: seq<string>): (missing: seq<string>)
    ensures forall c :: c in missing <==> c in columns && c !in header
  {
    if columns == [] then []
    else (if columns[0] in header then [] else [columns[0]]) + MissingColumns(header, columns[1..])
  }

  /** The aggregation of a snapshot with header `header` and rows `rows`. An
      empty column list gives no groups; an unknown column is an error. */
  function AggregateRows(header: set<string>, rows: seq<Record>, columns: seq<string>): Result<seq<Group>, Error>
  {
    if columns == [] then Success([])
    else if MissingColumns(header, columns) != [] then Failure(InvalidColumns(MissingColumns(header, columns)))
    else Success(SortByCount(Tally(RowKeys(rows, columns))))
  }

  lemma CountOfDistinct(gs: seq<Group>, i: nat)
    requires DistinctKeys(gs) && i < |gs|
    ensures CountOf(gs, gs[i].key) == gs[i].count
  {
    if i == 0 {
      CountOfAbsent(gs[1..], gs[0].key);
    } else {
      CountOfDistinct(gs[1..], i - 1);
    }
  }

  lemma {:induction false} CountOfAbsent(gs: seq<Group>, k: seq<string>)
    requires forall i :: 0 <= i < |gs| ==> gs[i].key != k
    ensures CountOf(gs, k) == 0
  {
    if gs != [] {
      CountOfAbsent(gs[1..], k);
    }
  }

  /** Each output group's count is the number of occurrences of its key. */
  lemma GroupCountsExact(keys: seq<seq<string>>)
    ensures var gs := SortByCount(Tally(keys));
      forall i :: 0 <= i < |gs| ==> gs[i].count >= 1 && gs[i].count == multiset(keys)[gs[i].key]
  {
    TallyCorrect(keys);
    var tally := Tally(keys);
    SortByCountCorrect(tally);
    var gs := SortByCount(tally);
    forall i | 0 <= i < |gs| ensures gs[i].count >= 1 && gs[i].count == multiset(keys)[gs[i].key] {
      assert gs[i] in multiset(tally);
      var m :| 0 <= m < |tally| && tally[m] == gs[i];
      CountOfDistinct(gs, i);
    }
  }

  /** The output keys are exactly the key tuples that occur. */
  lemma GroupKeysExact(keys: seq<seq<string>>)
    ensures forall k :: k in Keys(SortByCount(Tally(keys))) <==> k in keys
  {
    TallyCorrect(keys);
    var tally := Tally(keys);
    SortByCountPermutes(tally);
    var gs := SortByCount(tally);
    forall k ensures k in Keys(gs) <==> k in keys {
      if k in Keys(gs) {
        var i :| 0 <= i < |gs| && gs[i].key == k;
        assert gs[i] in multiset(tally);
        var m :| 0 <= m < |tally| && tally[m] == gs[i];
        assert Keys(tally)[m] == k;
      }
      if k in keys {
        assert k in Keys(tally);
        var m :| 0 <= m < |tally| && tally[m].key == k;
        assert tally[m] in multiset(gs);
        var i :| 0 <= i < |gs| && gs[i] == tally[m];
        assert Keys(gs)[i] == k;
      }
    }
  }

  /** What the aggregation promises: one group per distinct key tuple of the
      rows and no other, its count the number of rows with that tuple, the
      counts adding up to the row count, and counts never increasing down
      the list. */
  lemma AggregateCorrect(header: set<string>, rows: seq<Record>, columns: seq<string>)
    requires columns != [] && forall c :: c in columns ==> c in header
    ensures AggregateRows(header, rows, columns).Success?
    ensures var gs := AggregateRows(header, rows, columns).value;
      && (forall i, j :: 0 <= i < j < |gs| ==> gs[i].key != gs[j].key)
      && (forall i :: 0 <= i < |gs| ==> gs[i].count >= 1 && gs[i].count == multiset(RowKeys(rows, columns))[gs[i].key])
      && (forall k :: k in Keys(gs) <==> k in RowKeys(rows, columns))
      && SumCounts(gs) == |rows|
      && (forall i, j :: 0 <= i < j < |gs| ==> gs[i].count >= gs[j].count)
  {
    var keys := RowKeys(rows, columns);
    if MissingColumns(header, columns) != [] {
      assert MissingColumns(header, columns)[0] in MissingColumns(header, columns);
    }
    TallyCorrect(keys);
    SortByCountCorrect(Tally(keys));
    GroupCountsExact(keys);
    GroupKeysExact(keys);
  }

  /** Groups with equal counts come out in ascending key order: the order
      of the key sort that precedes the stable count sort. */
  lemma AggregateTieOrder(header: set<string>, rows: seq<Record>, columns: seq<string>)
    requires AggregateRows(header, rows, columns).Success?
    ensures var gs := AggregateRows(header, rows, columns).value;
      forall i, j :: 0 <= i < j < |gs| && gs[i].count == gs[j].count ==> KeyLess(gs[i].key, gs[j].key)
  {
    if columns != [] {
      TallyCorrect(RowKeys(rows, columns));
      SortByCountCorrect(Tally(RowKeys(rows, columns)));
    }
  }

  /** An unknown column is reported, and only then. */
  lemma AggregateRejectsUnknownColumns(header: set<string>, rows: seq<Record>, columns: seq<string>)
    ensures AggregateRows(header, rows, columns).Failure? <==> columns != [] && exists c :: c in columns && c !in header
    ensures AggregateRows(header, rows, columns).Failure? ==>
              AggregateRows(header, rows, columns).error == InvalidColumns(MissingColumns(header, columns))
  {
    if columns != [] && exists c :: c in columns && c !in header {
      var c :| c in columns && c !in header;
      assert c in MissingColumns(header, columns);
    }
    if MissingColumns(header, columns) != [] {
      assert MissingColumns(header, columns)[0] in MissingColumns(header, columns);
    }
  }

  /** A snapshot without rows gives no groups on any columns of its header. */
  lemma AggregateNoRows(header: set<string>, columns: seq<string>)
    requires forall c :: c in columns ==> c in header
    ensures AggregateRows(header, [], columns) == Success([])
  {
    AggregateRejectsUnknownColumns(header, [], columns);
    assert RowKeys([], columns) == [];
  }

  /** The three-row snapshot of the service tests: two rows with `X` in
      `col1` and one with `Y` give `X` counted twice, then `Y` once. */
  lemma ThreeRowExample()
    ensures AggregateRows({"col1", "col2"},
                          [map["col1" := "X", "col2" := "1"], map["col1" := "X", "col2" := "2"], map["col1" := "Y", "col2" := "1"]],
                          ["col1"])
            == Success([Group(["X"], 2), Group(["Y"], 1)])
  {
    var rows := [map["col1" := "X", "col2" := "1"], map["col1" := "X", "col2" := "2"], map["col1" := "Y", "col2" := "1"]];
    var keys := RowKeys(rows, ["col1"]);
    assert KeyOf(rows[0], ["col1"]) == ["X"];
    assert KeyOf(rows[1], ["col1"]) == ["X"];
    assert KeyOf(rows[2], ["col1"]) == ["Y"];
    assert keys == [["X"], ["X"], ["Y"]];
    assert keys[..2] == [["X"], ["X"]] && keys[..1] == [["X"]] && keys[..0] == [];
    assert Tally(keys[..1]) == [Group(["X"], 1)];
    assert Tally(keys[..2]) == [Group(["X"], 2)];
    assert ["X"] != ["Y"];
    assert KeyLess(["X"], ["Y"]) && !KeyLess(["Y"], ["X"]);
    assert Tally(keys) == Bump(Tally(keys[..2]), ["Y"]);
    assert Bump([Group(["X"], 2)], ["Y"]) == [Group(["X"], 2)] + Bump([], ["Y"]);
    assert Tally(keys) == [Group(["X"], 2), Group(["Y"], 1)];
    assert SortByCount([Group(["Y"], 1)]) == [Group(["Y"], 1)];
  }
}
