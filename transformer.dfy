/** `transform_data`: every raw character record gets a `date` field (the
    first ten characters of `edited`), its `homeworld` URL replaced by the
    planet's name through a per-call memo cache, and seven fields removed. */
module Transformer {
  import opened Records

  /** The fields `cutout` removes. */
  const Dropped: set<string> := {"films", "species", "vehicles", "starships", "created", "edited", "url"}

  /** The fields `convert` and `cutout` select by name. */
  const Selected: set<string> := Dropped + {"homeworld"}

  /** The columns `fromdicts` gives the table: every field of every record. */
  function Columns(records: seq<Record>): (cols: set<string>)
    ensures forall i, k :: 0 <= i < |records| && k in records[i] ==> k in cols
    ensures forall k :: k in cols ==> exists i :: 0 <= i < |records| && k in records[i]
  {
    set r, k | r in records && k in r :: k
  }

  /** The selected fields that are no column of the table. When there is
      one, petl raises a field-selection error before any data row is
      produced; only when `homeworld` alone is missing is the header row
      produced first. */
  function MissingFields(records: seq<Record>): (m: set<string>)
    ensures forall f :: f in m <==> f in Selected && forall i :: 0 <= i < |records| ==> f !in records[i]
  {
    Selected - Columns(records)
  }

  /** The columns of the transformed table: `date`, `homeworld`, and every
      field some record carries that `cutout` does not remove. */
  function TableHeader(records: seq<Record>): (h: set<string>)
    ensures forall k :: k in h <==>
              k == "date" || k == "homeworld" || (k !in Dropped && exists i :: 0 <= i < |records| && k in records[i])
  {
    Columns(records) - Dropped + {"date", "homeworld"}
  }

  /** The number of leading records that carry `edited`. Once `edited` is a
      column, a record without it holds None there, and slicing None raises
      while that record is produced. */
  function Dated(records: seq<Record>): (n: nat)
    ensures n <= |records|
    ensures forall i :: 0 <= i < n ==> "edited" in records[i]
    ensures n < |records| ==> "edited" !in records[n]
  {
    if records == [] || "edited" !in records[0] then 0 else 1 + Dated(records[1..])
  }

  /** An empty listing has none of the selected columns, and records that
      all carry every selected field have them all. */
  lemma MissingFieldsCases(records: seq<Record>)
    ensures records == [] ==> MissingFields(records) == Selected
    ensures (forall i :: 0 <= i < |records| ==> Selected <= records[i].Keys) && records != [] ==> MissingFields(records) == {}
  {
    if records != [] && forall i :: 0 <= i < |records| ==> Selected <= records[i].Keys {
      forall f | f in Selected ensures f !in MissingFields(records) {
        assert f in records[0];
      }
    }
  }

  /** What a request for a planet URL yields: a decoded body, which may or
      may not carry a `name`, or a failure of any kind (transport error,
      non-2xx status, a body that is not JSON). */
  datatype Lookup = Found(name: Option<string>) | LookupFailed

  /** `rec.get("edited", "")[:10]`. */
  function EditedDate(r: Record): (d: string)
    ensures |d| == Min(10, |Field(r, "edited")|)
    ensures d <= Field(r, "edited")
  {
    var e := Field(r, "edited");
    e[..Min(10, |e|)]
  }

  /** The homeworld URL of a record; a record without the field yields the
      empty (falsy) value. */
  function HomeworldUrl(r: Record): string
  {
    Field(r, "homeworld")
  }

  /** Uncached resolution of one homeworld URL: the name the planet request
      returns, the URL itself when the request fails or the body has no
      `name`, and "" for an empty URL (no request is made). */
  function Resolve(lookup: string -> Lookup, url: string): (name: string)
    ensures name == "" <==> url == "" || lookup(url) == Found(Some(""))
  {
    if url == "" then ""
    else match lookup(url)
      case LookupFailed => url
      case Found(None) => url
      case Found(Some(name)) => name
  }

  /** The three outcomes of a resolution. */
  lemma ResolveOutcomes(lookup: string -> Lookup, url: string)
    ensures url == "" ==> Resolve(lookup, url) == ""
    ensures url != "" && (lookup(url).LookupFailed? || lookup(url) == Found(None)) ==> Resolve(lookup, url) == url
    ensures url != "" && lookup(url).Found? && lookup(url).name.Some? ==> Resolve(lookup, url) == lookup(url).name.value
  {
  }

  /** The column operations on one record, given the resolved homeworld
      name: `addfield("date")`, `convert("homeworld")`, `cutout(Dropped)`. */
  function Reshape(r: Record, homeworld: string): Record
  {
    (r - Dropped)["date" := EditedDate(r)]["homeworld" := homeworld]
  }

  /** The fields of a reshaped record: the seven dropped fields are gone,
      `date` and `homeworld` are always present, every other field of the
      input keeps its value, and nothing else appears. */
  lemma ReshapeFields(r: Record, homeworld: string)
    ensures forall k :: k in Reshape(r, homeworld) <==> (k in r && k !in Dropped) || k == "date" || k == "homeworld"
    ensures forall k :: k in r && k !in Dropped && k != "date" && k != "homeworld" ==> Reshape(r, homeworld)[k] == r[k]
    ensures Reshape(r, homeworld)["date"] == EditedDate(r) && Reshape(r, homeworld)["homeworld"] == homeworld
    ensures forall k :: k in Dropped ==> k !in Reshape(r, homeworld)
  {
  }

  /** The specification of one output record: the record reshaped with its
      homeworld resolved without any cache. */
  function TransformRecord(lookup: string -> Lookup, r: Record): Record
  {
    Reshape(r, Resolve(lookup, HomeworldUrl(r)))
  }

  /** The homeworld URLs of the records, in record order. */
  function HomeworldUrls(records: seq<Record>): (urls: seq<string>)
    ensures |urls| == |records|
    ensures forall i :: 0 <= i < |records| ==> urls[i] == HomeworldUrl(records[i])
  {
    seq(|records|, i requires 0 <= i < |records| => HomeworldUrl(records[i]))
  }

  /** The distinct non-empty strings of `s`, in order of first appearance:
      the planet requests a memoised pass issues. */
  function FirstSeen(s: seq<string>): seq<string>
  {
    if s == [] then []
    else
      var seen := FirstSeen(s[..|s| - 1]);
      var u := s[|s| - 1];
      if u == "" || u in seen then seen else seen + [u]
  }

  ghost predicate NoDuplicates(s: seq<string>)
  {
    forall i, j :: 0 <= i < j < |s| ==> s[i] != s[j]
  }

  /** Each URL in `FirstSeen(s)` appears once, and exactly the non-empty
      values of `s` appear. */
  lemma {:induction false} FirstSeenDistinct(s: seq<string>)
    ensures NoDuplicates(FirstSeen(s))
    ensures forall u :: u in FirstSeen(s) <==> u != "" && u in s
  {
    if s != [] {
      var init := s[..|s| - 1];
      FirstSeenDistinct(init);
      assert s == init + [s[|s| - 1]];
    }
  }

  /** `planet_cache` together with the nested `get_planet_name`. `requested`
      is the log of the planet requests issued so far. */
  class PlanetResolver {
    const lookup: string -> Lookup
    var cache: map<string, string>
    var requested: seq<string>

    /** Every cached name is what an uncached resolution gives, no empty URL
        is cached, and the cache holds exactly the URLs requested, each
        requested once. */
    ghost predicate Valid()
      reads this
    {
      && (forall u :: u in cache ==> u != "" && cache[u] == Resolve(lookup, u))
      && (forall u :: u in cache <==> u in requested)
      && NoDuplicates(requested)
    }

    constructor (lookup: string -> Lookup)
      ensures Valid()
      ensures this.lookup == lookup && cache == map[] && requested == []
    {
      this.lookup := lookup;
      cache := map[];
      requested := [];
    }

    /** The name for `url`: from the cache when it is there, otherwise by one
        request whose outcome is then cached. */
    method GetPlanetName(url: string) returns (name: string)
      requires Valid()
      modifies this
      ensures Valid()
      ensures name == Resolve(lookup, url)
      ensures url == "" || url in old(cache) ==> cache == old(cache) && requested == old(requested)
      ensures url != "" && url !in old(cache) ==>
                cache == old(cache)[url := name] && requested == old(requested) + [url]
    {
      if url == "" {
        return "";
      }
      if url in cache {
        return cache[url];
      }
      var resp := lookup(url);
      name := match resp
        case LookupFailed => url
        case Found(None) => url
        case Found(Some(n)) => n;
      requested := requested + [url];
      cache := cache[url := name];
    }
  }

  /** `transform_data` on a list of records, evaluated in record order as the
      CSV writer drains the lazy table. `rows` are the records produced
      before the table raised (all of them when `error` is None);
      `requested` lists the planet requests issued; `cache` is the final
      content of `planet_cache`. */
  method TransformData(lookup: string -> Lookup, records: seq<Record>)
    returns (rows: seq<Record>, error: Option<Error>, requested: seq<string>, ghost cache: map<string, string>)
    ensures MissingFields(records) != {} ==>
              rows == [] && error == Some(FieldSelection(MissingFields(records))) && requested == []
    ensures MissingFields(records) == {} ==>
              && rows == TransformSpec(lookup, records[..Dated(records)])
              && (Dated(records) == |records| ==> error == None)
              && (Dated(records) < |records| ==> error == Some(UndatedRecord(Dated(records))))
              && requested == FirstSeen(HomeworldUrls(records[..Dated(records)]))
    ensures NoDuplicates(requested)
    ensures forall u :: u in requested <==>
              MissingFields(records) == {} && u != "" && u in HomeworldUrls(records[..Dated(records)])
    ensures forall u :: u in cache <==> u in requested
    ensures forall u :: u in cache ==> cache[u] == Resolve(lookup, u)
  {
    var missing := MissingFields(records);
    if missing != {} {
      return [], Some(FieldSelection(missing)), [], map[];
    }
    var resolver := new PlanetResolver(lookup);
    rows := [];
    var i := 0;
    while i < |records| && "edited" in records[i]
      invariant 0 <= i <= Dated(records)
      invariant resolver.Valid() && resolver.lookup == lookup
      invariant rows == TransformSpec(lookup, records[..i])
      invariant resolver.requested == FirstSeen(HomeworldUrls(records[..i]))
    {
      var url := HomeworldUrl(records[i]);
      ghost var before, cache0, requested0 := HomeworldUrls(records[..i]), resolver.cache, resolver.requested;
      var name := resolver.GetPlanetName(url);
      RequestedStep(before, url, cache0, requested0, resolver.requested);
      HomeworldUrlsSnoc(records, i);
      TransformSpecSnoc(lookup, records, i, name);
      rows := rows + [Reshape(records[i], name)];
      i := i + 1;
    }
    assert i == Dated(records);
    error := if i < |records| then Some(UndatedRecord(i)) else None;
    requested := resolver.requested;
    cache := resolver.cache;
    FirstSeenDistinct(HomeworldUrls(records[..i]));
  }

  lemma HomeworldUrlsSnoc(records: seq<Record>, i: nat)
    requires i < |records|
    ensures HomeworldUrls(records[..i + 1]) == HomeworldUrls(records[..i]) + [HomeworldUrl(records[i])]
  {
  }

  /** One call of the resolver extends the request log as `FirstSeen` does. */
  lemma RequestedStep(before: seq<string>, url: string, cache0: map<string, string>,
                      requested0: seq<string>, requested1: seq<string>)
    requires requested0 == FirstSeen(before)
    requires forall u :: u in cache0 <==> u in requested0
    requires url == "" || url in cache0 ==> requested1 == requested0
    requires url != "" && url !in cache0 ==> requested1 == requested0 + [url]
    ensures requested1 == FirstSeen(before + [url])
  {
    FirstSeenSnoc(before, url);
  }

  lemma FirstSeenSnoc(s: seq<string>, u: string)
    ensures FirstSeen(s + [u]) == if u == "" || u in FirstSeen(s) then FirstSeen(s) else FirstSeen(s) + [u]
  {
    assert (s + [u])[..|s|] == s;
  }

  /** The uncached specification of the whole pass: one output record per
      input record, in the same order. */
  function TransformSpec(lookup: string -> Lookup, records: seq<Record>): seq<Record>
  {
    seq(|records|, i requires 0 <= i < |records| => TransformRecord(lookup, records[i]))
  }

  /** One more record, transformed with the name the resolver returned. */
  lemma TransformSpecSnoc(lookup: string -> Lookup, records: seq<Record>, i: nat, name: string)
    requires i < |records|
    requires name == Resolve(lookup, HomeworldUrl(records[i]))
    ensures TransformSpec(lookup, records[..i + 1]) == TransformSpec(lookup, records[..i]) + [Reshape(records[i], name)]
  {
    var l, r := TransformSpec(lookup, records[..i + 1]), TransformSpec(lookup, records[..i]) + [Reshape(records[i], name)];
    assert |l| == |r|;
    forall j | 0 <= j < |l| ensures l[j] == r[j] {
      assert records[..i + 1][j] == records[j];
    }
  }

  /** What the pass promises about each output record. */
  lemma {:induction false} TransformSpecShape(lookup: string -> Lookup, records: seq<Record>)
    ensures |TransformSpec(lookup, records)| == |records|
    ensures forall i, k :: 0 <= i < |records| && k in Dropped ==> k !in TransformSpec(lookup, records)[i]
    ensures forall i :: 0 <= i < |records| ==>
              TransformSpec(lookup, records)[i]["date"] == EditedDate(records[i]) &&
              TransformSpec(lookup, records)[i]["homeworld"] == Resolve(lookup, HomeworldUrl(records[i]))
    ensures forall i, k :: 0 <= i < |records| && k in records[i] && k !in Dropped && k != "date" && k != "homeworld" ==>
              k in TransformSpec(lookup, records)[i] && TransformSpec(lookup, records)[i][k] == records[i][k]
  {
    forall i | 0 <= i < |records|
      ensures TransformSpec(lookup, records)[i] == Reshape(records[i], Resolve(lookup, HomeworldUrl(records[i])))
    {
      ReshapeFields(records[i], Resolve(lookup, HomeworldUrl(records[i])));
    }
  }

  /** The pass over a concatenation is the concatenation of the passes: a
      record's output does not depend on its neighbours (the cache only
      saves requests). */
  lemma {:induction false} TransformSpecAppend(lookup: string -> Lookup, a: seq<Record>, b: seq<Record>)
    ensures TransformSpec(lookup, a + b) == TransformSpec(lookup, a) + TransformSpec(lookup, b)
  {
    var l, r := TransformSpec(lookup, a + b), TransformSpec(lookup, a) + TransformSpec(lookup, b);
    assert |l| == |r|;
    forall i | 0 <= i < |l| ensures l[i] == r[i] {
      if i < |a| {
        assert (a + b)[i] == a[i];
      } else {
        assert (a + b)[i] == b[i - |a|];
      }
    }
  }

  /** The two raw records of the service tests: Luke has a homeworld URL,
      Leia an empty one; both carry every field the pass drops. */
  const Luke: Record := map["name" := "Luke", "edited" := "2025-06-13T10:00:00Z", "homeworld" := "http://api/planet/1/",
                            "films" := "[]", "species" := "[]", "vehicles" := "[]", "starships" := "[]",
                            "created" := "2025-06-13", "url" := "http://api/people/1/"]
  const Leia: Record := map["name" := "Leia", "edited" := "2025-06-12T09:00:00Z", "homeworld" := "",
                            "films" := "[]", "species" := "[]", "vehicles" := "[]", "starships" := "[]",
                            "created" := "2025-06-12", "url" := "http://api/people/2/"]

  /** With a planet service that answers every request with `Tatooine`: the
      dates are the days of `edited`, Luke's homeworld is resolved, Leia's
      empty one stays empty, and the dropped fields are gone. */
  lemma LukeAndLeia()
    ensures var out := TransformSpec(u => Found(Some("Tatooine")), [Luke, Leia]);
            && |out| == 2
            && out[0]["date"] == "2025-06-13" && out[1]["date"] == "2025-06-12"
            && out[0]["homeworld"] == "Tatooine" && out[1]["homeworld"] == ""
            && (forall i, k :: 0 <= i < 2 && k in Dropped ==> k !in out[i])
  {
    var lookup: string -> Lookup := u => Found(Some("Tatooine"));
    TransformSpecShape(lookup, [Luke, Leia]);
    assert EditedDate(Luke) == "2025-06-13";
    assert EditedDate(Leia) == "2025-06-12";
    assert HomeworldUrl(Luke) == "http://api/planet/1/" && HomeworldUrl(Leia) == "";
  }

  /** The test records pass the column check and are all dated, so the
      lazy table yields both of them without raising. */
  lemma LukeAndLeiaComplete()
    ensures MissingFields([Luke, Leia]) == {} && Dated([Luke, Leia]) == 2
  {
    assert Selected <= Luke.Keys && Selected <= Leia.Keys;
    MissingFieldsCases([Luke, Leia]);
    assert "edited" in [Luke, Leia][0] && "edited" in [Luke, Leia][1];
  }
}
