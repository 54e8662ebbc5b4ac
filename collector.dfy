/** The page collector of `fetch_and_store_characters`: starting from the
    listing URL it requests page after page, appends each page's `results`
    and follows the page's `next` link until that link is missing, null or
    empty. The HTTP server is an abstract map from URL to response. */
module Collector {
  import opened Records

  /** A decoded listing page. `results == None` is a body without a
      `results` key; `next == None` is a missing or null `next` link. */
  datatype Page = Page(results: Option<seq<Record>>, next: Option<string>)

  /** What a GET yields: a successful, decoded page, or a failure (a non-2xx
      status, a transport error or a body that is not JSON). */
  datatype Response = Fetched(page: Page) | Failed

  /** The remote side; a URL the map does not know cannot be reached. */
  type Server = map<string, Response>

  function Get(server: Server, url: string): (resp: Response)
    ensures url !in server ==> resp == Failed
  {
    if url in server then server[url] else Failed
  }

  /** `data.get("results", [])`: a missing list counts as empty. */
  function PageResults(p: Page): seq<Record>
  {
    match p.results
    case None => []
    case Some(rs) => rs
  }

  /** The URL the loop continues with; the empty string stands for every
      falsy `next` (missing, null or ""). */
  function NextUrl(p: Page): (u: string)
    ensures u == "" <==> p.next == None || p.next == Some("")
  {
    match p.next
    case None => ""
    case Some(v) => v
  }

  /** The outcome of walking the chain of pages: all records collected, an
      abort at the first failing URL, or (for the proof only) the chain was
      longer than the fuel allowed. */
  datatype Walked = Done(records: seq<Record>) | Aborted(url: string) | OutOfFuel

  /** Reference definition of the loop: the records of the page at `url`
      followed by the records of the rest of the chain. */
  function Walk(server: Server, url: string, fuel: nat): (w: Walked)
    ensures w.Aborted? ==> w.url != "" && Get(server, w.url) == Failed
    decreases fuel
  {
    if url == "" then Done([])
    else if fuel == 0 then OutOfFuel
    else match Get(server, url)
      case Failed => Aborted(url)
      case Fetched(p) =>
        match Walk(server, NextUrl(p), fuel - 1)
        case Done(rest) => Done(PageResults(p) + rest)
        case other => other
  }

  /** The loop state `acc` put in front of what the rest of the chain yields. */
  function Resume(acc: seq<Record>, w: Walked): Walked
  {
    match w
    case Done(rest) => Done(acc + rest)
    case other => other
  }

  /** The URL reached after `k` successful page fetches from `url`, or None
      when the chain stops or fails before that. */
  function Follow(server: Server, url: string, k: nat): Option<string>
    decreases k
  {
    if k == 0 then Some(url)
    else if url == "" then None
    else match Get(server, url)
      case Failed => None
      case Fetched(p) => Follow(server, NextUrl(p), k - 1)
  }

  /** The `while url:` loop. `fuel` is a ghost bound on the length of the
      chain: the requires says that the chain ends (the source loops forever
      on a cyclic chain). The result is that of the reference walk. */
  method CollectPages(server: Server, start: string, ghost fuel: nat)
    returns (r: Result<seq<Record>, Error>)
    requires !Walk(server, start, fuel).OutOfFuel?
    ensures Walk(server, start, fuel).Done? ==> r == Success(Walk(server, start, fuel).records)
    ensures Walk(server, start, fuel).Aborted? ==> r == Failure(RequestError(Walk(server, start, fuel).url))
  {
    var acc: seq<Record> := [];
    var url := start;
    ghost var left := fuel;
    while url != ""
      invariant !Walk(server, url, left).OutOfFuel?
      invariant Resume(acc, Walk(server, url, left)) == Walk(server, start, fuel)
      decreases left
    {
      var resp := Get(server, url);
      if resp.Failed? {
        return Failure(RequestError(url));
      }
      var page := resp.page;
      acc := acc + PageResults(page);
      url := NextUrl(page);
      left := left - 1;
    }
    assert acc + [] == acc;
    return Success(acc);
  }

  /** More fuel never changes a walk that has finished: the fuel is only a
      device for termination, not part of the behaviour. */
  lemma {:induction false} WalkFuelIrrelevant(server: Server, url: string, fuel: nat, more: nat)
    requires !Walk(server, url, fuel).OutOfFuel?
    requires fuel <= more
    ensures Walk(server, url, more) == Walk(server, url, fuel)
    decreases fuel
  {
    if url != "" && fuel > 0 {
      match Get(server, url)
      case Failed =>
      case Fetched(p) =>
        WalkFuelIrrelevant(server, NextUrl(p), fuel - 1, more - 1);
    }
  }

  /** The loop stops as soon as `next` is falsy: the last page contributes its
      records and nothing further is requested. */
  lemma StopsOnFalsyNext(server: Server, url: string, fuel: nat, p: Page)
    requires url != "" && Get(server, url) == Fetched(p)
    requires p.next == None || p.next == Some("")
    ensures Walk(server, url, fuel + 1) == Done(PageResults(p))
  {
  }

  /** A page that is fetched contributes its records, in order, in front of
      everything the rest of the chain contributes. */
  lemma PageThenRest(server: Server, url: string, fuel: nat, p: Page, rest: seq<Record>)
    requires url != "" && Get(server, url) == Fetched(p)
    requires Walk(server, NextUrl(p), fuel) == Done(rest)
    ensures Walk(server, url, fuel + 1) == Done(PageResults(p) + rest)
  {
  }

  /** A failure on any page of the chain, after any number of successful
      pages, aborts the whole walk with that page's URL. */
  lemma {:induction false} FailureAnywhereAborts(server: Server, start: string, k: nat, bad: string, fuel: nat)
    requires Follow(server, start, k) == Some(bad)
    requires bad != "" && Get(server, bad) == Failed
    requires k < fuel
    ensures Walk(server, start, fuel) == Aborted(bad)
    decreases k
  {
    if k > 0 {
      match Get(server, start)
      case Fetched(p) =>
        FailureAnywhereAborts(server, NextUrl(p), k - 1, bad, fuel - 1);
    }
  }

  /** A chain that finishes successfully visits every page without failure:
      every URL reached along it is either the end or a fetched page. */
  lemma {:induction false} DoneVisitsOnlyFetchedPages(server: Server, start: string, fuel: nat, k: nat, u: string)
    requires Walk(server, start, fuel).Done?
    requires Follow(server, start, k) == Some(u)
    ensures u == "" || Get(server, u).Fetched?
    decreases k
  {
    if k > 0 {
      match Get(server, start)
      case Fetched(p) =>
        DoneVisitsOnlyFetchedPages(server, NextUrl(p), fuel - 1, k - 1, u);
    }
  }

  /** The page fetched at step `k` of the chain from `url`, when the chain
      reaches a page there. */
  function PageAt(server: Server, url: string, k: nat): Option<Page>
  {
    match Follow(server, url, k)
    case Some(u) => if u != "" && Get(server, u).Fetched? then Some(Get(server, u).page) else None
    case None => None
  }

  /** The records of the first `n` pages of the chain, page after page. */
  function Collected(server: Server, url: string, n: nat): seq<Record>
  {
    if n == 0 then []
    else Collected(server, url, n - 1) + match PageAt(server, url, n - 1) case Some(p) => PageResults(p) case None => []
  }

  /** Counting pages from the second page on: the first page's records come
      in front of the next `n` pages' records. */
  lemma {:induction false} CollectedStep(server: Server, url: string, p: Page, n: nat)
    requires url != "" && Get(server, url) == Fetched(p)
    ensures Collected(server, url, n + 1) == PageResults(p) + Collected(server, NextUrl(p), n)
    decreases n
  {
    if n > 0 {
      CollectedStep(server, url, p, n - 1);
      assert PageAt(server, url, n) == PageAt(server, NextUrl(p), n - 1);
      var last := match PageAt(server, url, n) case Some(q) => PageResults(q) case None => [];
      assert Collected(server, url, n + 1) == PageResults(p) + Collected(server, NextUrl(p), n - 1) + last;
    }
  }

  /** A chain that finishes successfully ends: within the fuel, some step
      reaches the falsy `next`. */
  lemma {:induction false} DoneChainEnds(server: Server, start: string, fuel: nat)
    requires Walk(server, start, fuel).Done?
    ensures exists n :: 0 <= n <= fuel && Follow(server, start, n) == Some("")
    decreases fuel
  {
    if start == "" {
      assert Follow(server, start, 0) == Some("");
    } else {
      var p := Get(server, start).page;
      DoneChainEnds(server, NextUrl(p), fuel - 1);
      var n :| 0 <= n <= fuel - 1 && Follow(server, NextUrl(p), n) == Some("");
      assert Follow(server, start, n + 1) == Some("");
    }
  }

  /** The records of a finished walk are the `results` of the pages of the
      chain, concatenated in chain order, where `n` is the step at which the
      chain reaches its end. */
  lemma {:induction false} DoneIsConcatenation(server: Server, start: string, fuel: nat, n: nat)
    requires Walk(server, start, fuel).Done?
    requires Follow(server, start, n) == Some("")
    ensures Walk(server, start, fuel).records == Collected(server, start, n)
    decreases n
  {
    if n > 0 {
      var p := Get(server, start).page;
      DoneIsConcatenation(server, NextUrl(p), fuel - 1, n - 1);
      CollectedStep(server, start, p, n - 1);
    }
  }
}
