/** The `crawl_page` loop run by the worker pool, and `start`.

    Iterations are atomic, so the workers are interchangeable and the pool behaves
    as one loop that the next live worker carries on. A worker leaves the loop when
    the queue is empty (the `queue.Empty` exit), or when `save_page` raises out of
    `crawl_page`, which ends that worker and skips its `task_done`.
 */
module Crawl {
  import opened Web
  import opened CrawlState

  /** Where the loop stops: the final crawler and how many workers are still alive. */
  datatype Drained = Drained(final: Crawler, alive: nat)

  /** What `start` comes to: `q.join()` returns once every queued item was marked done,
      and hangs forever otherwise. */
  datatype Outcome = Completed(crawler: Crawler) | Hung(crawler: Crawler)

  /** `alive` workers run `crawl_page` until the queue is empty or all have died. */
  function Drain(c: Crawler, web: Oracles, alive: nat): (r: Drained)
    ensures r.alive <= alive
    ensures r.alive > 0 ==> r.final.queue == []
    ensures r.final.baseUrl == c.baseUrl && r.final.maxPages == c.maxPages
    ensures c.visited <= r.final.visited && c.pageCount <= r.final.pageCount
    decreases Budget(c), |c.queue|
  {
    if alive == 0 then Drained(c, 0)
    else
      match Step(c, web)
      case Exit => Drained(c, alive)
      case Continue(n) => Drain(n, web, alive)
      case Raise(n, _) => Drain(n, web, alive - 1)
  }

  /** `range(max_threads)` workers: none when `max_threads` is not positive. */
  function Workers(c: Crawler): (n: nat)
    ensures n == 0 <==> c.maxThreads <= 0
    ensures n > 0 ==> n == c.maxThreads
  {
    if c.maxThreads > 0 then c.maxThreads else 0
  }

  /** `start`: seed the queue, run the workers, wait on `q.join()`. */
  function Start(c: Crawler, web: Oracles): (r: Outcome)
    ensures r.Completed? ==> r.crawler.queue == [] && Workers(c) > 0
  {
    var workers := Workers(c);
    var d := Drain(Seed(c), web, workers);
    if d.alive == workers && d.final.queue == [] then Completed(d.final) else Hung(d.final)
  }

  /** The number of entries of a fetch log whose processing made `save_page` raise. */
  function CrashCount(web: Oracles, log: seq<Url>): nat {
    if log == [] then 0
    else CrashCount(web, log[..|log| - 1]) + (if Crashes(web, log[|log| - 1]) then 1 else 0)
  }

  lemma CrashCountZero(web: Oracles, log: seq<Url>)
    ensures CrashCount(web, log) == 0 <==> forall k :: 0 <= k < |log| ==> !Crashes(web, log[k])
  {
    if log != [] {
      var init := log[..|log| - 1];
      CrashCountZero(web, init);
      assert forall k :: 0 <= k < |init| ==> init[k] == log[k];
    }
  }

  /** A link-closed set: it holds every link found on each of its pages. */
  ghost predicate LinkClosed(web: Oracles, origin: string, s: iset<Url>) {
    forall u, l :: u in s && l in Discovered(web, origin, u) ==> l in s
  }

  /** The loop keeps the invariant. */
  lemma {:induction false} DrainInv(c: Crawler, web: Oracles, alive: nat)
    requires Inv(c, web)
    ensures Inv(Drain(c, web, alive).final, web)
    decreases Budget(c), |c.queue|
  {
    if alive > 0 {
      var s := Step(c, web);
      if !s.Exit? {
        StepInv(c, web);
        DrainInv(s.next, web, if s.Raise? then alive - 1 else alive);
      }
    }
  }

  /** One iteration appends at most one URL to the fetch log, and it adds a crash
      exactly when the iteration raises. */
  lemma StepCrashes(c: Crawler, web: Oracles)
    requires c.queue != []
    ensures var n := Step(c, web).next;
            && c.fetched <= n.fetched
            && CrashCount(web, n.fetched) == CrashCount(web, c.fetched) + (if Step(c, web).Raise? then 1 else 0)
  {
    var s := Step(c, web);
    var n := s.next;
    if Admit(c, c.queue[0]).Some? {
      assert n.fetched[..|n.fetched| - 1] == c.fetched;
    }
  }

  /** The loop only appends to the fetch log, and each worker that died is accounted
      for by one page in the log whose save raised. */
  lemma {:induction false} DrainCrashes(c: Crawler, web: Oracles, alive: nat)
    ensures c.fetched <= Drain(c, web, alive).final.fetched
    ensures Drain(c, web, alive).alive + CrashCount(web, Drain(c, web, alive).final.fetched)
            == alive + CrashCount(web, c.fetched)
    decreases Budget(c), |c.queue|
  {
    if alive > 0 && c.queue != [] {
      var s := Step(c, web);
      var w := if s.Raise? then alive - 1 else alive;
      assert Drain(c, web, alive) == Drain(s.next, web, w);
      StepCrashes(c, web);
      DrainCrashes(s.next, web, w);
    }
  }

  /** Everything the crawl fetches lies in every link-closed set holding the seed:
      the crawler never strays from the pages reachable from `base_url`. */
  lemma {:induction false} FetchedWithin(c: Crawler, web: Oracles, s: iset<Url>, k: nat)
    requires Provenance(c, web)
    requires c.baseUrl in s && LinkClosed(web, Origin(c, web), s)
    requires k < |c.fetched|
    ensures c.fetched[k] in s
    decreases k
  {
    if c.fetched[k] != c.baseUrl {
      var j :| 0 <= j < k && j < |c.fetched| && c.fetched[k] in Discovered(web, Origin(c, web), c.fetched[j]);
      FetchedWithin(c, web, s, j);
    }
  }

  /** Budget, at-most-once fetch and origin restriction for a whole crawl. */
  lemma StartSafe(baseUrl: Url, maxThreads: int, maxPages: int, web: Oracles)
    ensures var f := Start(Init(baseUrl, maxThreads, maxPages), web).crawler;
            && f.pageCount == |f.visited| == |f.fetched|
            && (maxPages >= 0 ==> f.pageCount <= maxPages)
            && (maxPages <= 0 ==> f.fetched == [])
            && Distinct(f.fetched)
            && (forall u :: u in f.visited <==> u in f.fetched)
            && (forall u :: u in f.visited ==> web.netloc(u) == web.netloc(baseUrl))
  {
    var c := Seed(Init(baseUrl, maxThreads, maxPages));
    SeededInv(baseUrl, maxThreads, maxPages, web);
    DrainInv(c, web, Workers(c));
  }

  /** `start` returns exactly when there is at least one worker and no fetched page
      made `save_page` raise. */
  lemma StartCompletes(baseUrl: Url, maxThreads: int, maxPages: int, web: Oracles)
    ensures var r := Start(Init(baseUrl, maxThreads, maxPages), web);
            r.Completed? <==> maxThreads > 0 && forall k :: 0 <= k < |r.crawler.fetched| ==> !Crashes(web, r.crawler.fetched[k])
  {
    var c := Seed(Init(baseUrl, maxThreads, maxPages));
    SeededInv(baseUrl, maxThreads, maxPages, web);
    DrainCrashes(c, web, Workers(c));
    var d := Drain(c, web, Workers(c));
    assert CrashCount(web, c.fetched) == 0;
    CrashCountZero(web, d.final.fetched);
    if maxThreads <= 0 {
      assert d.final.queue == [baseUrl];
    }
  }

  /** No lost work: a crawl that returns with budget to spare has visited the seed and
      every same-origin link of every page it visited and saved. */
  lemma StartExhaustive(baseUrl: Url, maxThreads: int, maxPages: int, web: Oracles)
    ensures var r := Start(Init(baseUrl, maxThreads, maxPages), web);
            var f := r.crawler;
            r.Completed? && f.pageCount < maxPages ==>
              && baseUrl in f.visited
              && forall u, l :: u in f.visited && l in Discovered(web, web.netloc(baseUrl), u) ==> l in f.visited
  {
    var c := Seed(Init(baseUrl, maxThreads, maxPages));
    SeededInv(baseUrl, maxThreads, maxPages, web);
    DrainInv(c, web, Workers(c));
    var f := Drain(c, web, Workers(c)).final;
    forall u, l | u in f.visited && l in Discovered(web, web.netloc(baseUrl), u) && f.queue == [] && f.pageCount < maxPages
      ensures l in f.visited
    {
      assert u in f.fetched;
      var j :| 0 <= j < |f.fetched| && f.fetched[j] == u;
    }
  }

  /** Reachability: every page a crawl visits lies in every link-closed set holding the
      seed. With `StartExhaustive`, a crawl that returns `Completed` with
      `page_count < max_pages` has visited exactly the pages reachable from the seed. */
  lemma StartReachable(baseUrl: Url, maxThreads: int, maxPages: int, web: Oracles, s: iset<Url>)
    requires baseUrl in s && LinkClosed(web, web.netloc(baseUrl), s)
    ensures forall u :: u in Start(Init(baseUrl, maxThreads, maxPages), web).crawler.visited ==> u in s
  {
    var c := Seed(Init(baseUrl, maxThreads, maxPages));
    SeededInv(baseUrl, maxThreads, maxPages, web);
    DrainInv(c, web, Workers(c));
    var f := Drain(c, web, Workers(c)).final;
    forall u | u in f.visited
      ensures u in s
    {
      var k :| 0 <= k < |f.fetched| && f.fetched[k] == u;
      FetchedWithin(f, web, s, k);
    }
  }

  /** With a worker and a positive budget, the seed is the first page fetched; with
      `max_pages == 1` it is the only one. */
  lemma StartFetchesSeed(baseUrl: Url, maxThreads: int, maxPages: int, web: Oracles)
    requires maxThreads > 0 && maxPages > 0
    ensures var f := Start(Init(baseUrl, maxThreads, maxPages), web).crawler;
            |f.fetched| > 0 && f.fetched[0] == baseUrl && (maxPages == 1 ==> f.fetched == [baseUrl])
  {
    var c := Seed(Init(baseUrl, maxThreads, maxPages));
    assert c.queue == [baseUrl] && c.visited == {} && c.pageCount == 0;
    var s := Step(c, web);
    var w := if s.Raise? then maxThreads - 1 else maxThreads;
    assert s.next.fetched == [baseUrl];
    assert Drain(c, web, maxThreads) == Drain(s.next, web, w);
    DrainCrashes(s.next, web, w);
    StartSafe(baseUrl, maxThreads, maxPages, web);
  }

  /** `WebCrawler(base_url)` with its default arguments: five workers and at most twenty
      pages fetched, each at most once; `start` returns iff no save raised. */
  lemma StartDefaults(baseUrl: Url, web: Oracles)
    ensures var r := Start(Init(baseUrl, DefaultMaxThreads, DefaultMaxPages), web);
            && Workers(Init(baseUrl, DefaultMaxThreads, DefaultMaxPages)) == 5
            && |r.crawler.fetched| <= 20
            && Distinct(r.crawler.fetched)
            && (r.Completed? <==> forall k :: 0 <= k < |r.crawler.fetched| ==> !Crashes(web, r.crawler.fetched[k]))
  {
    StartSafe(baseUrl, DefaultMaxThreads, DefaultMaxPages, web);
    StartCompletes(baseUrl, DefaultMaxThreads, DefaultMaxPages, web);
  }
}
