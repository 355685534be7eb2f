/** The state of a `WebCrawler` and one iteration of the `crawl_page` loop.

    Threads and the lock are gone: each iteration runs as one atomic step, so the
    gate of lines 48-52 and the admission are indivisible, as the comment at
    line 47 asks. What the step observes of the outside world comes from `Oracles`.
 */
module CrawlState {
  import opened Web
  import Filename

  const DefaultMaxThreads: int := 5
  const DefaultMaxPages: int := 20

  /** The fields of a `WebCrawler`, plus two records of what it did to the world:
      `fetched`, every URL handed to `fetch_page` in call order, and `pages`,
      the contents of the files under `pages/`, keyed by file stem. */
  datatype Crawler = Crawler(
    baseUrl: Url,
    maxThreads: int,
    maxPages: int,
    queue: seq<Url>,
    visited: set<Url>,
    pageCount: nat,
    fetched: seq<Url>,
    pages: map<string, string>)

  /** Why `save_page` raised: `open` failed (OSError), or `f.write` was given bytes
      (TypeError) or non-ASCII text (UnicodeEncodeError). */
  datatype SaveError = OpenFailed | NotText | NotAscii

  /** How one iteration of the `crawl_page` loop ends: the `get` found the queue
      empty and the worker returned; the iteration finished; or `save_page` raised,
      ending the worker without `task_done`. */
  datatype StepResult = Exit | Continue(next: Crawler) | Raise(next: Crawler, error: SaveError)

  /** `WebCrawler(base_url, max_threads, max_pages)`: nothing queued, visited or saved. */
  function Init(baseUrl: Url, maxThreads: int, maxPages: int): (r: Crawler)
    ensures r.baseUrl == baseUrl && r.maxThreads == maxThreads && r.maxPages == maxPages
    ensures r.queue == [] && r.visited == {} && r.pageCount == 0 && r.fetched == [] && r.pages == map[]
    ensures Budget(r) == if maxPages > 0 then maxPages else 0
  {
    Crawler(baseUrl, maxThreads, maxPages, [], {}, 0, [], map[])
  }

  /** The first statement of `start`: the seed goes to the back of the queue. */
  function Seed(c: Crawler): (r: Crawler)
    ensures |r.queue| == |c.queue| + 1 && r.queue[|c.queue|] == c.baseUrl
    ensures r.queue[..|c.queue|] == c.queue
    ensures r == c.(queue := r.queue)
  {
    c.(queue := c.queue + [c.baseUrl])
  }

  /** The netloc every followed link must share. */
  function Origin(c: Crawler, web: Oracles): string {
    web.netloc(c.baseUrl)
  }

  /** Pages left in the budget; the first component of the crawl's termination measure. */
  function Budget(c: Crawler): nat {
    if c.pageCount < c.maxPages then c.maxPages - c.pageCount else 0
  }

  /** The gate and admission of `crawl_page`: a URL already visited, or any URL once
      `page_count` has reached `max_pages`, is refused; otherwise it is marked visited
      and counted. */
  function Admit(c: Crawler, url: Url): (r: Option<Crawler>)
    ensures r.Some? <==> url !in c.visited && c.pageCount < c.maxPages
    ensures r.Some? ==> url in r.value.visited && |r.value.visited| == |c.visited| + 1
    ensures r.Some? ==> r.value.visited - {url} == c.visited && r.value.pageCount == c.pageCount + 1
    ensures r.Some? ==> r.value == c.(visited := r.value.visited, pageCount := r.value.pageCount)
  {
    if url in c.visited || c.pageCount >= c.maxPages then None
    else Some(c.(visited := c.visited + {url}, pageCount := c.pageCount + 1))
  }

  /** The stem of the file `save_page` writes for `url`. */
  function StemOf(web: Oracles, url: Url): string {
    Filename.FileStem(web.netloc(url), web.path(url))
  }

  /** Whether `crawl_page` gets past `save_page` for `url` and goes on to its links: the
      body is truthy, its file opens, and it can be written as ASCII text. */
  predicate Saves(web: Oracles, url: Url) {
    Truthy(web.fetch(url)) && web.opens(StemOf(web, url)) && Writable(web.fetch(url).value)
  }

  /** Whether processing `url` makes `save_page` raise. */
  predicate Crashes(web: Oracles, url: Url)
    ensures Crashes(web, url) <==>
              && Truthy(web.fetch(url))
              && (|| !web.opens(StemOf(web, url))
                  || web.fetch(url).value.Bytes?
                  || !IsAscii(web.fetch(url).value.text))
  {
    Truthy(web.fetch(url)) && !Saves(web, url)
  }

  /** The links fetching `url` makes the crawler enqueue: those of a page that was
      saved, whose netloc is `origin`. Every other page yields none. */
  function Discovered(web: Oracles, origin: string, url: Url): (r: seq<Url>)
    ensures forall u :: u in r ==> web.netloc(u) == origin
    ensures r != [] ==> Saves(web, url)
    ensures Saves(web, url) ==>
              forall l :: l in web.links(url, web.fetch(url).value) && web.netloc(l) == origin ==> l in r
    ensures Saves(web, url) ==>
              forall l :: multiset(r)[l] == if web.netloc(l) == origin then multiset(web.links(url, web.fetch(url).value))[l] else 0
  {
    if Saves(web, url)
    then SameOrigin(web.links(url, web.fetch(url).value), origin, web.netloc)
    else []
  }

  /** The body of `crawl_page` after admission: fetch, and on truthy content save the
      page and enqueue the same-origin links. */
  function Visit(c: Crawler, web: Oracles, url: Url): (r: StepResult)
    ensures !r.Exit?
    ensures r.next.fetched == c.fetched + [url]
    ensures r.next == c.(fetched := r.next.fetched, queue := r.next.queue, pages := r.next.pages)
    ensures r.next.queue == c.queue + Discovered(web, Origin(c, web), url)
    ensures r.Raise? <==> Crashes(web, url)
    // which exception `save_page` raises
    ensures r.Raise? ==>
              && (r.error == OpenFailed <==> !web.opens(StemOf(web, url)))
              && (r.error == NotText <==> web.opens(StemOf(web, url)) && web.fetch(url).value.Bytes?)
              && (r.error == NotAscii <==> web.opens(StemOf(web, url)) && web.fetch(url).value.Text?)
    // no file is touched but the page's own, and that one only once it opened
    ensures forall k :: k in c.pages && k != StemOf(web, url) ==> k in r.next.pages && r.next.pages[k] == c.pages[k]
    ensures !(Truthy(web.fetch(url)) && web.opens(StemOf(web, url))) ==> r.next.pages == c.pages
    ensures !Truthy(web.fetch(url)) ==> r.next.queue == c.queue
    ensures Truthy(web.fetch(url)) && web.opens(StemOf(web, url)) ==>
              && r.next.pages.Keys == c.pages.Keys + {StemOf(web, url)}
              && r.next.pages[StemOf(web, url)] == (if r.Raise? then "" else web.fetch(url).value.text)
  {
    var content := web.fetch(url);
    var logged := c.(fetched := c.fetched + [url]);
    var name := StemOf(web, url);
    if !Truthy(content) then Continue(logged)
    else if !web.opens(name) then Raise(logged, OpenFailed)
    else
      match content.value
      case Bytes(_) => Raise(logged.(pages := logged.pages[name := ""]), NotText)
      case Text(s) =>
        if !IsAscii(s) then Raise(logged.(pages := logged.pages[name := ""]), NotAscii)
        else
          var found := Discovered(web, Origin(c, web), url);
          Continue(logged.(pages := logged.pages[name := s], queue := logged.queue + found))
  }

  /** One iteration of the `crawl_page` loop. */
  function Step(c: Crawler, web: Oracles): (r: StepResult)
    ensures r.Exit? <==> c.queue == []
    // skipped: the URL leaves the queue and nothing else changes
    ensures c.queue != [] && Admit(c, c.queue[0]).None? ==> r == Continue(c.(queue := c.queue[1..]))
    // admitted: visited gains the URL, the count grows by one, and the URL is fetched
    ensures c.queue != [] && Admit(c, c.queue[0]).Some? ==>
              && !r.Exit?
              && r.next.visited == c.visited + {c.queue[0]}
              && r.next.pageCount == c.pageCount + 1
              && r.next.fetched == c.fetched + [c.queue[0]]
              && r.next.queue == c.queue[1..] + Discovered(web, Origin(c, web), c.queue[0])
              && r.next.pages.Keys <= c.pages.Keys + {StemOf(web, c.queue[0])}
              && (forall k :: k in c.pages && k != StemOf(web, c.queue[0]) ==> k in r.next.pages && r.next.pages[k] == c.pages[k])
    ensures r.Raise? <==> c.queue != [] && Admit(c, c.queue[0]).Some? && Crashes(web, c.queue[0])
    ensures !r.Exit? ==> r.next.baseUrl == c.baseUrl && r.next.maxPages == c.maxPages
                         && r.next.maxThreads == c.maxThreads
    ensures !r.Exit? ==> c.visited <= r.next.visited && c.pageCount <= r.next.pageCount
    // the termination measure: budget, then queue length, decreases lexicographically
    ensures !r.Exit? ==> Budget(r.next) < Budget(c) || (Budget(r.next) == Budget(c) && |r.next.queue| < |c.queue|)
  {
    if c.queue == [] then Exit
    else
      var url := c.queue[0];
      var dequeued := c.(queue := c.queue[1..]);
      match Admit(dequeued, url)
      case None => Continue(dequeued)
      case Some(admitted) => Visit(admitted, web, url)
  }

  predicate Distinct(s: seq<Url>) {
    forall i, j :: 0 <= i < j < |s| ==> s[i] != s[j]
  }

  /** The invariant the crawl keeps from `__init__` on: the count is the number of
      visited URLs and never passes a non-negative `max_pages`; the fetch log holds
      each visited URL exactly once; queued and visited URLs share the seed's netloc. */
  ghost predicate Valid(c: Crawler, web: Oracles) {
    && c.pageCount == |c.visited| == |c.fetched|
    && (c.pageCount == 0 || c.pageCount <= c.maxPages)
    && (forall u :: u in c.fetched <==> u in c.visited)
    && Distinct(c.fetched)
    && (forall i :: 0 <= i < |c.queue| ==> web.netloc(c.queue[i]) == Origin(c, web))
    && (forall u :: u in c.visited ==> web.netloc(u) == Origin(c, web))
  }

  /** No lost work: unless the budget is spent, the seed and every link found so far
      are visited or still queued. */
  ghost predicate Closed(c: Crawler, web: Oracles) {
    c.pageCount >= c.maxPages ||
    (&& (c.baseUrl in c.visited || c.baseUrl in c.queue)
     && forall j, l :: 0 <= j < |c.fetched| && l in Discovered(web, Origin(c, web), c.fetched[j]) ==>
          l in c.visited || l in c.queue)
  }

  /** `u` is the seed or a link found on one of the first `k` fetched pages. */
  ghost predicate FoundBefore(web: Oracles, base: Url, log: seq<Url>, k: nat, u: Url) {
    u == base || exists j :: 0 <= j < k && j < |log| && u in Discovered(web, web.netloc(base), log[j])
  }

  /** Provenance: each fetched URL is the seed or was found on a page fetched before
      it, and each queued URL is the seed or was found on a fetched page. */
  ghost predicate Provenance(c: Crawler, web: Oracles) {
    && (forall k :: 0 <= k < |c.fetched| ==> FoundBefore(web, c.baseUrl, c.fetched, k, c.fetched[k]))
    && (forall i :: 0 <= i < |c.queue| ==> FoundBefore(web, c.baseUrl, c.fetched, |c.fetched|, c.queue[i]))
  }

  ghost predicate Inv(c: Crawler, web: Oracles) {
    Valid(c, web) && Closed(c, web) && Provenance(c, web)
  }

  /** A freshly seeded crawler satisfies the whole invariant. */
  lemma SeededInv(baseUrl: Url, maxThreads: int, maxPages: int, web: Oracles)
    ensures Inv(Seed(Init(baseUrl, maxThreads, maxPages)), web)
  {
    var c := Seed(Init(baseUrl, maxThreads, maxPages));
    assert c.queue == [baseUrl];
  }

  lemma StepValid(c: Crawler, web: Oracles)
    requires Valid(c, web)
    ensures !Step(c, web).Exit? ==> Valid(Step(c, web).next, web)
  {
  }

  lemma {:induction false} StepClosed(c: Crawler, web: Oracles)
    requires Valid(c, web) && Closed(c, web)
    ensures !Step(c, web).Exit? ==> Closed(Step(c, web).next, web)
  {
    if c.queue != [] && c.pageCount < c.maxPages {
      var url := c.queue[0];
      var n := Step(c, web).next;
      var o := Origin(c, web);
      assert c.queue == [url] + c.queue[1..];
      assert forall l :: l in c.queue ==> l == url || l in c.queue[1..];
      if Admit(c, url).Some? {
        if n.pageCount < n.maxPages {
          forall j, l | 0 <= j < |n.fetched| && l in Discovered(web, Origin(n, web), n.fetched[j])
            ensures l in n.visited || l in n.queue
          {
            if j == |c.fetched| {
              assert n.fetched[j] == url;
            } else {
              assert n.fetched[j] == c.fetched[j];
            }
          }
        }
      } else {
        assert url in c.visited;
      }
    }
  }

  /** Found among the first `k` entries of a log stays found as the log grows. */
  lemma FoundBeforeGrows(web: Oracles, base: Url, log: seq<Url>, log': seq<Url>, k: nat, u: Url)
    requires log <= log' && k <= |log|
    requires FoundBefore(web, base, log, k, u)
    ensures FoundBefore(web, base, log', k, u)
  {
    if u != base {
      var j :| 0 <= j < k && j < |log| && u in Discovered(web, web.netloc(base), log[j]);
      assert log'[j] == log[j];
    }
  }

  lemma {:induction false} StepProvenance(c: Crawler, web: Oracles)
    requires Provenance(c, web)
    ensures !Step(c, web).Exit? ==> Provenance(Step(c, web).next, web)
  {
    if c.queue != [] {
      var url := c.queue[0];
      var n := Step(c, web).next;
      var b := c.baseUrl;
      if Admit(c, url).Some? {
        var found := Discovered(web, Origin(c, web), url);
        assert n.fetched == c.fetched + [url];
        forall k | 0 <= k < |n.fetched|
          ensures FoundBefore(web, b, n.fetched, k, n.fetched[k])
        {
          if k < |c.fetched| {
            FoundBeforeGrows(web, b, c.fetched, n.fetched, k, c.fetched[k]);
          } else {
            FoundBeforeGrows(web, b, c.fetched, n.fetched, |c.fetched|, url);
          }
        }
        forall i | 0 <= i < |n.queue|
          ensures FoundBefore(web, b, n.fetched, |n.fetched|, n.queue[i])
        {
          if i < |c.queue| - 1 {
            assert n.queue[i] == c.queue[i + 1];
            FoundBeforeGrows(web, b, c.fetched, n.fetched, |c.fetched|, c.queue[i + 1]);
          } else {
            assert n.queue[i] in found;
            assert n.fetched[|c.fetched|] == url;
          }
        }
      } else {
        forall i | 0 <= i < |n.queue|
          ensures FoundBefore(web, b, n.fetched, |n.fetched|, n.queue[i])
        {
          assert n.queue[i] == c.queue[i + 1];
        }
      }
    }
  }

  /** Every step keeps the whole invariant. */
  lemma StepInv(c: Crawler, web: Oracles)
    requires Inv(c, web)
    ensures !Step(c, web).Exit? ==> Inv(Step(c, web).next, web)
  {
    StepValid(c, web);
    StepClosed(c, web);
    StepProvenance(c, web);
  }
}
