# WebCrawler, sequential core

A Dafny model of `WebCrawler` in `main.py`: a crawler that starts from `base_url`,
fetches pages and stops admitting them once `max_pages` have been counted. A page whose
body is truthy is saved under `pages/`, and then those of its links whose netloc
matches the seed's are queued.

The model keeps the crawler's state as an immutable record (`CrawlState.Crawler`):
the FIFO queue, the `visited` set, `page_count`, `max_pages`, `max_threads`, plus the
log of URLs handed to `fetch_page` and the contents of the saved files. One iteration
of the `crawl_page` loop is the pure function `CrawlState.Step`; the worker pool is
`Crawl.Drain`, and `start` is `Crawl.Start`. Every iteration runs atomically, so the
check-then-add of lines 48-52 is one indivisible step. The outside world enters only
through `Web.Oracles`:

- `fetch(url)`, for `fetch_page`: `None` when `requests.get` raised a
  `RequestException`, otherwise the text of a 200 answer or the raw bytes of any
  other status;
- `links(url, body)`, for BeautifulSoup's anchors resolved with `urljoin` against `url`;
- `netloc(url)` and `path(url)`, for `urlparse`;
- `opens(stem)`, for whether `open('pages/<stem>.html', 'w')` succeeds.

`Filename.FileStem` is the file name `save_page` derives from a URL's netloc and path.

URLs are admitted when they are dequeued, not before they are enqueued. The queue may
therefore hold duplicates, and the gate discards them. A worker also leaves the loop
as soon as the queue is empty.

The model also keeps the three error paths of `save_page`. `open` can raise an OSError,
for instance when the name is too long for the file system; then no file is created.
Bytes content, which `fetch_page` returns for any non-200 status, makes `f.write` raise
a TypeError. Text with a non-ASCII character raises a UnicodeEncodeError, because the
file is opened with `encoding='ascii'`. In these last two cases the file has already
been opened with mode `'w'`, so it is left empty. Each exception escapes `crawl_page`,
so that worker ends without calling `task_done`, and `q.join()` in `start` then never
returns. `Crawl.Start` reports this as `Hung`.

## Model

| member | source | states |
|---|---|---|
| Web.Truthy | main.py:56 | `if content:` holds iff the fetch returned a body of non-zero length |
| Web.Writable | main.py:37-38 | writing to the ascii text file fails iff the body is bytes or contains a character of code 128 or more |
| Web.SameOrigin | main.py:59-62 | a link is kept iff it is among the page's links and its netloc equals the seed's; each kept link occurs as often as on the page, and nothing is added |
| Web.SameOriginAppend | main.py:59-62 | the filter keeps page order: filtering a concatenation is the concatenation of the filtered parts |
| Filename.Replace | main.py:33 | `str.replace` with one-character arguments: same length, each occurrence of the character swapped and every other character kept |
| Filename.FileStem | main.py:32-36 | the name is never empty and at most 100 characters; empty netloc and path give "index"; otherwise its length is min(100, the inputs' combined length); the netloc part has no `.`, the path part has no `/`, and every other character is kept in place |
| Filename.SlashUnderscoreCollide | main.py:33 | two paths that differ only by `/` against `_` are saved to the same file |
| Filename.LongPathsCollide | main.py:36 | once netloc and path fill 100 characters, anything appended to the path is cut off, so such URLs share one file |
| CrawlState.Init | main.py:9-16 | a new crawler keeps its three arguments and has an empty queue, visited set, fetch log and file store, with a count of 0; its budget is `max_pages`, or 0 if that is not positive |
| CrawlState.Seed | main.py:67 | the seed goes to the back of the queue; the queue is otherwise unchanged, and so is everything else |
| CrawlState.Admit | main.py:48-52 | a URL is admitted iff it is unvisited and `page_count < max_pages`; admission adds exactly that URL to `visited` and adds one to the count, and changes nothing else |
| CrawlState.Crashes | main.py:31-38 | `save_page` raises on a truthy body iff its file does not open, the body is bytes, or the text is not ASCII |
| CrawlState.Discovered | main.py:56-62 | only a page that was saved contributes links. Each of them has the seed's netloc, every link of that page with the seed's netloc is among them, and each occurs as often as on the page |
| CrawlState.Visit | main.py:55-62 | the admitted URL is fetched once. A None or empty body saves nothing and enqueues nothing. A saved page gets its file, and its same-origin links go to the back of the queue. A file that does not open raises OSError and nothing is written. Bytes raise TypeError and non-ASCII text raises UnicodeEncodeError; both leave an empty file. No raise enqueues anything, and no other file changes |
| CrawlState.Step | main.py:41-64 | an empty queue exits. A skipped URL only leaves the queue. An admitted URL enters `visited`, the count rises by 1, the URL is fetched, and only its own file may change. The step raises iff the admitted page cannot be written. `visited` and the count never shrink. The pair (budget left, queue length) decreases lexicographically |
| CrawlState.SeededInv | main.py:11-16 | the crawler built by `__init__` and seeded as in line 67 satisfies the validity, no-lost-work and provenance invariants |
| CrawlState.StepValid | main.py:48-52 | one iteration keeps `page_count == \|visited\| == \|fetched\|` and the count within `max_pages`. It keeps the fetch log free of duplicates and equal to `visited` as a set. It keeps every queued and visited URL on the seed's netloc |
| CrawlState.StepClosed | main.py:48-62 | unless the budget is spent, one iteration keeps the seed and every link found so far in `visited` or the queue |
| CrawlState.StepProvenance | main.py:59-62 | one iteration keeps every fetched URL the seed or a link found on an earlier fetched page, and every queued URL the seed or a link found on a fetched page |
| CrawlState.StepInv | main.py:41-64 | one iteration keeps the whole invariant |
| Crawl.Workers | main.py:70-73 | `range(max_threads)` starts `max_threads` workers, or none if it is not positive |
| Crawl.Drain | main.py:40-45 | the workers stop with an empty queue whenever one of them is still alive; `visited` and the count only grow |
| Crawl.Start | main.py:66-78 | `start` completes only with an empty queue and at least one worker |
| Crawl.DrainInv | main.py:41-64 | the loop over all workers keeps the whole invariant |
| Crawl.StepCrashes | main.py:55-64 | one iteration only appends to the fetch log, and the number of pages whose save raised grows by one exactly when the iteration raises |
| Crawl.DrainCrashes | main.py:56-64 | the loop only appends to the fetch log; live workers plus pages whose save raised is constant |
| Crawl.FetchedWithin | main.py:59-62 | every fetched URL lies in every link-closed set that holds the seed |
| Crawl.StartSafe | main.py:48-52 | over a whole crawl: at most `max_pages` pages fetched, none if it is not positive; no URL fetched twice; the count equals the number of visited and fetched URLs; every visited URL has the seed's netloc |
| Crawl.StartCompletes | main.py:66-78 | `start` returns iff `max_threads > 0` and no fetched page made `save_page` raise |
| Crawl.StartExhaustive | main.py:41-67 | a crawl that returns with budget left has visited the seed and every same-origin link of every page it visited |
| Crawl.StartReachable | main.py:59-67 | every visited page lies in every link-closed set holding the seed; with `StartExhaustive`, a crawl that returns `Completed` with `page_count < max_pages` has visited exactly what is reachable from the seed |
| Crawl.StartFetchesSeed | main.py:67 | with a worker and a positive budget the seed is fetched first; with `max_pages == 1` it is the only page fetched |
| Crawl.StartDefaults | main.py:9 | with the default arguments there are 5 workers and at most 20 pages are fetched, none twice; `start` returns iff no save raised |

## Left out

- Threads, `threading.Lock`, and the blocking `q.get(timeout=10)`: iterations are atomic and a worker leaves the loop exactly when the queue is empty. Interleavings, and a worker timing out while another is still fetching, are not modelled.
- The lock that line 47 lacks: a sequential model cannot race, so admission is atomic here.
- `requests.get` and the status check in `fetch_page`: these are the `fetch` oracle, which returns text for a 200 answer and bytes otherwise. It returns `None` where `requests.get` raised a `RequestException`. Any other exception from `requests.get` would escape `crawl_page`; that is not modelled.
- BeautifulSoup, `urljoin` and `urlparse`: these are the `links`, `netloc` and `path` oracles. They are total, so a `ValueError` from `urlparse` on a malformed URL is not modelled.
- File I/O: `os.makedirs('pages')` and the `.html` suffix are not modelled. Whether `open` succeeds is the `opens` oracle, which decides it from the stem alone. A saved page is an entry of the `pages` map, keyed by file stem, holding the text written to the file.
- `print` logging and the `__main__` block.
