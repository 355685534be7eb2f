/** The world outside the crawler, as the crawler sees it.

    `fetch_page`, BeautifulSoup's link extraction followed by `urljoin`, and
    `urlparse(...).netloc` / `urlparse(...).path` are not modelled: they are
    bundled into `Oracles`, a record of total functions the crawl is run against.
 */
module Web {

  type Url = string

  newtype byte = x: int | 0 <= x < 256

  datatype Option<+T> = None | Some(value: T)

  /** What `fetch_page` hands back on success: `response.text` for a 200 answer,
      the raw `response.content` bytes for any other status. */
  datatype Content = Text(text: string) | Bytes(bytes: seq<byte>)

  /** The uninterpreted collaborators of the crawl.
      - `fetch(url)`: `None` when the request raised, the body otherwise;
      - `links(url, body)`: the `href`s of the page's anchors, already resolved against `url`;
      - `netloc(url)`, `path(url)`: the two components of `urlparse(url)` the crawler reads;
      - `opens(stem)`: whether `open('pages/' + stem + '.html', 'w')` succeeds rather than
        raising an OSError (a name too long for the file system, a missing directory, ...). */
  datatype Oracles = Oracles(
    fetch: Url -> Option<Content>,
    links: (Url, Content) -> seq<Url>,
    netloc: Url -> string,
    path: Url -> string,
    opens: string -> bool)

  /** Python truthiness of `fetch_page`'s result: `None`, `''` and `b''` are false. */
  predicate Truthy(content: Option<Content>)
    ensures Truthy(content) <==> content.Some? && Size(content.value) > 0
  {
    match content
    case None => false
    case Some(Text(s)) => |s| > 0
    case Some(Bytes(b)) => |b| > 0
  }

  /** The length Python's `len` gives a body: characters of text, bytes of raw content. */
  function Size(content: Content): nat {
    match content
    case Text(s) => |s|
    case Bytes(b) => |b|
  }

  predicate IsAscii(s: string) {
    forall i :: 0 <= i < |s| ==> (s[i] as int) < 128
  }

  /** Whether a text file opened with `encoding='ascii'` accepts `f.write(content)`:
      bytes raise a TypeError, non-ASCII text a UnicodeEncodeError. */
  predicate Writable(content: Content)
    ensures !Writable(content) <==> content.Bytes? || exists i :: 0 <= i < |content.text| && (content.text[i] as int) >= 128
  {
    content.Text? && IsAscii(content.text)
  }

  /** The links of a page that pass the origin test of `crawl_page`, in page order,
      duplicates included. */
  function SameOrigin(links: seq<Url>, origin: string, netloc: Url -> string): (r: seq<Url>)
    ensures |r| <= |links|
    ensures forall u :: u in r <==> u in links && netloc(u) == origin
    ensures forall u :: multiset(r)[u] == if netloc(u) == origin then multiset(links)[u] else 0
  {
    if links == [] then []
    else
      var rest := SameOrigin(links[1..], origin, netloc);
      assert links == [links[0]] + links[1..];
      if netloc(links[0]) == origin then [links[0]] + rest else rest
  }

  /** The filter keeps page order: filtering a concatenation concatenates the filtered parts. */
  lemma {:induction false} SameOriginAppend(a: seq<Url>, b: seq<Url>, origin: string, netloc: Url -> string)
    ensures SameOrigin(a + b, origin, netloc) == SameOrigin(a, origin, netloc) + SameOrigin(b, origin, netloc)
  {
    if a == [] {
      assert a + b == b;
    } else {
      assert (a + b)[0] == a[0] && (a + b)[1..] == a[1..] + b;
      SameOriginAppend(a[1..], b, origin, netloc);
      if netloc(a[0]) == origin {
        calc {
          SameOrigin(a + b, origin, netloc);
          [a[0]] + SameOrigin(a[1..] + b, origin, netloc);
          [a[0]] + (SameOrigin(a[1..], origin, netloc) + SameOrigin(b, origin, netloc));
          ([a[0]] + SameOrigin(a[1..], origin, netloc)) + SameOrigin(b, origin, netloc);
        }
      } else {
        calc {
          SameOrigin(a + b, origin, netloc);
          SameOrigin(a[1..] + b, origin, netloc);
        }
      }
    }
  }
}
