/**
 * The scrape loop: fetch the start page, keep its results table, follow
 * the next-page link, and stop when there is no link or the link leads to a
 * page already visited. A failed fetch aborts the whole run.
 *
 * The network is a finite map from URL to the server's response; the HTML
 * parsers and URL resolution are parameters, since they are library code.
 */
module Scrape {
  import opened Wrappers
  import opened Tables
  import Selection
  import Pagination
  import Merge

  /** What the server answers for one URL. */
  datatype Response = Response(status: int, body: string)

  /** Why `fetch_html` raised. */
  datatype FetchError =
    | HttpError(status: int, url: string)  // `raise_for_status` on a 4xx or 5xx answer
    | Unreachable(url: string)             // no server answers for the URL

  /** The pages a server can deliver, by URL. */
  type Web = map<string, Response>

  /** The library code the loop relies on: `pd.read_html` (an empty list
      when it finds no table), the anchors BeautifulSoup finds, and `urljoin`. */
  datatype Parsers = Parsers(
    tables: string -> seq<Frame>,
    anchors: string -> seq<Pagination.Anchor>,
    resolve: (string, string) -> string)

  /** `fetch_html`: the body of a successful answer; failure on a 4xx or 5xx
      status or when no server answers. */
  function Fetch(web: Web, url: string): (r: Result<string, FetchError>)
    ensures r.Success? <==> url in web && !(400 <= web[url].status < 600)
    ensures r.Success? ==> r.value == web[url].body
  {
    if url !in web then Failure(Unreachable(url))
    else if 400 <= web[url].status < 600 then Failure(HttpError(web[url].status, url))
    else Success(web[url].body)
  }

  /** The frames one page contributes: its selected table, if it is not empty. */
  function Contribution(p: Parsers, html: string): (fs: seq<Frame>)
    ensures |fs| <= 1
    ensures forall f :: f in fs ==> !IsEmpty(f)
  {
    var t := Selection.SelectTable(p.tables(html));
    if t.Some? && !IsEmpty(t.value) then [t.value] else []
  }

  /** The next URL that page `url` (whose markup is `html`) links to. */
  function NextOf(p: Parsers, html: string, url: string): Option<string> {
    Pagination.NextPageUrl(p.anchors(html), url, p.resolve)
  }

  /** The loop condition `url and url not in visited`. */
  predicate Continues(url: Option<string>, visited: set<string>) {
    url.Some? && url.value != "" && url.value !in visited
  }

  /** The loop ends after the pages of `trail` when the last one links to
      nothing, to the empty string, or to a page of `trail`. */
  predicate StopsAt(next: Option<string>, trail: seq<string>) {
    next.None? || next.value == "" || next.value in trail
  }

  /** Every URL of `trail` was fetched successfully. */
  predicate AllFetched(web: Web, trail: seq<string>) {
    forall u :: u in trail ==> Fetch(web, u).Success?
  }

  /** The frames collected from the pages of `trail`, in visit order. */
  function Collected(web: Web, p: Parsers, trail: seq<string>): (fs: seq<Frame>)
    requires AllFetched(web, trail)
    ensures |fs| <= |trail|
    ensures forall f :: f in fs ==> !IsEmpty(f)
  {
    if trail == [] then []
    else
      var init := trail[..|trail| - 1];
      var u := trail[|trail| - 1];
      assert forall v :: v in init ==> v in trail;
      Collected(web, p, init) + Contribution(p, Fetch(web, u).value)
  }

  /** Each URL of `trail` after the first is the next link of the page
      before it. */
  predicate FollowsLinks(web: Web, p: Parsers, trail: seq<string>) {
    forall i :: 0 <= i < |trail| - 1 ==>
      Fetch(web, trail[i]).Success?
      && NextOf(p, Fetch(web, trail[i]).value, trail[i]) == Some(trail[i + 1])
  }

  /** Appending the next link of the last page keeps the trail a chain of
      links. */
  lemma FollowsLinksExtend(web: Web, p: Parsers, trail: seq<string>, u: string)
    requires FollowsLinks(web, p, trail)
    requires trail != [] ==>
      var last := trail[|trail| - 1];
      Fetch(web, last).Success? && NextOf(p, Fetch(web, last).value, last) == Some(u)
    ensures FollowsLinks(web, p, trail + [u])
  {
    var t := trail + [u];
    forall i | 0 <= i < |t| - 1
      ensures Fetch(web, t[i]).Success? && NextOf(p, Fetch(web, t[i]).value, t[i]) == Some(t[i + 1])
    {
      assert t[i] == trail[i];
      if i + 1 < |trail| {
        assert t[i + 1] == trail[i + 1];
      }
    }
  }

  /** A page appended to the trail contributes after all earlier pages. */
  lemma CollectedExtend(web: Web, p: Parsers, trail: seq<string>, u: string)
    requires AllFetched(web, trail + [u])
    ensures AllFetched(web, trail)
    ensures Collected(web, p, trail + [u])
         == Collected(web, p, trail) + Contribution(p, Fetch(web, u).value)
  {
    assert forall v :: v in trail ==> v in trail + [u];
    assert (trail + [u])[..|trail|] == trail;
  }

  /** Appending a URL not yet in the trail keeps it free of duplicates. */
  lemma NoDupExtend(trail: seq<string>, u: string)
    requires NoDup(trail) && u !in trail
    ensures NoDup(trail + [u])
  {
    var t := trail + [u];
    forall i, j | 0 <= i < j < |t|
      ensures t[i] != t[j]
    {
      assert t[i] == trail[i];
      if j < |trail| {
        assert t[j] == trail[j];
      }
    }
  }

  /** The outcome of the scrape loop entered with `url` as the next link,
      `visited` as the URLs fetched so far and `frames` as the tables kept so
      far: a failed fetch ends the run with its error; otherwise the loop
      goes on until the next link is missing, empty or visited, and then the
      kept tables are merged. */
  function Crawl(web: Web, p: Parsers, url: Option<string>, visited: set<string>, frames: seq<Frame>)
    : (r: Result<Table, FetchError>)
    requires visited <= web.Keys
    ensures r.Failure? ==> r.error.url != "" && r.error.url !in visited
    decreases web.Keys - visited
  {
    if !Continues(url, visited) then Success(Merge.MergeFrames(frames))
    else
      var u := url.value;
      var page := Fetch(web, u);
      if page.Failure? then Failure(page.error)
      else
        Crawl(web, p, NextOf(p, page.value, u), visited + {u}, frames + Contribution(p, page.value))
  }

  /** One turn of the loop: a failed fetch ends the crawl with its error;
      otherwise the crawl goes on from the page's next link with the page
      visited and its table kept. */
  lemma CrawlStep(web: Web, p: Parsers, url: Option<string>, visited: set<string>, frames: seq<Frame>)
    requires visited <= web.Keys && Continues(url, visited)
    ensures Fetch(web, url.value).Failure? ==>
      Crawl(web, p, url, visited, frames) == Failure(Fetch(web, url.value).error)
    ensures Fetch(web, url.value).Success? ==>
      var html := Fetch(web, url.value).value;
      && visited + {url.value} <= web.Keys
      && Crawl(web, p, url, visited, frames)
         == Crawl(web, p, NextOf(p, html, url.value), visited + {url.value}, frames + Contribution(p, html))
  {
  }

  /** The table the loop keeps for a page is its contribution: the selected
      table, labels stripped once more, when it is not empty. */
  lemma KeptTable(p: Parsers, html: string)
    ensures var df := Selection.SelectTable(p.tables(html));
      Contribution(p, html) == (if df.Some? && !IsEmpty(df.value) then [StripColumns(df.value)] else [])
  {
    var tables := p.tables(html);
    if tables != [] {
      StripColumnsIdempotent(tables[Selection.BestIndex(tables)]);
    }
  }

  /** What holds before each turn of the loop: `trail` lists the fetched
      URLs in order, `visited` holds exactly them, the trail is a chain of
      links from `start`, `url` is the last page's next link, `frames` are
      the tables collected so far, and the rest of the crawl gives the
      outcome of the whole crawl. */
  ghost predicate LoopInv(web: Web, p: Parsers, start: string, url: Option<string>,
                          visited: set<string>, trail: seq<string>, frames: seq<Frame>) {
    && (forall u :: u in visited <==> u in trail)
    && NoDup(trail)
    && "" !in trail
    && AllFetched(web, trail)
    && visited <= web.Keys
    && FollowsLinks(web, p, trail)
    && (trail == [] ==> url == Some(start))
    && (trail != [] ==> trail[0] == start && start != "")
    && (trail != [] ==> url == NextOf(p, Fetch(web, trail[|trail| - 1]).value, trail[|trail| - 1]))
    && frames == Collected(web, p, trail)
    && Crawl(web, p, url, visited, frames) == Crawl(web, p, Some(start), {}, [])
  }

  /** A turn whose fetch succeeds keeps the loop invariant. */
  lemma LoopStep(web: Web, p: Parsers, start: string, url: Option<string>,
                 visited: set<string>, trail: seq<string>, frames: seq<Frame>)
    requires LoopInv(web, p, start, url, visited, trail, frames) && Continues(url, visited)
    requires Fetch(web, url.value).Success?
    ensures var u := url.value;
      var html := Fetch(web, u).value;
      LoopInv(web, p, start, NextOf(p, html, u), visited + {u}, trail + [u], frames + Contribution(p, html))
  {
    var u := url.value;
    CrawlStep(web, p, url, visited, frames);
    NoDupExtend(trail, u);
    FollowsLinksExtend(web, p, trail, u);
    CollectedExtend(web, p, trail, u);
    assert (trail + [u])[|trail + [u]| - 1] == u;
  }

  /** A turn whose fetch fails ends the crawl with that error. */
  lemma LoopFail(web: Web, p: Parsers, start: string, url: Option<string>,
                 visited: set<string>, trail: seq<string>, frames: seq<Frame>)
    requires LoopInv(web, p, start, url, visited, trail, frames) && Continues(url, visited)
    requires Fetch(web, url.value).Failure?
    ensures var t := trail + [url.value];
      && NoDup(t) && "" !in t && t[0] == start && start != ""
      && FollowsLinks(web, p, t)
      && Crawl(web, p, Some(start), {}, []) == Failure(Fetch(web, url.value).error)
  {
    CrawlStep(web, p, url, visited, frames);
    NoDupExtend(trail, url.value);
    FollowsLinksExtend(web, p, trail, url.value);
  }

  /** When the loop condition fails, the crawl has merged what it collected,
      and the last page's link is missing, empty or visited. */
  lemma LoopExit(web: Web, p: Parsers, start: string, url: Option<string>,
                 visited: set<string>, trail: seq<string>, frames: seq<Frame>)
    requires LoopInv(web, p, start, url, visited, trail, frames) && !Continues(url, visited)
    ensures trail == [] <==> start == ""
    ensures trail != [] ==>
      var last := trail[|trail| - 1];
      StopsAt(NextOf(p, Fetch(web, last).value, last), trail)
    ensures Crawl(web, p, Some(start), {}, []) == Success(Merge.MergeFrames(Collected(web, p, trail)))
  {
  }

  /** `scrape_all_pages`. The ghost `trail` lists the fetched URLs in order.
      No URL is fetched twice; each one after the start is the next link of
      the page before; the run stops at the first page whose next link is
      missing, empty or already visited, or with the first fetch error; and
      the result merges the non-empty tables of the visited pages in visit
      order. */
  method ScrapeAllPages(start: string, web: Web, p: Parsers)
    returns (result: Result<Table, FetchError>, ghost trail: seq<string>)
    ensures NoDup(trail)
    ensures "" !in trail
    ensures trail == [] <==> start == ""
    ensures trail != [] ==> trail[0] == start
    ensures FollowsLinks(web, p, trail)
    ensures result.Failure? ==> trail != [] && Fetch(web, trail[|trail| - 1]) == Failure(result.error)
    ensures result.Success? ==> AllFetched(web, trail)
    ensures result.Success? && trail != [] ==>
      var last := trail[|trail| - 1];
      StopsAt(NextOf(p, Fetch(web, last).value, last), trail)
    ensures result.Success? ==> result == Success(Merge.MergeFrames(Collected(web, p, trail)))
    ensures result == Crawl(web, p, Some(start), {}, [])
  {
    var allFrames: seq<Frame> := [];
    var visited: set<string> := {};
    var url: Option<string> := Some(start);
    trail := [];
    while Continues(url, visited)
      invariant LoopInv(web, p, start, url, visited, trail, allFrames)
      decreases web.Keys - visited
    {
      var u := url.value;
      var page := Fetch(web, u);
      if page.Failure? {
        LoopFail(web, p, start, url, visited, trail, allFrames);
        trail := trail + [u];
        result := Failure(page.error);
        return;
      }
      var html := page.value;
      LoopStep(web, p, start, url, visited, trail, allFrames);
      var df := Selection.ExtractResultsTable(p.tables(html));
      KeptTable(p, html);
      if df.Some? && !IsEmpty(df.value) {
        // the labels are stripped once more before the table is kept
        allFrames := allFrames + [StripColumns(df.value)];
      }
      url := Pagination.FindNextPageUrl(p.anchors(html), u, p.resolve);
      visited := visited + {u};
      trail := trail + [u];
    }
    LoopExit(web, p, start, url, visited, trail, allFrames);
    result := Success(Merge.MergeFrames(allFrames));
  }
}
