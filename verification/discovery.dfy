/** Finding the posting URLs on the paginated search results and fetching one
    posting. The network is a parameter: a fetch function from URL to what the
    server answered, with every failure (a non-200 status, a timeout, a
    connection error) folded into one `FetchFailed` answer for listing pages. */
module Discovery {
  import opened Wrappers
  import opened Text
  import opened Listing
  import opened PageParser

  /** What a search results page yields: nothing usable, or the `href` values
      of its anchors whose `href` mentions "/job/" (a missing `href` is ""). */
  datatype ListingPage = FetchFailed | Links(hrefs: seq<string>)

  /** The site every relative posting link is resolved against. */
  const Origin: string := "https://www.schwabjobs.com"

  /** The URL of results page `page`: the base itself for the first page, the
      base followed by "/" and the page number for the others. */
  function PageUrl(base: string, page: nat): string {
    if page > 1 then base + "/" + NatToString(page) else base
  }

  /** Different page numbers from 1 up give different URLs, so the crawl
      never requests the same results page twice. */
  lemma PageUrlsDistinct(base: string, p: nat, q: nat)
    requires 1 <= p < q
    ensures PageUrl(base, p) != PageUrl(base, q)
  {
    var prefix := base + "/";
    if p > 1 && PageUrl(base, p) == PageUrl(base, q) {
      assert (prefix + NatToString(p))[|prefix|..] == NatToString(p);
      assert (prefix + NatToString(q))[|prefix|..] == NatToString(q);
      DecimalInjective(p, q);
    }
  }

  /** An `href` the crawler keeps: non-empty and mentioning "/job/". */
  predicate IsJobHref(href: string) {
    |href| > 0 && Contains(href, "/job/")
  }

  /** Resolves a kept `href`: absolute links (starting with "http") stay as
      they are, anything else gets the origin put in front. */
  function Absolute(href: string): string {
    if StartsAt(href, 0, "http") then href else Origin + href
  }

  /** What a posting URL looks like: an absolute link that mentions "/job/". */
  predicate IsPostingUrl(u: string) {
    Contains(u, "/job/") && StartsAt(u, 0, "http")
  }

  /** The resolved URLs of the kept links of one page, in page order. */
  function JobUrls(hrefs: seq<string>): seq<string> {
    if |hrefs| == 0 then []
    else
      var h := hrefs[|hrefs| - 1];
      JobUrls(hrefs[..|hrefs| - 1]) + if IsJobHref(h) then [Absolute(h)] else []
  }

  /** A kept link resolves to a posting URL. */
  lemma AbsoluteIsPosting(h: string)
    requires IsJobHref(h)
    ensures IsPostingUrl(Absolute(h))
  {
    if !StartsAt(h, 0, "http") {
      ContainsAfterPrefix(Origin, h, "/job/");
      assert (Origin + h)[..4] == "http";
    }
  }

  /** The URLs of a page are exactly the resolved kept links, all of them
      posting URLs. */
  lemma {:induction false} JobUrlsExact(hrefs: seq<string>)
    ensures forall u :: u in JobUrls(hrefs) ==> IsPostingUrl(u)
    ensures forall h :: h in hrefs && IsJobHref(h) ==> Absolute(h) in JobUrls(hrefs)
    ensures forall u :: u in JobUrls(hrefs) ==> exists h :: h in hrefs && IsJobHref(h) && u == Absolute(h)
    decreases |hrefs|
  {
    if |hrefs| > 0 {
      var h := hrefs[|hrefs| - 1];
      var init := hrefs[..|hrefs| - 1];
      assert hrefs == init + [h];
      JobUrlsExact(init);
      if IsJobHref(h) {
        AbsoluteIsPosting(h);
      }
    }
  }

  /** What a page contributes to the crawl: its kept links, or none. */
  function PageUrls(answer: ListingPage): seq<string> {
    match answer
    case FetchFailed => []
    case Links(hrefs) => JobUrls(hrefs)
  }

  // ---------------------------------------------------------------------
  // Keeping each URL once, at its first sighting.

  predicate NoDup(xs: seq<string>) {
    forall i, j :: 0 <= i < j < |xs| ==> xs[i] != xs[j]
  }

  /** The position of the first occurrence of `x` in `xs`. */
  function IndexOf(xs: seq<string>, x: string): (i: nat)
    requires x in xs
    ensures i < |xs| && xs[i] == x
    ensures forall j :: 0 <= j < i ==> xs[j] != x
  {
    if xs[0] == x then 0 else 1 + IndexOf(xs[1..], x)
  }

  /** Appending the URLs of `xs` one by one, skipping those already kept. */
  function Dedup(xs: seq<string>): (r: seq<string>)
    ensures NoDup(r)
    ensures forall x :: x in r <==> x in xs
  {
    if |xs| == 0 then []
    else
      var d := Dedup(xs[..|xs| - 1]);
      var x := xs[|xs| - 1];
      assert xs == xs[..|xs| - 1] + [x];
      if x in d then d else d + [x]
  }

  /** Dedup takes one more URL exactly when it is new. */
  lemma DedupSnoc(xs: seq<string>, x: string)
    ensures Dedup(xs + [x]) == if x in Dedup(xs) then Dedup(xs) else Dedup(xs) + [x]
  {
    assert (xs + [x])[..|xs|] == xs;
  }

  /** A first occurrence in a prefix is a first occurrence in the whole. */
  lemma IndexOfPrefix(xs: seq<string>, n: nat, x: string)
    requires n <= |xs| && x in xs[..n]
    ensures IndexOf(xs, x) == IndexOf(xs[..n], x)
  {
    var i := IndexOf(xs[..n], x);
    assert xs[i] == x;
    forall j | 0 <= j < i
      ensures xs[j] != x
    {
      assert xs[..n][j] == xs[j];
    }
  }

  /** The kept URLs appear in the order in which each was first seen. */
  lemma {:induction false} DedupFirstSeen(xs: seq<string>)
    ensures forall i, j :: 0 <= i < j < |Dedup(xs)| ==>
      IndexOf(xs, Dedup(xs)[i]) < IndexOf(xs, Dedup(xs)[j])
    decreases |xs|
  {
    if |xs| > 0 {
      var n := |xs| - 1;
      var p := xs[..n];
      var x := xs[n];
      var d := Dedup(p);
      var r := Dedup(xs);
      DedupFirstSeen(p);
      assert r == if x in d then d else d + [x];
      forall i, j | 0 <= i < j < |r|
        ensures IndexOf(xs, r[i]) < IndexOf(xs, r[j])
      {
        assert r[i] == d[i] && r[i] in p;
        IndexOfPrefix(xs, n, r[i]);
        if j < |d| {
          assert r[j] == d[j] && r[j] in p;
          IndexOfPrefix(xs, n, r[j]);
        } else {
          assert r[j] == x && x !in p;
          assert IndexOf(xs, x) == n;
        }
      }
    }
  }

  // ---------------------------------------------------------------------
  // The crawl.

  /** The highest page number the crawl may request. */
  function LastAllowed(maxPages: int): nat {
    if maxPages < 1 then 0 else maxPages
  }

  /** Page `page` could not be read. */
  predicate Fails(base: string, fetch: string -> ListingPage, page: nat) {
    fetch(PageUrl(base, page)).FetchFailed?
  }

  /** The first page that could not be read, if any page up to the limit failed. */
  function FirstFailure(base: string, maxPages: int, fetch: string -> ListingPage): (r: Option<nat>)
    ensures r.Some? ==> 1 <= r.value <= LastAllowed(maxPages) && Fails(base, fetch, r.value)
    ensures r.Some? ==> forall q :: 1 <= q < r.value ==> !Fails(base, fetch, q)
    ensures r.None? ==> forall q :: 1 <= q <= LastAllowed(maxPages) ==> !Fails(base, fetch, q)
  {
    var P := (q: nat) => Fails(base, fetch, q);
    assert forall q: nat :: P(q) == Fails(base, fetch, q);
    FirstFrom(1, LastAllowed(maxPages), P)
  }

  /** How many pages the crawl reads successfully. */
  function PagesRead(base: string, maxPages: int, fetch: string -> ListingPage): nat {
    match FirstFailure(base, maxPages, fetch)
    case Some(p) => p - 1
    case None => LastAllowed(maxPages)
  }

  /** The URLs of result pages 1 to `n`. */
  function PageList(base: string, n: nat): (r: seq<string>)
    ensures |r| == n
    ensures forall k :: 0 <= k < n ==> r[k] == PageUrl(base, k + 1)
  {
    if n == 0 then [] else PageList(base, n - 1) + [PageUrl(base, n)]
  }

  /** The result page URLs the crawl requests, in order. */
  function Requested(base: string, maxPages: int, fetch: string -> ListingPage): (r: seq<string>)
    ensures |r| <= LastAllowed(maxPages)
    ensures |r| == 0 <==> maxPages < 1
    ensures forall k :: 0 <= k < |r| ==> r[k] == PageUrl(base, k + 1)
    ensures forall k :: 1 <= k < |r| ==> !Fails(base, fetch, k)
    ensures |r| < LastAllowed(maxPages) ==> Fails(base, fetch, |r|)
  {
    var n := match FirstFailure(base, maxPages, fetch)
      case Some(p) => p
      case None => LastAllowed(maxPages);
    PageList(base, n)
  }

  /** Every kept link of pages 1 to `n`, in crawl order, repetitions included. */
  function Sightings(base: string, fetch: string -> ListingPage, n: nat): seq<string> {
    if n == 0 then [] else Sightings(base, fetch, n - 1) + PageUrls(fetch(PageUrl(base, n)))
  }

  /** `get_job_listing_urls`, as a reference definition: every kept link of
      the pages read, each URL once, at its first sighting. */
  function Discover(base: string, maxPages: int, fetch: string -> ListingPage): seq<string> {
    Dedup(Sightings(base, fetch, PagesRead(base, maxPages, fetch)))
  }

  lemma {:induction false} SightingsArePostings(base: string, fetch: string -> ListingPage, n: nat)
    ensures forall u :: u in Sightings(base, fetch, n) ==> IsPostingUrl(u)
  {
    if n > 0 {
      SightingsArePostings(base, fetch, n - 1);
      var answer := fetch(PageUrl(base, n));
      if answer.Links? {
        JobUrlsExact(answer.hrefs);
      }
    }
  }

  /** Links of page `q` are among the sightings of pages 1 to `n` when `q <= n`. */
  lemma {:induction false} SightingsGrow(base: string, fetch: string -> ListingPage, q: nat, n: nat)
    requires 1 <= q <= n
    ensures forall u :: u in PageUrls(fetch(PageUrl(base, q))) ==> u in Sightings(base, fetch, n)
  {
    if q < n {
      SightingsGrow(base, fetch, q, n - 1);
    }
  }

  /** The properties the crawl promises: no URL twice, first-seen order, every
      URL a posting URL, and every kept link of every page read collected. */
  lemma DiscoverProperties(base: string, maxPages: int, fetch: string -> ListingPage)
    ensures NoDup(Discover(base, maxPages, fetch))
    ensures forall u :: u in Discover(base, maxPages, fetch) ==> IsPostingUrl(u)
    ensures forall q, h ::
      (1 <= q <= PagesRead(base, maxPages, fetch) && fetch(PageUrl(base, q)) == Links(h)) ==>
        forall x :: x in h && IsJobHref(x) ==> Absolute(x) in Discover(base, maxPages, fetch)
    ensures var s := Sightings(base, fetch, PagesRead(base, maxPages, fetch));
      var d := Discover(base, maxPages, fetch);
      forall i, j :: 0 <= i < j < |d| ==> IndexOf(s, d[i]) < IndexOf(s, d[j])
  {
    var n := PagesRead(base, maxPages, fetch);
    SightingsArePostings(base, fetch, n);
    forall q, h | 1 <= q <= n && fetch(PageUrl(base, q)) == Links(h)
      ensures forall x :: x in h && IsJobHref(x) ==> Absolute(x) in Discover(base, maxPages, fetch)
    {
      SightingsGrow(base, fetch, q, n);
      JobUrlsExact(h);
    }
    DedupFirstSeen(Sightings(base, fetch, n));
  }

  /** Only pages that were read contribute, and the crawl never goes past the
      first page that could not be read, nor past the page limit. */
  lemma StopsAtFailure(base: string, maxPages: int, fetch: string -> ListingPage, p: nat)
    requires 1 <= p <= LastAllowed(maxPages) && Fails(base, fetch, p)
    ensures PagesRead(base, maxPages, fetch) < p
    ensures |Requested(base, maxPages, fetch)| <= p
  {
  }

  /** When page `p` is the first that fails, the crawl reads the pages before
      it and requests `p` pages in all. */
  lemma ReadUntilFailure(base: string, maxPages: int, fetch: string -> ListingPage, p: nat)
    requires 1 <= p <= LastAllowed(maxPages) && Fails(base, fetch, p)
    requires forall q :: 1 <= q < p ==> !Fails(base, fetch, q)
    ensures PagesRead(base, maxPages, fetch) == p - 1
    ensures Requested(base, maxPages, fetch) == PageList(base, p)
  {
    var first := FirstFailure(base, maxPages, fetch);
    assert first.Some? && first.value == p;
  }

  /** When no page up to the limit fails, the crawl reads and requests them all. */
  lemma ReadAll(base: string, maxPages: int, fetch: string -> ListingPage)
    requires forall q :: 1 <= q <= LastAllowed(maxPages) ==> !Fails(base, fetch, q)
    ensures PagesRead(base, maxPages, fetch) == LastAllowed(maxPages)
    ensures Requested(base, maxPages, fetch) == PageList(base, LastAllowed(maxPages))
  {
    var first := FirstFailure(base, maxPages, fetch);
    assert first.None?;
  }

  /** The resolved URLs of the first `i + 1` links extend those of the first
      `i` by the resolution of link `i`, when it is kept. */
  lemma JobUrlsStep(before: seq<string>, hrefs: seq<string>, i: nat)
    requires i < |hrefs|
    ensures before + JobUrls(hrefs[..i + 1]) ==
      before + JobUrls(hrefs[..i]) + if IsJobHref(hrefs[i]) then [Absolute(hrefs[i])] else []
  {
    assert hrefs[..i + 1][..i] == hrefs[..i];
  }

  /** Pages 1 to `n` were all read. */
  predicate ReadThrough(base: string, fetch: string -> ListingPage, n: nat) {
    n == 0 || (ReadThrough(base, fetch, n - 1) && !Fails(base, fetch, n))
  }

  lemma {:induction false} ReadThroughMeans(base: string, fetch: string -> ListingPage, n: nat)
    ensures ReadThrough(base, fetch, n) <==> forall q :: 1 <= q <= n ==> !Fails(base, fetch, q)
  {
    if n > 0 {
      ReadThroughMeans(base, fetch, n - 1);
    }
  }

  /** The inner loop over one page's links: each kept link is resolved and
      appended unless it was already collected. */
  method AddPageLinks(urls: seq<string>, hrefs: seq<string>, ghost before: seq<string>)
    returns (result: seq<string>)
    requires urls == Dedup(before)
    ensures result == Dedup(before + JobUrls(hrefs))
  {
    result := urls;
    var i := 0;
    assert before + JobUrls(hrefs[..0]) == before;
    while i < |hrefs|
      invariant 0 <= i <= |hrefs|
      invariant result == Dedup(before + JobUrls(hrefs[..i]))
    {
      var href := hrefs[i];
      ghost var seen := before + JobUrls(hrefs[..i]);
      JobUrlsStep(before, hrefs, i);
      if |href| > 0 && Contains(href, "/job/") {
        var full := if StartsAt(href, 0, "http") then href else Origin + href;
        assert IsJobHref(href) && full == Absolute(href);
        DedupSnoc(seen, full);
        if full !in result {
          result := result + [full];
        }
      } else {
        assert !IsJobHref(href);
        assert seen + [] == seen;
      }
      i := i + 1;
    }
    assert hrefs[..|hrefs|] == hrefs;
  }

  /** `get_job_listing_urls`: requests the result pages in order until one
      fails or the limit is reached, collecting each new posting URL. Also
      returns the page URLs it requested. */
  method GetJobListingUrls(base: string, maxPages: int, fetch: string -> ListingPage)
    returns (urls: seq<string>, requested: seq<string>)
    ensures urls == Discover(base, maxPages, fetch)
    ensures requested == Requested(base, maxPages, fetch)
  {
    urls := [];
    requested := [];
    var page: nat := 1;
    var stopped := false;
    while page <= maxPages && !stopped
      invariant 1 <= page <= LastAllowed(maxPages) + 1
      invariant ReadThrough(base, fetch, page - 1)
      invariant stopped ==> page <= LastAllowed(maxPages) && Fails(base, fetch, page)
      invariant requested == PageList(base, if stopped then page else page - 1)
      invariant urls == Dedup(Sightings(base, fetch, page - 1))
      decreases LastAllowed(maxPages) + 1 - page, !stopped
    {
      var pageUrl := PageUrl(base, page);
      requested := requested + [pageUrl];
      var answer := fetch(pageUrl);
      if answer.FetchFailed? {
        stopped := true;
      } else {
        assert !Fails(base, fetch, page);
        assert Sightings(base, fetch, page) == Sightings(base, fetch, page - 1) + JobUrls(answer.hrefs);
        urls := AddPageLinks(urls, answer.hrefs, Sightings(base, fetch, page - 1));
        page := page + 1;
      }
    }
    ReadThroughMeans(base, fetch, page - 1);
    if stopped {
      ReadUntilFailure(base, maxPages, fetch, page);
    } else {
      ReadAll(base, maxPages, fetch);
    }
  }

  // ---------------------------------------------------------------------
  // Fetching one posting.

  /** What the server answered for a posting URL: no answer at all, or a
      status code with the page (its markup and the text its element lookups
      found). */
  datatype Response = NetworkError | Answer(status: int, body: string, lookups: PageLookups)

  /** `scrape_job`: the parsed posting when the answer has status 200, and
      nothing otherwise. The record keeps the URL it was fetched from. */
  function ScrapeJob(url: string, fetch: string -> Response, unixTime: nat, now: string): (r: Option<JobListing>)
    ensures r.Some? <==> fetch(url).Answer? && fetch(url).status == 200
    ensures r.Some? ==> r.value.url == url && r.value.scrapedAt == now
    ensures r.Some? ==> r.value.reqId == RequisitionId(fetch(url).lookups.requisition, unixTime)
    ensures r.Some? ==> r.value.deadline == Deadline(fetch(url).body)
    ensures r.Some? ==> r.value == ParseJobListingPage(fetch(url).body, url, fetch(url).lookups, unixTime, now)
  {
    match fetch(url)
    case Answer(status, body, lookups) =>
      if status == 200 then Some(ParseJobListingPage(body, url, lookups, unixTime, now)) else None
    case NetworkError => None
  }
}
