/** The crawl of vulnerabilities/importers/postgresql.py: fetch every known page that was not
  visited yet, learn the pages it links to, and repeat until nothing new is known. */
module PageCrawl {
  import opened Listings

  type Url = string
  type Page = string

  /** The site: what fetching a url returns, and the urls found in a page. */
  datatype Site = Site(fetch: Url -> Page, linksIn: Page -> set<Url>) {
    function Links(url: Url): set<Url> {
      linksIn(fetch(url))
    }
  }

  /** A chain of links from page to page. */
  ghost predicate IsPath(site: Site, p: seq<Url>) {
    && |p| > 0
    && forall i :: 0 <= i < |p| - 1 ==> p[i + 1] in site.linksIn(site.fetch(p[i]))
  }

  ghost predicate Reachable(site: Site, root: Url, url: Url) {
    exists p :: IsPath(site, p) && p[0] == root && p[|p| - 1] == url
  }

  /** Finitely many pages, closed under links. */
  ghost predicate ClosedUnderLinks(site: Site, pages: set<Url>) {
    forall u :: u in pages ==> site.Links(u) <= pages
  }

  lemma RootReachable(site: Site, root: Url)
    ensures Reachable(site, root, root)
  {
    assert IsPath(site, [root]);
  }

  lemma LinkReachable(site: Site, root: Url, url: Url, next: Url)
    requires Reachable(site, root, url) && next in site.Links(url)
    ensures Reachable(site, root, next)
  {
    var p :| IsPath(site, p) && p[0] == root && p[|p| - 1] == url;
    var q := p + [next];
    assert IsPath(site, q) && q[0] == root && q[|q| - 1] == next;
  }

  /** A set with the root that no link leaves contains every reachable page. */
  lemma {:induction false} PathStaysInside(site: Site, pages: set<Url>, p: seq<Url>)
    requires ClosedUnderLinks(site, pages) && IsPath(site, p) && p[0] in pages
    ensures p[|p| - 1] in pages
    decreases |p|
  {
    if |p| > 1 {
      var rest := p[1..];
      assert p[0 + 1] in site.Links(p[0]);
      forall i | 0 <= i < |rest| - 1
        ensures rest[i + 1] in site.Links(rest[i])
      {
        assert p[i + 1 + 1] in site.Links(p[i + 1]);
      }
      PathStaysInside(site, pages, rest);
    }
  }

  lemma ClosedContainsReachable(site: Site, pages: set<Url>, root: Url, url: Url)
    requires ClosedUnderLinks(site, pages) && root in pages && Reachable(site, root, url)
    ensures url in pages
  {
    var p :| IsPath(site, p) && p[0] == root && p[|p| - 1] == url;
    PathStaysInside(site, pages, p);
  }

  /** What holds between any two fetches. */
  ghost predicate Crawling(site: Site, root: Url, known: set<Url>, visited: set<Url>,
                           dataByUrl: map<Url, Page>, fetched: seq<Url>)
  {
    && root in known && visited <= known
    && (forall u :: u in known ==> Reachable(site, root, u))
    && (forall u :: u in visited ==> site.Links(u) <= known)
    && dataByUrl.Keys == visited
    && (forall u :: u in visited ==> dataByUrl[u] == site.fetch(u))
    && ListsOnce(fetched, visited)
  }

  lemma FetchKeepsCrawling(site: Site, root: Url, known: set<Url>, visited: set<Url>,
                           dataByUrl: map<Url, Page>, fetched: seq<Url>, url: Url)
    requires Crawling(site, root, known, visited, dataByUrl, fetched)
    requires url in known && url !in visited
    ensures Crawling(site, root, known + site.Links(url), visited + {url},
                     dataByUrl[url := site.fetch(url)], fetched + [url])
  {
    forall u | u in site.Links(url)
      ensures Reachable(site, root, u)
    {
      LinkReachable(site, root, url, u);
    }
  }

  /** The inner loop, over the pages that were unvisited when it started. */
  method FetchAll(site: Site, root: Url, unvisited: set<Url>, known0: set<Url>, visited0: set<Url>,
                  data0: map<Url, Page>, ghost pages: set<Url>, ghost fetched0: seq<Url>)
    returns (known: set<Url>, visited: set<Url>, dataByUrl: map<Url, Page>, ghost fetched: seq<Url>)
    requires Crawling(site, root, known0, visited0, data0, fetched0)
    requires known0 <= pages && ClosedUnderLinks(site, pages)
    requires unvisited == known0 - visited0
    ensures Crawling(site, root, known, visited, dataByUrl, fetched)
    ensures known <= pages && visited == visited0 + unvisited
    ensures unvisited == {} ==> known == known0
  {
    known, visited, dataByUrl, fetched := known0, visited0, data0, fetched0;
    var rest := unvisited;
    while rest != {}
      invariant Crawling(site, root, known, visited, dataByUrl, fetched)
      invariant known <= pages && rest <= unvisited && unvisited <= known
      invariant visited == visited0 + (unvisited - rest)
      invariant rest == unvisited ==> known == known0
      decreases rest
    {
      var url :| url in rest;
      rest := rest - {url};
      FetchKeepsCrawling(site, root, known, visited, dataByUrl, fetched, url);
      var data := site.fetch(url);
      dataByUrl := dataByUrl[url := data];
      visited := visited + {url};
      known := known + site.linksIn(data);
      fetched := fetched + [url];
    }
  }

  /** The crawl ends on every finite site, having fetched exactly the reachable pages, each
    exactly once. */
  method Crawl(site: Site, root: Url, ghost pages: set<Url>)
    returns (dataByUrl: map<Url, Page>, visited: set<Url>, ghost fetched: seq<Url>)
    requires root in pages && ClosedUnderLinks(site, pages)
    ensures forall u :: u in visited <==> Reachable(site, root, u)
    ensures dataByUrl.Keys == visited && forall u :: u in visited ==> dataByUrl[u] == site.fetch(u)
    ensures ListsOnce(fetched, visited)
    ensures root in visited && forall u :: u in visited ==> site.linksIn(site.fetch(u)) <= visited
  {
    var known := {root};
    visited, dataByUrl, fetched := {}, map[], [];
    RootReachable(site, root);
    while true
      invariant Crawling(site, root, known, visited, dataByUrl, fetched)
      invariant known <= pages
      decreases pages - visited
    {
      var unvisited := known - visited;
      ghost var left := pages - visited;
      known, visited, dataByUrl, fetched :=
        FetchAll(site, root, unvisited, known, visited, dataByUrl, pages, fetched);
      if known == visited {
        break;
      }
      assert unvisited != {};
      ghost var url :| url in unvisited;
      assert url in left && url !in pages - visited;
    }
    forall u | Reachable(site, root, u)
      ensures u in visited
    {
      ClosedContainsReachable(site, visited, root, u);
    }
  }
}
