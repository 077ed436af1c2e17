/**
 `crawl`: a depth-bounded, cycle-safe depth-first traversal of a site that
 threads the visited set and the word-location index through every call.
 The network and the HTML parsing are replaced by an abstract web.
 */
module Crawler {
  import opened Wrappers
  import opened Collections

  type Url = string
  type Word = string

  /** What one successful fetch yields: the page's distinct words and its same-site links, in iteration order. */
  datatype Page = Page(words: set<Word>, links: seq<Url>)

  /**
   The site as seen by `crawl`: `None` when `get_html_of` fails or returns
   empty content, otherwise the extracted words and internal links.
   */
  type Web = Url -> Option<Page>

  /** `word_locations`: each word and the pages it was found on. */
  type Index = map<Word, set<Url>>

  /** What a call returns and leaves behind, plus the sequence of pages it fetched. */
  datatype Crawled = Crawled(words: set<Word>, visited: set<Url>, index: Index, fetched: seq<Url>)

  /** `w` is one of the words extracted from a successful fetch of `u`. */
  ghost predicate PageHas(web: Web, u: Url, w: Word) {
    web(u).Some? && w in web(u).value.words
  }

  /** The index lists page `u` under word `w`. */
  predicate Indexed(index: Index, w: Word, u: Url) {
    w in index && u in index[w]
  }

  /**
   `u` is within `depth` hops of `from`: the page itself when the budget is
   positive, or within `depth - 1` hops of one of its links.
   */
  ghost predicate Reachable(web: Web, from: Url, depth: nat, u: Url)
    decreases depth
  {
    depth > 0 &&
    (u == from || (web(from).Some? && exists i :: 0 <= i < |web(from).value.links| &&
                                         Reachable(web, web(from).value.links[i], depth - 1, u)))
  }

  /**
   What every call promises, relative to the visited set and index it started
   from: it fetched each newly visited page once and nothing else, the words
   it returns are exactly those of the newly visited pages, and the index
   gained exactly the pairs (word, newly visited page).
   */
  ghost predicate CrawlSpec(web: Web, visited: set<Url>, index: Index, r: Crawled) {
    && visited <= r.visited
    && NoDup(r.fetched)
    && (forall u :: u in r.fetched <==> u in r.visited && u !in visited)
    && (forall w :: w in r.words <==> exists u :: u in r.fetched && PageHas(web, u, w))
    && r.index.Keys == index.Keys + r.words
    && (forall w, u :: Indexed(r.index, w, u) <==> Indexed(index, w, u) || (u in r.fetched && PageHas(web, u, w)))
  }

  /** Lines 81-84: record `url` under every word of its page. */
  function Record(index: Index, words: set<Word>, url: Url): (r: Index)
    ensures r.Keys == index.Keys + words
    ensures forall w, u :: Indexed(r, w, u) <==> Indexed(index, w, u) || (u == url && w in words)
  {
    map w | w in index.Keys + words :: (if w in index then index[w] else {}) + (if w in words then {url} else {})
  }

  /** Composing two calls that each meet `CrawlSpec` meets it for the combined effect. */
  lemma SpecCompose(web: Web, visited: set<Url>, index: Index, a: Crawled, b: Crawled)
    requires CrawlSpec(web, visited, index, a)
    requires CrawlSpec(web, a.visited, a.index, b)
    ensures CrawlSpec(web, visited, index, Crawled(a.words + b.words, b.visited, b.index, a.fetched + b.fetched))
  {
    NoDupAppend(a.fetched, b.fetched);
    ComposeKeys(web, visited, index, a, b);
    ComposeFetched(web, visited, index, a, b);
    ComposeIndexed(web, visited, index, a, b);
  }

  /** The words and the index keys of two calls in turn. */
  lemma ComposeKeys(web: Web, visited: set<Url>, index: Index, a: Crawled, b: Crawled)
    requires CrawlSpec(web, visited, index, a)
    requires CrawlSpec(web, a.visited, a.index, b)
    ensures forall w :: w in a.words + b.words <==> exists u :: u in a.fetched + b.fetched && PageHas(web, u, w)
    ensures b.index.Keys == index.Keys + (a.words + b.words)
  {
    ComposeWords(web, a, b);
  }

  /** Pages newly visited by two calls in turn are exactly those either one fetched. */
  lemma ComposeFetched(web: Web, visited: set<Url>, index: Index, a: Crawled, b: Crawled)
    requires CrawlSpec(web, visited, index, a)
    requires CrawlSpec(web, a.visited, a.index, b)
    ensures forall u :: u in a.fetched + b.fetched <==> u in b.visited && u !in visited
  {
  }

  /** Index pairs added by two calls in turn are exactly those of the pages either one fetched. */
  lemma ComposeIndexed(web: Web, visited: set<Url>, index: Index, a: Crawled, b: Crawled)
    requires CrawlSpec(web, visited, index, a)
    requires CrawlSpec(web, a.visited, a.index, b)
    ensures forall w, u :: Indexed(b.index, w, u) <==> Indexed(index, w, u) || (u in a.fetched + b.fetched && PageHas(web, u, w))
  {
  }

  /** The words of two calls are exactly the words of the pages either one fetched. */
  lemma ComposeWords(web: Web, a: Crawled, b: Crawled)
    requires forall w :: w in a.words <==> exists u :: u in a.fetched && PageHas(web, u, w)
    requires forall w :: w in b.words <==> exists u :: u in b.fetched && PageHas(web, u, w)
    ensures forall w :: w in a.words + b.words <==> exists u :: u in a.fetched + b.fetched && PageHas(web, u, w)
  {
    forall w | w in a.words + b.words
      ensures exists u :: u in a.fetched + b.fetched && PageHas(web, u, w)
    {
      if w in a.words {
        var u :| u in a.fetched && PageHas(web, u, w);
        assert u in a.fetched + b.fetched;
      } else {
        var u :| u in b.fetched && PageHas(web, u, w);
        assert u in a.fetched + b.fetched;
      }
    }
  }

  /**
   `crawl(url, depth, visited, word_locations)`. The returned `visited` and
   `index` are the Python sets and dict after the call.
   */
  function Crawl(web: Web, url: Url, depth: nat, visited: set<Url>, index: Index): (r: Crawled)
    ensures visited <= r.visited
    ensures depth == 0 || url in visited ==> r == Crawled({}, visited, index, [])
    ensures depth > 0 && url !in visited ==> url in r.visited && r.fetched != [] && r.fetched[0] == url
    ensures depth > 0 && url !in visited && web(url).None? ==> r == Crawled({}, visited + {url}, index, [url])
    decreases depth, 0
  {
    if depth == 0 || url in visited then Crawled({}, visited, index, [])
    else
      var visited' := visited + {url};
      match web(url)
      case None => Crawled({}, visited', index, [url])
      case Some(page) =>
        var index' := Record(index, page.words, url);
        var links := CrawlLinks(web, page.links, depth - 1, visited', index');
        Crawled(page.words + links.words, links.visited, links.index, [url] + links.fetched)
  }

  /** One successful fetch of `url` followed by the crawl of its links meets `CrawlSpec`. */
  lemma FetchedPage(web: Web, url: Url, depth: nat, visited: set<Url>, index: Index, links: Crawled)
    requires depth > 0 && url !in visited && web(url).Some?
    requires CrawlSpec(web, visited + {url}, Record(index, web(url).value.words, url), links)
    requires forall u :: u in links.fetched ==>
      exists i :: 0 <= i < |web(url).value.links| && Reachable(web, web(url).value.links[i], depth - 1, u)
    ensures var r := Crawled(web(url).value.words + links.words, links.visited, links.index, [url] + links.fetched);
      && CrawlSpec(web, visited, index, r)
      && (forall u :: u in r.fetched ==> Reachable(web, url, depth, u))
  {
    var page := web(url).value;
    var here := Crawled(page.words, visited + {url}, Record(index, page.words, url), [url]);
    FetchOnly(web, url, visited, index);
    SpecCompose(web, visited, index, here, links);
  }

  /** The fetch of `url` alone, before its links are crawled, meets `CrawlSpec`. */
  lemma FetchOnly(web: Web, url: Url, visited: set<Url>, index: Index)
    requires url !in visited && web(url).Some?
    ensures var page := web(url).value;
      CrawlSpec(web, visited, index, Crawled(page.words, visited + {url}, Record(index, page.words, url), [url]))
  {
    var page := web(url).value;
    forall w | w in page.words
      ensures exists u :: u in [url] && PageHas(web, u, w)
    {
      assert PageHas(web, url, w);
    }
  }

  /** Line 88: crawl every link in turn with the remaining budget, threading the state. */
  function CrawlLinks(web: Web, links: seq<Url>, depth: nat, visited: set<Url>, index: Index): (r: Crawled)
    ensures visited <= r.visited
    ensures links == [] ==> r == Crawled({}, visited, index, [])
    decreases depth, |links|
  {
    if links == [] then Crawled({}, visited, index, [])
    else
      var first := Crawl(web, links[0], depth, visited, index);
      var rest := CrawlLinks(web, links[1..], depth, first.visited, first.index);
      Crawled(first.words + rest.words, rest.visited, rest.index, first.fetched + rest.fetched)
  }

  /**
   Every call of `crawl` meets `CrawlSpec`, and every page it fetches is
   within `depth` hops of `url`.
   */
  lemma {:induction false} CrawlMeetsSpec(web: Web, url: Url, depth: nat, visited: set<Url>, index: Index)
    ensures var r := Crawl(web, url, depth, visited, index);
      && CrawlSpec(web, visited, index, r)
      && (forall u :: u in r.fetched ==> Reachable(web, url, depth, u))
    decreases depth, 0
  {
    if depth == 0 || url in visited {
    } else if web(url).Some? {
      var page := web(url).value;
      var index' := Record(index, page.words, url);
      CrawlLinksMeetsSpec(web, page.links, depth - 1, visited + {url}, index');
      FetchedPage(web, url, depth, visited, index, CrawlLinks(web, page.links, depth - 1, visited + {url}, index'));
    } else {
      var r := Crawl(web, url, depth, visited, index);
      assert r.fetched == [url];
      assert Reachable(web, url, depth, url);
    }
  }

  /**
   Crawling the links in turn meets `CrawlSpec`, and every page fetched is
   within `depth` hops of one of the links.
   */
  lemma {:induction false} CrawlLinksMeetsSpec(web: Web, links: seq<Url>, depth: nat, visited: set<Url>, index: Index)
    ensures var r := CrawlLinks(web, links, depth, visited, index);
      && CrawlSpec(web, visited, index, r)
      && (forall u :: u in r.fetched ==> exists i :: 0 <= i < |links| && Reachable(web, links[i], depth, u))
    decreases depth, |links|
  {
    if links != [] {
      var first := Crawl(web, links[0], depth, visited, index);
      var rest := CrawlLinks(web, links[1..], depth, first.visited, first.index);
      CrawlMeetsSpec(web, links[0], depth, visited, index);
      CrawlLinksMeetsSpec(web, links[1..], depth, first.visited, first.index);
      SpecCompose(web, visited, index, first, rest);
      forall u | u in first.fetched + rest.fetched
        ensures exists i :: 0 <= i < |links| && Reachable(web, links[i], depth, u)
      {
        if u in first.fetched {
          assert Reachable(web, links[0], depth, u);
        } else {
          var i :| 0 <= i < |links[1..]| && Reachable(web, links[1..][i], depth, u);
          assert links[1..][i] == links[i + 1];
        }
      }
    }
  }

  /** A fresh page with budget left and a successful fetch: the page, then the crawl of its links. */
  lemma CrawlStep(web: Web, url: Url, depth: nat, visited: set<Url>, index: Index)
    requires depth > 0 && url !in visited && web(url).Some?
    ensures var links := CrawlLinks(web, web(url).value.links, depth - 1, visited + {url}, Record(index, web(url).value.words, url));
      && Crawl(web, url, depth, visited, index).words == web(url).value.words + links.words
      && Crawl(web, url, depth, visited, index).fetched == [url] + links.fetched
      && Crawl(web, url, depth, visited, index).visited == links.visited
      && Crawl(web, url, depth, visited, index).index == links.index
  {
  }

  /** The first link is crawled first; the others continue from its state. */
  lemma CrawlLinksStep(web: Web, links: seq<Url>, depth: nat, visited: set<Url>, index: Index)
    requires links != []
    ensures var first := Crawl(web, links[0], depth, visited, index);
      var rest := CrawlLinks(web, links[1..], depth, first.visited, first.index);
      && CrawlLinks(web, links, depth, visited, index).words == first.words + rest.words
      && CrawlLinks(web, links, depth, visited, index).fetched == first.fetched + rest.fetched
      && CrawlLinks(web, links, depth, visited, index).visited == rest.visited
  {
  }

  /** With budget left, every link in the list ends up visited: each one is crawled in turn. */
  lemma {:induction false} LinksVisited(web: Web, links: seq<Url>, depth: nat, visited: set<Url>, index: Index)
    requires depth > 0
    ensures forall l :: l in links ==> l in CrawlLinks(web, links, depth, visited, index).visited
    decreases |links|
  {
    if links != [] {
      var first := Crawl(web, links[0], depth, visited, index);
      var rest := CrawlLinks(web, links[1..], depth, first.visited, first.index);
      CrawlLinksStep(web, links, depth, visited, index);
      LinksVisited(web, links[1..], depth, first.visited, first.index);
      assert links[0] in first.visited;
      forall l | l in links
        ensures l in rest.visited
      {
        if l != links[0] {
          assert l in links[1..];
        }
      }
    }
  }

  /**
   A fresh page fetched with at least two levels of budget has every one of
   its links visited: `crawl` recurses into each link.
   */
  lemma PageLinksVisited(web: Web, url: Url, depth: nat, visited: set<Url>, index: Index)
    requires depth >= 2 && url !in visited && web(url).Some?
    ensures forall l :: l in web(url).value.links ==> l in Crawl(web, url, depth, visited, index).visited
  {
    CrawlStep(web, url, depth, visited, index);
    LinksVisited(web, web(url).value.links, depth - 1, visited + {url}, Record(index, web(url).value.words, url));
  }

  /** A crawl never forgets a visited page or an indexed pair. */
  lemma CrawlOnlyGrows(web: Web, url: Url, depth: nat, visited: set<Url>, index: Index, w: Word, u: Url)
    ensures visited <= Crawl(web, url, depth, visited, index).visited
    ensures Indexed(index, w, u) ==> Indexed(Crawl(web, url, depth, visited, index).index, w, u)
  {
    CrawlMeetsSpec(web, url, depth, visited, index);
  }

  /**
   A successful fetch of a fresh page with budget left indexes the page under
   each of its words, and returns all of them.
   */
  lemma CrawlRecordsPage(web: Web, url: Url, depth: nat, visited: set<Url>, index: Index)
    requires depth > 0 && url !in visited && web(url).Some?
    ensures url in Crawl(web, url, depth, visited, index).visited
    ensures web(url).value.words <= Crawl(web, url, depth, visited, index).words
    ensures forall w :: w in web(url).value.words ==> Indexed(Crawl(web, url, depth, visited, index).index, w, url)
  {
    var r := Crawl(web, url, depth, visited, index);
    CrawlMeetsSpec(web, url, depth, visited, index);
    assert url in r.fetched;
    forall w | w in web(url).value.words
      ensures w in r.words
    {
      assert PageHas(web, url, w);
    }
  }

  /**
   A crawl from `main`'s empty state fetches each visited page exactly once,
   and leaves an index that is exactly the word-to-pages inversion of the
   visited pages' contents, with no empty entry.
   */
  lemma CrawlFromScratch(web: Web, url: Url, depth: nat)
    ensures var r := Crawl(web, url, depth, {}, map[]);
      && NoDup(r.fetched)
      && r.visited == Elems(r.fetched)
      && r.index.Keys == r.words
      && (forall w, u :: Indexed(r.index, w, u) <==> u in r.visited && PageHas(web, u, w))
      && (forall w :: w in r.index ==> r.index[w] != {})
  {
    var r := Crawl(web, url, depth, {}, map[]);
    CrawlMeetsSpec(web, url, depth, {}, map[]);
    forall w | w in r.index
      ensures r.index[w] != {}
    {
      var u :| u in r.fetched && PageHas(web, u, w);
      assert Indexed(r.index, w, u);
    }
  }
}
