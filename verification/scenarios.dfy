/** Small worked cases of the model, each stated for every input of its shape where possible. */
module Scenarios {
  import opened Wrappers
  import opened Collections
  import opened Ascii
  import opened Leet
  import opened Mutation
  import opened Crawler
  import opened Search
  import opened Select

  /** The options at the two positions of "it". */
  lemma ChoicesOfIt()
    ensures Choices('i') == ['i', '1', '!'] && Choices('t') == ['t', '7']
  {
    assert LowerChar('i') == 'i' && LowerChar('t') == 't';
    assert LeetMap['i'] == ['1', '!'];
    assert LeetMap['t'] == ['7'];
  }

  lemma VariantsOfIt(s: string)
    ensures Variant(s, "it") <==> s in {"it", "1t", "!t", "i7", "17", "!7"}
  {
    ChoicesOfIt();
    if Variant(s, "it") {
      assert s[0] in ['i', '1', '!'];
      assert s[1] in ['t', '7'];
      assert s == [s[0], s[1]];
    }
  }

  /** The empty word expands to itself only. */
  lemma LeetOfEmptyWord()
    ensures LeetTransformations("", true) == {""}
  {
    forall s | s in LeetTransformations("", true)
      ensures s == ""
    {
      LeetTransformationsExact("", s);
    }
  }

  /** "it" has 3 x 2 expansions. */
  lemma LeetOfIt()
    ensures LeetTransformations("it", true) == {"it", "1t", "!t", "i7", "17", "!7"}
  {
    var t := LeetTransformations("it", true);
    forall s
      ensures s in t <==> Variant(s, "it")
    {
      LeetTransformationsExact("it", s);
    }
    VariantSetOfIt(t);
  }

  /** A set holding exactly the expansions of "it" is the six-element set. */
  lemma VariantSetOfIt(t: set<string>)
    requires forall s :: s in t <==> Variant(s, "it")
    ensures t == {"it", "1t", "!t", "i7", "17", "!7"}
  {
    forall s
      ensures s in t <==> s in {"it", "1t", "!t", "i7", "17", "!7"}
    {
      VariantsOfIt(s);
    }
  }

  /** Mutation without leetspeak or suffixes gives the three case forms. */
  lemma MutationOfCat(last: string)
    ensures PasswordMutation("cat", true, false, false, last) == Success({"cat", "Cat", "CAT"})
  {
    assert Capitalize("cat") == "Cat";
    assert Upper("cat") == "CAT";
  }

  lemma CaseFormsOfIt()
    ensures CaseForms("it") == {"it", "It", "IT"}
  {
    assert Capitalize("it") == "It";
    assert Upper("it") == "IT";
  }

  lemma MutationWithLeet(w: string, last: string)
    ensures PasswordMutation(w, true, true, false, last) == Success(CaseForms(w) + LeetTransformations(w, true))
  {
  }

  /** Mutation with leetspeak adds the expansions of "it" to its case forms. */
  lemma MutationOfIt(last: string)
    ensures LeetTransformations("it", true) == {"it", "1t", "!t", "i7", "17", "!7"}
    ensures PasswordMutation("it", true, true, false, last) == Success({"it", "It", "IT"} + LeetTransformations("it", true))
  {
    LeetOfIt();
    CaseFormsOfIt();
    MutationWithLeet("it", last);
  }

  /** Asking for suffixes without leetspeak raises, for every word. */
  lemma SuffixesWithoutLeetRaise(w: string, last: string)
    ensures PasswordMutation(w, true, false, true, last) == Failure(UnboundLeetMutations)
  {
  }

  lemma LeetOfA()
    ensures "a" in LeetTransformations("a", true) && "@" in LeetTransformations("a", true)
  {
    assert LowerChar('a') == 'a' && LeetMap['a'] == ['4', '@'];
    assert Choices('a') == ['a', '4', '@'];
    assert Variant("@", "a");
    LeetTransformationsExact("a", "@");
  }

  /** With "@" iterated last, "a" gets its digit suffixes but not its symbol suffixes. */
  lemma SymbolSuffixMissed()
    ensures "@" in LeetTransformations("a", true)
    ensures "a" + ['0'] in PasswordMutation("a", true, true, true, "@").value
    ensures "a" + ['!'] !in PasswordMutation("a", true, true, true, "@").value
  {
    LeetOfA();
    SymbolsOnlyForLast("a", "@", "a", '!');
    DigitSuffixKept("a", "@", "a", '0');
  }

  lemma DigitSuffixKept(w: string, last: string, b: string, d: char)
    requires last in LeetTransformations(w, true)
    requires b in LeetTransformations(w, true) && d in Digits
    ensures b + [d] in PasswordMutation(w, true, true, true, last).value
  {
  }

  /**
   Two pages linking to each other, A -> B -> A, crawled from A with depth 2:
   A then B are fetched, once each, and both pages' words are indexed.
   */
  lemma CrawlCycle(web: Web)
    requires web("A") == Some(Page({"alpha"}, ["B"]))
    requires web("B") == Some(Page({"beta"}, ["A"]))
    ensures Crawl(web, "A", 2, {}, map[]).fetched == ["A", "B"]
    ensures Crawl(web, "A", 2, {}, map[]).visited == {"A", "B"}
    ensures Indexed(Crawl(web, "A", 2, {}, map[]).index, "alpha", "A")
    ensures Indexed(Crawl(web, "A", 2, {}, map[]).index, "beta", "B")
  {
    var r := Crawl(web, "A", 2, {}, map[]);
    CycleFromA(web);
    CrawlFromScratch(web, "A", 2);
    TwoElems(r.fetched, "A", "B");
    assert PageHas(web, "A", "alpha") && PageHas(web, "B", "beta");
  }

  lemma TwoElems(s: seq<Url>, a: Url, b: Url)
    requires s == [a, b]
    ensures Elems(s) == {a, b}
  {
    assert s[1..] == [b];
  }

  /** The first fetch of a crawl from the empty state, followed by the crawl of its links. */
  lemma FirstFetch(web: Web, url: Url, depth: nat, words: set<Word>, links: seq<Url>, rest: seq<Url>)
    requires depth > 0 && web(url) == Some(Page(words, links))
    requires CrawlLinks(web, links, depth - 1, {url}, Record(map[], words, url)).fetched == rest
    ensures Crawl(web, url, depth, {}, map[]).fetched == [url] + rest
  {
    var none: set<Url> := {};
    assert none + {url} == {url};
    CrawlStep(web, url, depth, none, map[]);
  }

  lemma CycleFromA(web: Web)
    requires web("A") == Some(Page({"alpha"}, ["B"]))
    requires web("B") == Some(Page({"beta"}, ["A"]))
    ensures Crawl(web, "A", 2, {}, map[]).fetched == ["A", "B"]
  {
    CycleLinks(web, Record(map[], {"alpha"}, "A"));
    FirstFetch(web, "A", 2, {"alpha"}, ["B"], ["B"]);
  }

  lemma CycleLinks(web: Web, index: Index)
    requires web("B") == Some(Page({"beta"}, ["A"]))
    ensures CrawlLinks(web, ["B"], 1, {"A"}, index).fetched == ["B"]
  {
    CrawlLinksStep(web, ["B"], 1, {"A"}, index);
    assert ["B"][1..] == [];
    CycleFromB(web, index);
  }

  lemma CycleFromB(web: Web, index: Index)
    requires web("B") == Some(Page({"beta"}, ["A"]))
    ensures Crawl(web, "B", 1, {"A"}, index).fetched == ["B"]
  {
    CrawlStep(web, "B", 1, {"A"}, index);
  }

  /**
   A links to B and C, B links to C, C links to D. D is two hops from A
   through C, but the depth-first crawl first reaches C through B with too
   little budget left, marks it visited and never returns to it: D is not
   fetched.
   */
  lemma DepthFirstMissesShallowerPath(web: Web)
    requires web("A") == Some(Page({}, ["B", "C"]))
    requires web("B") == Some(Page({}, ["C"]))
    requires web("C") == Some(Page({}, ["D"]))
    ensures Reachable(web, "A", 3, "D")
    ensures "D" !in Crawl(web, "A", 3, {}, map[]).visited
  {
    DiamondReach(web);
    DiamondFetches(web);
    CrawlMeetsSpec(web, "A", 3, {}, map[]);
    var r := Crawl(web, "A", 3, {}, map[]);
    assert "D" !in r.fetched;
  }

  /** The whole crawl fetches A, B and C, in that order. */
  lemma DiamondFetches(web: Web)
    requires web("A") == Some(Page({}, ["B", "C"]))
    requires web("B") == Some(Page({}, ["C"]))
    requires web("C") == Some(Page({}, ["D"]))
    ensures Crawl(web, "A", 3, {}, map[]).fetched == ["A", "B", "C"]
  {
    DiamondFromA(web, Record(map[], {}, "A"));
    FirstFetch(web, "A", 3, {}, ["B", "C"], ["B", "C"]);
  }

  /** The links of A, with budget 2: B, then C through B, then C again, already visited. */
  lemma DiamondFromA(web: Web, index: Index)
    requires web("B") == Some(Page({}, ["C"]))
    requires web("C") == Some(Page({}, ["D"]))
    ensures CrawlLinks(web, ["B", "C"], 2, {"A"}, index).fetched == ["B", "C"]
  {
    CrawlLinksStep(web, ["B", "C"], 2, {"A"}, index);
    assert ["B", "C"][1..] == ["C"];
    DiamondFromB(web, index);
    var b := Crawl(web, "B", 2, {"A"}, index);
    CrawlLinksStep(web, ["C"], 2, b.visited, b.index);
    assert ["C"][1..] == [];
  }

  /** From B with budget 2, C is reached with budget 1 and D is not. */
  lemma DiamondFromB(web: Web, index: Index)
    requires web("B") == Some(Page({}, ["C"]))
    requires web("C") == Some(Page({}, ["D"]))
    ensures Crawl(web, "B", 2, {"A"}, index).fetched == ["B", "C"]
    ensures "C" in Crawl(web, "B", 2, {"A"}, index).visited
  {
    var index' := Record(index, {}, "B");
    assert {"A"} + {"B"} == {"A", "B"};
    CrawlStep(web, "B", 2, {"A"}, index);
    var links := CrawlLinks(web, ["C"], 1, {"A", "B"}, index');
    assert Crawl(web, "B", 2, {"A"}, index).fetched == ["B"] + links.fetched;
    DiamondLinksOfB(web, index');
  }

  lemma DiamondLinksOfB(web: Web, index: Index)
    requires web("C") == Some(Page({}, ["D"]))
    ensures CrawlLinks(web, ["C"], 1, {"A", "B"}, index).fetched == ["C"]
  {
    CrawlLinksStep(web, ["C"], 1, {"A", "B"}, index);
    assert ["C"][1..] == [];
    DiamondFromC(web, index);
  }

  /** From C with budget 1, the link to D gets budget 0 and is not followed. */
  lemma DiamondFromC(web: Web, index: Index)
    requires web("C") == Some(Page({}, ["D"]))
    ensures Crawl(web, "C", 1, {"A", "B"}, index).fetched == ["C"]
  {
    CrawlStep(web, "C", 1, {"A", "B"}, index);
  }

  lemma DiamondReach(web: Web)
    requires web("A") == Some(Page({}, ["B", "C"]))
    requires web("C") == Some(Page({}, ["D"]))
    ensures Reachable(web, "A", 3, "D")
  {
    assert Reachable(web, "D", 1, "D");
    assert web("C").value.links[0] == "D";
    assert Reachable(web, "C", 2, "D");
    assert web("A").value.links[1] == "C";
  }

  /** The search example: one target found, one not. */
  lemma SearchCatFox()
    ensures SearchWords(map["cat" := {"u1"}, "dog" := {"u2"}], ["cat", "fox"])
      == SearchResult(map["cat" := {"u1"}], {"fox"})
  {
    var r := SearchWords(map["cat" := {"u1"}, "dog" := {"u2"}], ["cat", "fox"]);
    assert r.found.Keys == {"cat"};
    assert r.notFound == {"fox"};
  }

  /**
   Words of equal length are not ordered by their spelling: iterated as
   `a, b, c` with `a` and `c` longer than `b`, the top two are `a` then `c`,
   whichever of them sorts first alphabetically.
   */
  lemma TiesFollowIterationOrder(a: Word, b: Word, c: Word)
    requires |a| == |c| && |b| < |a|
    ensures SelectTop([a, b, c], 0, None, 2) == Top(3, [a, c])
  {
    ThreeSorted(a, b, c);
    FirstTwo(a, c, b);
  }

  lemma ThreeSorted(a: Word, b: Word, c: Word)
    requires |a| == |c| && |b| < |a|
    ensures SelectTop([a, b, c], 0, None, 2) == Top(3, Slice([a, c, b], 2))
  {
    KeepAllThree(a, b, c);
    SortThree(a, b, c);
    SelectTopIs([a, b, c], 0, None, 2, [a, b, c], [a, c, b]);
  }

  lemma FirstTwo(x: Word, y: Word, z: Word)
    ensures Slice([x, y, z], 2) == [x, y]
  {
  }

  lemma KeepAllThree(a: Word, b: Word, c: Word)
    ensures FilterWords([a, b, c], 0, None) == [a, b, c]
  {
    assert [c][1..] == [];
    assert [b, c][1..] == [c];
    assert [a, b, c][1..] == [b, c];
    assert FilterWords([c], 0, None) == [c];
    assert FilterWords([b, c], 0, None) == [b, c];
  }

  lemma SortThree(a: Word, b: Word, c: Word)
    requires |a| == |c| && |b| < |a|
    ensures SortByLength([a, b, c]) == [a, c, b]
  {
    assert [c][1..] == [];
    assert [b, c][1..] == [c];
    assert [a, b, c][1..] == [b, c];
    assert SortByLength([c]) == [c];
    assert Insert(b, [c]) == [c, b];
    assert SortByLength([b, c]) == [c, b];
    assert Insert(a, [c, b]) == [a, c, b];
  }
}
