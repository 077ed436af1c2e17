/** `search_words`: which target words the index knows, and which it does not. */
module Search {
  import opened Collections
  import opened Crawler

  /** The two collections `search_words` computes before printing them. */
  datatype SearchResult = SearchResult(found: Index, notFound: set<Word>)

  /** Lines 115-116 of `search_words`; `targets` is the tuple of `--search` values. */
  function SearchWords(index: Index, targets: seq<Word>): (r: SearchResult)
    ensures forall w :: w in r.found <==> w in index && w in targets
    ensures forall w :: w in r.found ==> r.found[w] == index[w]
    ensures forall w :: w in r.notFound <==> w in targets && w !in index
  {
    var found := map w | w in index && w in targets :: index[w];
    SearchResult(found, Elems(targets) - found.Keys)
  }

  /** Every target is reported exactly once: found or not found, never both. */
  lemma SearchPartition(index: Index, targets: seq<Word>)
    ensures SearchWords(index, targets).found.Keys !! SearchWords(index, targets).notFound
    ensures SearchWords(index, targets).found.Keys + SearchWords(index, targets).notFound == Elems(targets)
  {
  }
}
