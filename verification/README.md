# WordScraper core, modelled in Dafny

WordScraper crawls a web site from a seed URL up to a depth. It builds an
index from every word it sees to the pages it saw the word on. From the
crawled words it derives password candidates. It keeps the longest words,
then expands each one into its case forms, its leetspeak spellings, and
copies with a digit or symbol appended.

This project models the algorithmic part of `wordscraper.py` as pure Dafny
functions over ASCII strings, sets and maps, and proves properties of it:

- `Leet` (leet.dfy): the `LEET_MAP` table and `leet_transformations`.
  The recursive `helper` is modelled as the sequence of strings it adds,
  in call order. The result is characterised exactly, below Python's
  recursion limit (see "## Left out"): every position keeps its character
  or takes a substitute of its lower-cased form. It has exactly
  ∏(1 + |substitutes|) elements.
- `Mutation` (mutation.dfy): `password_mutation` as the code behaves.
  With suffixes requested and leetspeak off, it raises, because
  `leet_mutations` is unbound. With all flags on, only the last base the
  set iteration visits gets symbol suffixes. `PasswordMutationIntended` is
  the version the code's structure evidently intends. It is related to the
  as-written one by two lemmas.
- `Crawler` (crawler.dfy): `crawl` over an abstract web
  `Url -> Option<Page>`. `None` is a failed fetch or empty content. A page
  is its set of words and its internal links, in iteration order. The
  function threads `(visited, index)` and also returns the sequence of
  pages it fetched. Its lemmas say:
  - each newly visited page was fetched exactly once;
  - the returned words are exactly the words of the newly visited pages;
  - the index gained exactly the pairs (word, newly visited page);
  - every fetched page is within `depth` hops of the start;
  - with two or more levels of budget, every link of a freshly fetched page
    ends up visited, and a call returns its page's words together with
    everything its links' crawls return.
- `Search` (search.dfy): the found / not-found split of `search_words`.
- `Select` (select.dfy): the option check, the length filter and the
  longest-first top-N cut from `main`. The sort is stable, with no tie-break
  by spelling, and the cut uses Python slice semantics.
- `Ascii`, `Collections`, `Wrappers`: ASCII case mapping; facts about
  duplicate-free sequences; `Option` and `Result`.
- `Scenarios` (scenarios.dfy): worked cases. The leetspeak, mutation and
  search cases are about fixed words. The crawl cases hold for every web
  that contains the listed pages. The tie case holds for any three words
  with the stated lengths.

Set iteration order is unspecified in Python. Where it matters it becomes a
parameter:
- `last` in `PasswordMutation` is the leet variant iterated last;
- `order` in `SelectTop` is the enumeration `sorted` actually sees. When a
  length filter applies, that is the iteration order of the new set built
  by the comprehension on line 154 or 157, which need not follow the order
  of the unfiltered set. Since `order` is unconstrained, every run is
  covered either way.

Behaviour of the code worth knowing, each captured in the model:
- `capitalize` upper-cases the first character and lower-cases the rest of
  the word.
- Words of equal length keep their iteration order. There is no
  lexicographic tie-break (`Scenarios.TiesFollowIterationOrder`).
- Suffixes without leetspeak raise an error, and symbols are appended to one
  base only (see Findings).
- `crawl` does not always return every word within `depth` hops. The
  traversal is depth-first and marks pages visited. A page first reached on
  a long path is not re-expanded when a shorter path reaches it later
  (`Scenarios.DepthFirstMissesShallowerPath`). The model proves that every
  fetched page is within `depth` hops, and that the links of each freshly
  fetched page are visited when budget remains.

## Model

| member | source | states |
|---|---|---|
| Ascii.LowerChar | wordscraper.py:49 | `char.lower()` on ASCII: never upper-case, keeps letters letters, changes only upper-case letters, and agrees with the original once upper-cased; with `CaseAlphabet`, each capital goes to its own lower-case letter |
| Ascii.UpperChar | wordscraper.py:98 | `upper()` on one ASCII character: never lower-case, keeps letters letters, changes only lower-case letters; with `CaseAlphabet`, each lower-case letter goes to its own capital |
| Ascii.CaseRoundTrip | wordscraper.py:97-98 | a lower-case letter upper-cases to an upper-case letter that lower-cases back to it, and the other way round; which letter pairs with which is fixed by `CaseAlphabet` |
| Ascii.CaseAlphabet | wordscraper.py:49 | the i-th letter of a–z upper-cases to the i-th letter of A–Z, and the i-th capital lower-cases to the i-th lower-case letter: each letter maps to its own counterpart, as the leetspeak lookup of `char.lower()` needs |
| Ascii.Lower | wordscraper.py:97 | lower-casing a string keeps its length and lower-cases each character in place |
| Ascii.Upper | wordscraper.py:98 | `word.upper()` keeps the length and upper-cases each character in place |
| Ascii.Capitalize | wordscraper.py:97 | `word.capitalize()` keeps the length, upper-cases the first character and lower-cases all the others |
| Ascii.CaseFormsAgreeUpperCased | wordscraper.py:96-98 | the word, its capitalisation and its upper-case form all upper-case to the same string |
| Leet.LeetMapShape | wordscraper.py:20-31 | `LEET_MAP` is keyed by lower-case letters; each key's substitutes are distinct and none is a letter |
| Leet.ChoicesNoDup | wordscraper.py:47-51 | the options `helper` tries at one position (the character, then its substitutes) are pairwise distinct |
| Leet.Helper | wordscraper.py:40-51 | `helper(prefix, remaining)` adds ∏(1 + substitutes) strings, all distinct, each being `prefix` followed by a keep-or-substitute choice for every remaining position |
| Leet.HelperEach | wordscraper.py:47-51 | the calls for the options of one position together add `options × product` strings; each carries its option right after the prefix; they are distinct when the options are |
| Leet.HelperComplete | wordscraper.py:40-53 | every keep-or-substitute choice for the remaining characters is added by `helper` |
| Leet.LeetTransformations | wordscraper.py:33-38 | the result always contains the word; with `apply_leet` false it is exactly `{word}` |
| Leet.LeetTransformationsExact | wordscraper.py:33-54 | with `apply_leet` true, a string is in the result iff it has the word's length and each position holds the original character or a substitute of its lower-cased form |
| Leet.LeetTransformationsSize | wordscraper.py:33-54 | with `apply_leet` true, the result has exactly ∏ over the word of (1 + number of substitutes) elements |
| Mutation.CaseForms | wordscraper.py:96-98 | the word, its capitalisation and its upper-case form: the word is among them, there are at most three, and all have the word's length and upper-case to the same string |
| Mutation.PasswordMutation | wordscraper.py:93-112 | raises exactly when mutation and suffixes are on and leetspeak is off; otherwise contains the three case forms; exactly those without mutation; contains every leet variant with leetspeak; with suffixes, every leet variant plus each digit and the last-iterated variant plus each symbol |
| Mutation.SymbolsOnlyForLast | wordscraper.py:105-110 | with all flags on, a leet variant followed by a symbol is in the result iff that variant is the one iterated last |
| Mutation.PasswordMutationIntended | wordscraper.py:93-112 | the intended mutation never fails, contains the case forms, only those without mutation, the leet set with leetspeak, and every base (leet set, or the word alone) followed by every digit and every symbol |
| Mutation.AsWrittenMembership | wordscraper.py:93-112 | when the code succeeds, a string is produced iff it is a case form, or (with leetspeak) a leet spelling of the word, or (with suffixes) a leet spelling plus a digit or the last-iterated spelling plus a symbol |
| Mutation.IntendedMembership | wordscraper.py:93-112 | the intended result holds a string iff it is a case form, or (with leetspeak) a leet spelling of the word, or (with suffixes) a base followed by one digit or symbol |
| Mutation.IntendedAgreesWithoutChars | wordscraper.py:100-104 | without the suffix flag the code and the intended definition give the same set |
| Mutation.IntendedCoversAsWritten | wordscraper.py:100-110 | whenever the code succeeds, its result is contained in the intended result |
| Mutation.SuffixedMeans | wordscraper.py:106-110 | a string is produced by appending a suffix character to a base iff removing its last character leaves a base and that character is one of the suffixes |
| Mutation.SuffixedGrows | wordscraper.py:106-110 | appending suffixes to more bases gives more strings |
| Crawler.Record | wordscraper.py:81-84 | after recording, the index lists page `u` under word `w` iff it did before or `u` is the page and `w` one of its words; keys gain exactly the page's words |
| Crawler.Crawl | wordscraper.py:70-91 | depth 0 or an already visited URL changes nothing and returns ∅; otherwise the URL is fetched first and ends up visited, and a failed fetch returns ∅ with the index unchanged; the visited set only grows |
| Crawler.CrawlMeetsSpec | wordscraper.py:70-91 | every call fetches each newly visited page exactly once and nothing else, returns exactly the words of those pages, adds exactly the pairs (word, newly visited page) to the index, and fetches only pages within `depth` hops of the start |
| Crawler.CrawlLinks | wordscraper.py:86-89 | crawling no links changes nothing; crawling links in turn only grows the visited set |
| Crawler.CrawlLinksMeetsSpec | wordscraper.py:86-89 | crawling the links in turn, threading the state, meets the same invariant and only fetches pages within the remaining depth of some link |
| Crawler.CrawlStep | wordscraper.py:73-91 | a fresh page with budget left and a successful fetch returns its own words together with its links' crawl's words, fetches itself before that crawl, and leaves that crawl's visited set and index |
| Crawler.CrawlLinksStep | wordscraper.py:88-89 | crawling links returns the first link's words together with the rest's, fetches the first link's pages first, and leaves the rest's visited set |
| Crawler.LinksVisited | wordscraper.py:70-89 | with budget left, every link in the list ends up visited |
| Crawler.PageLinksVisited | wordscraper.py:70-91 | a fresh page fetched with budget at least 2 has every one of its links visited: the crawl recurses into each link |
| Crawler.SpecCompose | wordscraper.py:88-89 | two successive crawls threading visited and index compose: the union of their words, the concatenation of their fetches |
| Crawler.CrawlOnlyGrows | wordscraper.py:70-91 | a crawl never removes a visited page or an indexed (word, page) pair |
| Crawler.CrawlRecordsPage | wordscraper.py:73-84 | a fresh URL with budget left and a successful fetch ends up visited; every word of its page is returned and lists that URL in the index |
| Crawler.CrawlFromScratch | wordscraper.py:143-145 | from empty visited set and index: no page is fetched twice, visited is exactly the fetched pages, the index keys are exactly the returned words, a page is listed under a word iff it was visited and has the word, and no entry is empty |
| Search.SearchWords | wordscraper.py:114-116 | `found` holds exactly the index entries whose word is a target, with the same page sets; `not_found` holds exactly the targets the index lacks |
| Search.SearchPartition | wordscraper.py:115-116 | found and not-found are disjoint and together cover the targets |
| Select.FilterWords | wordscraper.py:153-157 | a word survives iff it passes the fixed-length filter when `fixed_length` is truthy, else the minimum-length filter when `length > 0`, else always; distinct words stay distinct |
| Select.Insert | wordscraper.py:165 | inserting into a longest-first sequence keeps it longest first, adds exactly one occurrence, and places the word before the equal-length words already there |
| Select.SortByLength | wordscraper.py:165 | `sorted(key=len, reverse=True)` yields a longest-first permutation in which the words of each length keep their input order (stability) |
| Select.Slice | wordscraper.py:165 | `[:count]` is a prefix of length `min(count, n)`, or `max(0, n + count)` for negative `count` |
| Select.SelectTop | wordscraper.py:139-165 | rejects `length > 0` with a truthy `fixed_length`; reports no words iff nothing survives; otherwise `total` is the survivor count, and the printed words are survivors, longest first, `min(count, total)` of them (or `max(0, total + count)` for negative `count`), with the words of each length in iteration order |
| Select.TopKeepsTies | wordscraper.py:165 | cutting the sorted survivors keeps the slice's length, and the printed words of each length are a prefix of the survivors of that length in iteration order |
| Select.OfLengthPrefix | wordscraper.py:165 | the words of one length in a prefix are a prefix of the words of that length in the whole sequence |
| Select.SelectTopLongest | wordscraper.py:165 | any survivor left out is no longer than any printed word |
| Select.PrefixIsLongest | wordscraper.py:165 | in a longest-first sequence, a word outside a prefix is no longer than any word inside it |
| Select.SelectTopAll | wordscraper.py:165 | when `count` reaches the survivor count, every survivor is printed, each once |
| Select.SelectTopDistinct | wordscraper.py:151-165 | for a set's iteration order, the printed words are distinct and `total` is the number of distinct survivors |
| Scenarios.LeetOfEmptyWord | wordscraper.py:33-54 | the empty word expands to `{""}` only |
| Scenarios.LeetOfIt | wordscraper.py:33-54 | "it" expands to exactly it, 1t, !t, i7, 17, !7 |
| Scenarios.MutationOfCat | wordscraper.py:93-100 | "cat" with mutation only gives exactly cat, Cat, CAT |
| Scenarios.MutationOfIt | wordscraper.py:93-104 | "it" with mutation and leetspeak gives its case forms together with its six leet variants |
| Scenarios.SuffixesWithoutLeetRaise | wordscraper.py:101-106 | mutation with suffixes but without leetspeak raises for every word |
| Scenarios.SymbolSuffixMissed | wordscraper.py:105-110 | for "a" with "@" iterated last, "a0" is produced but "a!" is not |
| Scenarios.CrawlCycle | wordscraper.py:70-91 | on A → B → A with depth 2, A then B are fetched once each, visited is {A, B}, and both pages' words are indexed |
| Scenarios.DepthFirstMissesShallowerPath | wordscraper.py:70-91 | with A → B, C (A's links iterated B first); B → C; C → D and depth 3, D is within three hops of A but is never visited; the outcome depends on B being iterated before C (with C first, C is reached with budget 2 and D is fetched) |
| Scenarios.SearchCatFox | wordscraper.py:115-116 | searching cat and fox in {cat: u1, dog: u2} finds {cat: u1} and reports fox as not found |
| Scenarios.TiesFollowIterationOrder | wordscraper.py:165 | two equally long words are printed in iteration order, whatever their spelling |

## Left out

- `get_html_of` (HTTP, status codes, printing) is replaced by the `Web`
  function. Its `None` stands for a request error or empty content. A body
  that is not valid UTF-8 makes `resp.content.decode()` (line 15) raise
  `UnicodeDecodeError`. The `except` on line 16 catches only request
  errors, so that exception escapes `crawl` and ends `main`. The model
  cannot express this abort: every fetch is `Some` or `None`.
- `get_all_words_from` and `get_internal_links` (HTML parsing, the `\w+`
  tokeniser, URL joining and same-host filtering) are replaced by the words
  and links of a `Page`, taken as given.
- Progress bars, every `print`, the `click` option parsing, the output file,
  and the choice between searching and selecting in `main` are input/output
  and control flow with no computation of their own.
- The output list built after selection (the word followed by its
  mutations) is not modelled. Its order depends on the unordered
  `list(mutation)`.
- Crawler.Crawl: `depth` is a natural number. A negative `--depth` makes the
  Python crawl ignore the depth bound, so only the visited set limits it.
  That unbounded case is not modelled.
- Leet.Helper: Python's recursion limit (1000 frames by default) is not
  modelled. `helper` recurses once per remaining character (line 47), so
  `leet_transformations` on a word of roughly 990 or more characters raises
  `RecursionError`. `main` mutates exactly the longest selected words
  (lines 165-171), so with mutation and leetspeak on, one such word on a
  page ends the run. The model returns the full set for every length.
- Crawler.Crawl: the same recursion limit is not modelled for `crawl`,
  which recurses once per hop (line 89). A `--depth` of roughly 990 or
  more, over a chain of that many fresh pages, raises `RecursionError`
  in Python, while the model returns a result.
- Mutation.PasswordMutation: the returned list is read as the set of its
  elements. Its order and its length are not modelled.
- Ascii.Capitalize: case mapping covers ASCII letters only. Python's
  Unicode mappings (`'ß'.upper() == 'SS'`, title case for the first
  character) are not modelled. For the leetspeak lookup this is exact,
  because no non-ASCII character lower-cases to a key of the table.
- No claim is made that the final index is independent of the order of
  sibling links. The code does not promise it, and with depth budgets it
  does not hold in general.

## Findings

| source | as written | input that shows it | evidently intended | confidence | as-written member | corrected member |
|---|---|---|---|---|---|---|
| wordscraper.py:101-106 | `leet_mutations` is assigned only under `if apply_leet`, but the suffix loop reads it under `if apply_chars` | any word with `apply_mutation` and `apply_chars` set and `apply_leet` unset: `UnboundLocalError` | suffix the word itself when leetspeak is off | high; not executed | Scenarios.SuffixesWithoutLeetRaise | Mutation.PasswordMutationIntended |
| wordscraper.py:109-110 | the symbol loop is outside the `for base` loop, so it only uses the last base | word "a" with all flags on, set iteration ending at "@": "a0" is produced, "a!" is not | every base gets every symbol suffix, like the digits | high; not executed | Scenarios.SymbolSuffixMissed | Mutation.PasswordMutationIntended |
