/**
 The word selection in `main`: the option check, the length filter and the
 longest-first top-N cut. The word set is given by the order in which Python
 iterates it, which the language leaves unspecified.
 */
module Select {
  import opened Wrappers
  import opened Collections
  import opened Crawler

  /** How `main` ends after selecting. */
  datatype Selection =
    /** `--length` and `--fixed-length` were both given: the error message, nothing crawled. */
    | Conflict
    /** No word survives the filter. */
    | NoWords
    /** `total` words survive; `words` are the ones printed, longest first. */
    | Top(total: nat, words: seq<Word>)

  /** Python truthiness of the `--fixed-length` option: given and non-zero. */
  predicate Truthy(fixedLength: Option<int>) {
    fixedLength.Some? && fixedLength.value != 0
  }

  /** Lines 153-157: the fixed-length filter wins; otherwise a positive minimum length; otherwise every word. */
  predicate Survives(w: Word, length: int, fixedLength: Option<int>) {
    if Truthy(fixedLength) then |w| == fixedLength.value
    else if length > 0 then |w| >= length
    else true
  }

  /** The surviving words, in iteration order. */
  function FilterWords(order: seq<Word>, length: int, fixedLength: Option<int>): (r: seq<Word>)
    ensures forall w :: w in r <==> w in order && Survives(w, length, fixedLength)
    ensures NoDup(order) ==> NoDup(r)
    ensures |r| <= |order|
  {
    if order == [] then []
    else if Survives(order[0], length, fixedLength) then [order[0]] + FilterWords(order[1..], length, fixedLength)
    else FilterWords(order[1..], length, fixedLength)
  }

  /** Longest first. */
  ghost predicate LongestFirst(s: seq<Word>) {
    forall i, j :: 0 <= i < j < |s| ==> |s[i]| >= |s[j]|
  }

  /** The words of `s` that have exactly `n` characters, in order. */
  function OfLength(s: seq<Word>, n: nat): seq<Word> {
    if s == [] then []
    else if |s[0]| == n then [s[0]] + OfLength(s[1..], n)
    else OfLength(s[1..], n)
  }

  /** Places `x` before the first word of `t` that is no longer than it. */
  function Insert(x: Word, t: seq<Word>): (r: seq<Word>)
    requires LongestFirst(t)
    ensures LongestFirst(r)
    ensures multiset(r) == multiset{x} + multiset(t)
    ensures forall n: nat :: OfLength(r, n) == (if |x| == n then [x] else []) + OfLength(t, n)
  {
    if t == [] || |x| >= |t[0]| then
      assert forall n: nat :: OfLength([x] + t, n) == (if |x| == n then [x] else []) + OfLength(t, n) by {
        forall n: nat
          ensures OfLength([x] + t, n) == (if |x| == n then [x] else []) + OfLength(t, n)
        {
          assert ([x] + t)[1..] == t;
        }
      }
      [x] + t
    else
      var rest := Insert(x, t[1..]);
      InsertBehind(x, t, rest);
      [t[0]] + rest
  }

  /** Inserting behind a longer head word keeps the head in front and the other facts of `Insert`. */
  lemma InsertBehind(x: Word, t: seq<Word>, rest: seq<Word>)
    requires LongestFirst(t) && t != [] && |x| < |t[0]|
    requires LongestFirst(rest)
    requires multiset(rest) == multiset{x} + multiset(t[1..])
    requires forall n: nat :: OfLength(rest, n) == (if |x| == n then [x] else []) + OfLength(t[1..], n)
    ensures LongestFirst([t[0]] + rest)
    ensures multiset([t[0]] + rest) == multiset{x} + multiset(t)
    ensures forall n: nat :: OfLength([t[0]] + rest, n) == (if |x| == n then [x] else []) + OfLength(t, n)
  {
    HeadInFront(x, t, rest);
    HeadMultiset(t);
    OfLengthBehind(x, t, rest);
  }

  lemma HeadMultiset(t: seq<Word>)
    requires t != []
    ensures multiset(t) == multiset{t[0]} + multiset(t[1..])
  {
    assert t == [t[0]] + t[1..];
  }

  lemma OfLengthBehind(x: Word, t: seq<Word>, rest: seq<Word>)
    requires t != [] && |x| < |t[0]|
    requires forall n: nat :: OfLength(rest, n) == (if |x| == n then [x] else []) + OfLength(t[1..], n)
    ensures forall n: nat :: OfLength([t[0]] + rest, n) == (if |x| == n then [x] else []) + OfLength(t, n)
  {
    forall n: nat
      ensures OfLength([t[0]] + rest, n) == (if |x| == n then [x] else []) + OfLength(t, n)
    {
      OfLengthCons(t[0], rest, n);
      OfLengthCons(t[0], t[1..], n);
      assert [t[0]] + t[1..] == t;
    }
  }

  /** `OfLength` of a sequence with a given head. */
  lemma OfLengthCons(a: Word, s: seq<Word>, n: nat)
    ensures OfLength([a] + s, n) == (if |a| == n then [a] else []) + OfLength(s, n)
  {
    assert ([a] + s)[1..] == s;
  }

  /** No word of `rest` is longer than the head of `t`. */
  lemma HeadInFront(x: Word, t: seq<Word>, rest: seq<Word>)
    requires LongestFirst(t) && t != [] && |x| < |t[0]|
    requires LongestFirst(rest)
    requires multiset(rest) == multiset{x} + multiset(t[1..])
    ensures LongestFirst([t[0]] + rest)
  {
    forall y | y in rest
      ensures |y| <= |t[0]|
    {
      assert y in multiset(rest);
      if y != x {
        assert y in multiset(t[1..]);
        var k :| 0 <= k < |t[1..]| && t[1..][k] == y;
        assert t[k + 1] == y;
      }
    }
    var r := [t[0]] + rest;
    forall i, j | 0 <= i < j < |r|
      ensures |r[i]| >= |r[j]|
    {
      if i == 0 {
        assert r[j] in rest;
      } else {
        assert r[i] == rest[i - 1] && r[j] == rest[j - 1];
      }
    }
  }

  /**
   `sorted(..., key=len, reverse=True)`: a stable sort, longest first. Words
   of equal length keep their relative order.
   */
  function SortByLength(s: seq<Word>): (r: seq<Word>)
    ensures LongestFirst(r)
    ensures multiset(r) == multiset(s)
    ensures forall n: nat :: OfLength(r, n) == OfLength(s, n)
  {
    if s == [] then []
    else
      assert s == [s[0]] + s[1..];
      Insert(s[0], SortByLength(s[1..]))
  }

  /** How many of `n` items `[:count]` keeps: at most `count`, or all but the last `-count` when negative. */
  function SliceLength(n: nat, count: int): nat {
    if count >= 0 then (if count < n then count else n)
    else (if -count < n then n + count else 0)
  }

  /** Python's `s[:count]`: a negative `count` drops that many words from the end. */
  function Slice(s: seq<Word>, count: int): (r: seq<Word>)
    ensures r <= s
    ensures |r| == SliceLength(|s|, count)
  {
    if count >= 0 then (if count < |s| then s[..count] else s)
    else (if -count < |s| then s[..|s| + count] else [])
  }

  /**
   Lines 139-165 of `main`: reject the two length options together, filter,
   report an empty survivor set, otherwise sort longest first and keep the
   first `count`.
   */
  function SelectTop(order: seq<Word>, length: int, fixedLength: Option<int>, count: int): (r: Selection)
    ensures r.Conflict? <==> length > 0 && Truthy(fixedLength)
    ensures r.NoWords? <==> !r.Conflict? && forall w :: w in order ==> !Survives(w, length, fixedLength)
    ensures r.Top? ==> r.total == |FilterWords(order, length, fixedLength)|
    ensures r.Top? ==> LongestFirst(r.words)
    ensures r.Top? ==> forall w :: w in r.words ==> w in order && Survives(w, length, fixedLength)
    ensures r.Top? ==> |r.words| == SliceLength(r.total, count)
    ensures r.Top? ==> forall n: nat :: OfLength(r.words, n) <= OfLength(FilterWords(order, length, fixedLength), n)
  {
    if length > 0 && Truthy(fixedLength) then Conflict
    else
      var survivors := FilterWords(order, length, fixedLength);
      if |survivors| == 0 then NoWords
      else
        assert survivors[0] in survivors;
        TopKeepsTies(survivors, count);
        Top(|survivors|, Slice(SortByLength(survivors), count))
  }

  /**
   The cut of the sorted survivors: longest first, drawn from the survivors,
   as long as the slice, and with each length's words in survivor order.
   */
  lemma TopKeepsTies(survivors: seq<Word>, count: int)
    ensures var top := Slice(SortByLength(survivors), count);
      && LongestFirst(top)
      && (forall w :: w in top ==> w in survivors)
      && |top| == SliceLength(|survivors|, count)
      && (forall n: nat :: OfLength(top, n) <= OfLength(survivors, n))
  {
    var sorted := SortByLength(survivors);
    var top := Slice(sorted, count);
    PrefixOfPermutation(survivors, sorted, top);
    forall n: nat
      ensures OfLength(top, n) <= OfLength(survivors, n)
    {
      OfLengthPrefix(top, sorted, n);
    }
  }

  /** A prefix of a longest-first permutation of `s` is longest first, drawn from `s`, and no longer than it. */
  lemma PrefixOfPermutation(s: seq<Word>, sorted: seq<Word>, top: seq<Word>)
    requires LongestFirst(sorted) && multiset(sorted) == multiset(s) && top <= sorted
    ensures LongestFirst(top)
    ensures forall w :: w in top ==> w in s
    ensures |sorted| == |s|
  {
    assert |sorted| == |multiset(sorted)| == |multiset(s)| == |s|;
    forall w | w in top
      ensures w in s
    {
      assert w in sorted;
      assert w in multiset(sorted);
    }
    forall i, j | 0 <= i < j < |top|
      ensures |top[i]| >= |top[j]|
    {
      assert top[i] == sorted[i] && top[j] == sorted[j];
    }
  }

  /** The words of one length in a prefix are a prefix of those in the whole sequence. */
  lemma {:induction false} OfLengthPrefix(p: seq<Word>, s: seq<Word>, n: nat)
    requires p <= s
    ensures OfLength(p, n) <= OfLength(s, n)
  {
    if p != [] {
      assert p[1..] <= s[1..];
      OfLengthPrefix(p[1..], s[1..], n);
    }
  }

  /** `SelectTop` once the filter and the sort are known. */
  lemma SelectTopIs(order: seq<Word>, length: int, fixedLength: Option<int>, count: int, survivors: seq<Word>, sorted: seq<Word>)
    requires !(length > 0 && Truthy(fixedLength))
    requires FilterWords(order, length, fixedLength) == survivors && survivors != []
    requires SortByLength(survivors) == sorted
    ensures SelectTop(order, length, fixedLength, count) == Top(|survivors|, Slice(sorted, count))
  {
  }

  /** The printed words are the longest survivors: a survivor left out is no longer than any printed word. */
  lemma SelectTopLongest(order: seq<Word>, length: int, fixedLength: Option<int>, count: int, v: Word, w: Word)
    requires SelectTop(order, length, fixedLength, count).Top?
    requires v in SelectTop(order, length, fixedLength, count).words
    requires w in order && Survives(w, length, fixedLength)
    requires w !in SelectTop(order, length, fixedLength, count).words
    ensures |w| <= |v|
  {
    var sorted := SortByLength(FilterWords(order, length, fixedLength));
    assert w in multiset(FilterWords(order, length, fixedLength));
    assert w in multiset(sorted);
    PrefixIsLongest(sorted, Slice(sorted, count), v, w);
  }

  /** In a longest-first sequence, a word outside a prefix is no longer than any word inside it. */
  lemma PrefixIsLongest(sorted: seq<Word>, top: seq<Word>, v: Word, w: Word)
    requires LongestFirst(sorted) && top <= sorted
    requires v in top && w in sorted && w !in top
    ensures |w| <= |v|
  {
    var j :| 0 <= j < |sorted| && sorted[j] == w;
    var i :| 0 <= i < |top| && top[i] == v;
    assert j >= |top|;
    assert sorted[i] == v;
  }

  /** When `count` reaches the number of survivors, every survivor is printed, each once. */
  lemma SelectTopAll(order: seq<Word>, length: int, fixedLength: Option<int>, count: int)
    requires SelectTop(order, length, fixedLength, count).Top?
    requires count >= SelectTop(order, length, fixedLength, count).total
    ensures multiset(SelectTop(order, length, fixedLength, count).words) == multiset(FilterWords(order, length, fixedLength))
  {
  }

  /**
   Iterating a set gives distinct words, so the printed words are distinct and
   `total` is the number of distinct survivors.
   */
  lemma SelectTopDistinct(order: seq<Word>, length: int, fixedLength: Option<int>, count: int)
    requires NoDup(order)
    requires SelectTop(order, length, fixedLength, count).Top?
    ensures NoDup(SelectTop(order, length, fixedLength, count).words)
    ensures SelectTop(order, length, fixedLength, count).total == |set w | w in order && Survives(w, length, fixedLength)|
  {
    var survivors := FilterWords(order, length, fixedLength);
    var sorted := SortByLength(survivors);
    NoDupPermutation(survivors, sorted);
    NoDupPrefix(Slice(sorted, count), sorted);
    NoDupCard(survivors);
    assert Elems(survivors) == set w | w in order && Survives(w, length, fixedLength);
  }
}
