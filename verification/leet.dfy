/**
 Leetspeak expansion (`LEET_MAP` and `leet_transformations`): every string
 obtained by keeping each character or replacing it with one of the
 substitutes registered for its lower-cased form.
 */
module Leet {
  import opened Ascii
  import opened Collections

  /** `LEET_MAP`: a lower-case letter and its substitutes, in table order. */
  const LeetMap: map<char, seq<char>> := map[
    'a' := ['4', '@'],
    'e' := ['3'],
    'i' := ['1', '!'],
    'o' := ['0'],
    's' := ['5', '$'],
    't' := ['7'],
    'b' := ['8'],
    'g' := ['6'],
    'q' := ['9'],
    'z' := ['2']
  ]

  /** The substitutes of `c`, looked up under `c.lower()`; none when it is not in the table. */
  function Subs(c: char): seq<char> {
    if LowerChar(c) in LeetMap then LeetMap[LowerChar(c)] else []
  }

  /** The options tried at one position, in the order `helper` tries them. */
  function Choices(c: char): seq<char> {
    [c] + Subs(c)
  }

  /** `s` is one of the expansions of `w`: same length, and every position keeps or substitutes. */
  ghost predicate Variant(s: string, w: string) {
    |s| == |w| && forall i :: 0 <= i < |w| ==> s[i] in Choices(w[i])
  }

  /** The number of expansions of `w`: one factor `1 + |substitutes|` per character. */
  function Product(w: string): (n: nat)
    ensures n >= 1
  {
    if w == [] then 1 else |Choices(w[0])| * Product(w[1..])
  }

  /** The table is keyed by lower-case letters and substitutes letters by distinct non-letters. */
  lemma LeetMapShape()
    ensures forall k :: k in LeetMap ==> IsLowerLetter(k)
    ensures forall k :: k in LeetMap ==> NoDup(LeetMap[k]) && forall x :: x in LeetMap[k] ==> !IsLetter(x)
  {
  }

  /** No option is tried twice at a position. */
  lemma ChoicesNoDup(c: char)
    ensures NoDup(Choices(c))
  {
    LeetMapShape();
    if LowerChar(c) in LeetMap {
      assert IsLetter(c);
    }
  }

  /** `e` is `prefix` followed by one of the expansions of `w`. */
  ghost predicate Expands(e: string, prefix: string, w: string) {
    |e| == |prefix| + |w| && e[..|prefix|] == prefix && Variant(e[|prefix|..], w)
  }

  /** An expansion of the rest after choosing option `e[|prefix|]` is an expansion of the whole. */
  lemma ExpandsCons(e: string, prefix: string, c: char, rest: string)
    requires |e| > |prefix| && e[|prefix|] in Choices(c)
    requires Expands(e, prefix + [e[|prefix|]], rest)
    ensures Expands(e, prefix, [c] + rest)
  {
    var p := |prefix|;
    assert e[..p] == e[..p + 1][..p];
    forall i | 0 <= i < |[c] + rest|
      ensures e[p..][i] in Choices(([c] + rest)[i])
    {
      if i > 0 {
        assert e[p..][i] == e[p + 1..][i - 1];
      }
    }
  }

  /** Strings extending `prefix + [o]` carry `o` right after `prefix`. */
  lemma ExpandsHead(e: string, prefix: string, o: char, rest: string)
    requires Expands(e, prefix + [o], rest)
    ensures |e| > |prefix| && e[|prefix|] == o
  {
    assert e[|prefix|] == e[..|prefix| + 1][|prefix|];
  }

  /**
   `helper(prefix, remaining)`, as the sequence of strings it adds to
   `transformations`, in the order of its calls.
   */
  function Helper(prefix: string, remaining: string): (r: seq<string>)
    ensures |r| == Product(remaining)
    ensures NoDup(r)
    ensures forall e :: e in r ==> Expands(e, prefix, remaining)
    decreases |remaining|, 0
  {
    if remaining == [] then
      assert prefix[|prefix|..] == [];
      [prefix]
    else
      ChoicesNoDup(remaining[0]);
      var r := HelperEach(prefix, Choices(remaining[0]), remaining[1..]);
      assert forall e :: e in r ==> Expands(e, prefix, remaining) by {
        forall e | e in r
          ensures Expands(e, prefix, remaining)
        {
          ExpandsCons(e, prefix, remaining[0], remaining[1..]);
          assert [remaining[0]] + remaining[1..] == remaining;
        }
      }
      r
  }

  /** The calls of `helper` for each option of the current position, one after another. */
  function HelperEach(prefix: string, options: seq<char>, rest: string): (r: seq<string>)
    ensures |r| == |options| * Product(rest)
    ensures NoDup(options) ==> NoDup(r)
    ensures forall e :: e in r ==>
      |e| > |prefix| && e[|prefix|] in options && Expands(e, prefix + [e[|prefix|]], rest)
    decreases |rest|, |options|
  {
    if options == [] then []
    else
      var here := Helper(prefix + [options[0]], rest);
      var later := HelperEach(prefix, options[1..], rest);
      HelperEachJoin(prefix, options, rest, here, later);
      here + later
  }

  /** The strings for the first option followed by those for the others meet `HelperEach`'s contract. */
  lemma HelperEachJoin(prefix: string, options: seq<char>, rest: string, here: seq<string>, later: seq<string>)
    requires options != []
    requires |here| == Product(rest) && NoDup(here)
    requires forall e :: e in here ==> Expands(e, prefix + [options[0]], rest)
    requires |later| == (|options| - 1) * Product(rest)
    requires NoDup(options[1..]) ==> NoDup(later)
    requires forall e :: e in later ==>
      |e| > |prefix| && e[|prefix|] in options[1..] && Expands(e, prefix + [e[|prefix|]], rest)
    ensures |here + later| == |options| * Product(rest)
    ensures NoDup(options) ==> NoDup(here + later)
    ensures forall e :: e in here + later ==>
      |e| > |prefix| && e[|prefix|] in options && Expands(e, prefix + [e[|prefix|]], rest)
  {
    forall e | e in here
      ensures |e| > |prefix| && e[|prefix|] == options[0]
    {
      ExpandsHead(e, prefix, options[0], rest);
    }
    assert |options| * Product(rest) == Product(rest) + (|options| - 1) * Product(rest);
    assert forall e :: e in here + later ==> e in here || e in later;
    if NoDup(options) {
      assert NoDup(options[1..]);
      NoDupAppend(here, later);
    }
  }

  /** `leet_transformations(word, apply_leet)` */
  function LeetTransformations(word: string, applyLeet: bool): (r: set<string>)
    ensures word in r
    ensures !applyLeet ==> r == {word}
  {
    if !applyLeet then {word} else {word} + Elems(Helper([], word))
  }

  /** Every keep-or-substitute choice is produced by `helper`. */
  lemma {:induction false} HelperComplete(prefix: string, remaining: string, s: string)
    requires Variant(s, remaining)
    ensures prefix + s in Helper(prefix, remaining)
    decreases |remaining|, 0
  {
    if remaining == [] {
      assert s == [] && prefix + s == prefix;
    } else {
      VariantTail(s, remaining);
      HelperEachComplete(prefix, Choices(remaining[0]), remaining[1..], s[0], s[1..]);
      ConsSplit(prefix, s);
    }
  }

  lemma ConsSplit(prefix: string, s: string)
    requires s != []
    ensures prefix + [s[0]] + s[1..] == prefix + s
  {
    assert s == [s[0]] + s[1..];
  }

  /** Dropping the first position of an expansion leaves an expansion of the rest. */
  lemma VariantTail(s: string, w: string)
    requires Variant(s, w) && w != []
    ensures s[0] in Choices(w[0]) && Variant(s[1..], w[1..])
  {
    forall i | 0 <= i < |w[1..]|
      ensures s[1..][i] in Choices(w[1..][i])
    {
      assert s[1..][i] == s[i + 1] && w[1..][i] == w[i + 1];
    }
  }

  lemma {:induction false} HelperEachComplete(prefix: string, options: seq<char>, rest: string, o: char, t: string)
    requires o in options && Variant(t, rest)
    ensures prefix + [o] + t in HelperEach(prefix, options, rest)
    decreases |rest|, |options|
  {
    if options[0] == o {
      HelperComplete(prefix + [o], rest, t);
    } else {
      HelperEachComplete(prefix, options[1..], rest, o, t);
    }
  }

  /** With substitution on, the result is exactly the set of keep-or-substitute choices. */
  lemma LeetTransformationsExact(word: string, s: string)
    ensures s in LeetTransformations(word, true) <==> Variant(s, word)
  {
    if s in LeetTransformations(word, true) && s != word {
      var e :| e in Helper([], word) && e == s;
      assert e[0..] == e;
    }
    if Variant(s, word) {
      HelperComplete([], word, s);
      assert [] + s == s;
    }
  }

  /** With substitution on, there are exactly `Product(word)` distinct expansions. */
  lemma LeetTransformationsSize(word: string)
    ensures |LeetTransformations(word, true)| == Product(word)
  {
    HelperComplete([], word, word);
    assert [] + word == word;
    assert LeetTransformations(word, true) == Elems(Helper([], word));
    NoDupCard(Helper([], word));
  }
}
