/**
 `password_mutation`: the case forms of a word, optionally its leetspeak
 expansions and digit/symbol suffixes, modelled as the code behaves,
 together with the behaviour its structure evidently intends.
 */
module Mutation {
  import opened Wrappers
  import opened Ascii
  import opened Leet

  /** The exception `password_mutation` can raise. */
  datatype MutationError =
    /** `leet_mutations` is read by the suffix loop without ever having been assigned. */
    | UnboundLeetMutations

  /** The characters appended by the digit loop, in order. */
  const Digits: seq<char> := ['0', '1', '2', '3', '4', '5', '6', '7', '8', '9']

  /** The characters appended by the symbol loop, in order. */
  const Symbols: seq<char> := [
    '!', '@', '#', '$', '%', '^', '&', '*', '(', ')', '-', '_', '+', '=', '[',
    ']', '{', '}', '|', '\\', ':', ';', '"', '\'', '<', '>', ',', '.', '?', '/'
  ]

  /** The three case forms every call starts from: `word`, `word.capitalize()`, `word.upper()`. */
  function CaseForms(word: string): (r: set<string>)
    ensures word in r && |r| <= 3
    ensures forall s :: s in r ==> |s| == |word| && Upper(s) == Upper(word)
  {
    CaseFormsAgreeUpperCased(word);
    {word, Capitalize(word), Upper(word)}
  }

  /** Every base followed by every suffix character. */
  function Suffixed(bases: set<string>, suffixes: seq<char>): set<string> {
    set b, x | b in bases && x in suffixes :: b + [x]
  }

  /** Every pairing of a base with a suffix is produced. */
  lemma SuffixedHas(bases: set<string>, suffixes: seq<char>)
    ensures forall b, x :: b in bases && x in suffixes ==> b + [x] in Suffixed(bases, suffixes)
  {
  }

  /** Nothing else is produced: each element splits into a base and a suffix. */
  lemma SuffixedOnly(bases: set<string>, suffixes: seq<char>, s: string)
    requires s in Suffixed(bases, suffixes)
    ensures |s| > 0 && s[..|s| - 1] in bases && s[|s| - 1] in suffixes
  {
    var b, x :| b in bases && x in suffixes && s == b + [x];
    assert s[..|s| - 1] == b;
  }

  /**
   `password_mutation(word, apply_mutation, apply_leet, apply_chars)`, with
   the returned list read as the set of its elements.

   The symbol loop sits after the loop over `leet_mutations`, so it only sees
   the loop variable's final value: `last`, the member of the (unordered)
   leet set that iteration visits last. Which member that is, Python does
   not specify, so it is a parameter here.
   */
  function PasswordMutation(word: string, applyMutation: bool, applyLeet: bool, applyChars: bool, last: string)
    : (r: Result<set<string>, MutationError>)
    requires applyMutation && applyLeet && applyChars ==> last in LeetTransformations(word, true)
    ensures r.Failure? <==> applyMutation && applyChars && !applyLeet
    ensures r.Success? ==> CaseForms(word) <= r.value
    ensures r.Success? && !applyMutation ==> r.value == CaseForms(word)
    ensures r.Success? && applyMutation && applyLeet ==> LeetTransformations(word, true) <= r.value
    ensures r.Success? && applyMutation && applyChars ==>
      && (forall b, d :: b in LeetTransformations(word, true) && d in Digits ==> b + [d] in r.value)
      && (forall x :: x in Symbols ==> last + [x] in r.value)
  {
    var mutation := CaseForms(word);
    if !applyMutation then Success(mutation)
    else
      var leetMutations := if applyLeet then Some(LeetTransformations(word, applyLeet)) else None;
      var mutation' := if applyLeet then mutation + leetMutations.value else mutation;
      if !applyChars then Success(mutation')
      else
        match leetMutations
        case None => Failure(UnboundLeetMutations)
        case Some(bases) => Success(mutation' + Suffixed(bases, Digits) + Suffixed({last}, Symbols))
  }

  /** The base set a suffix loop over all bases would use: the leet set, or just the word. */
  function Base(word: string, applyLeet: bool): (r: set<string>)
    ensures word in r
  {
    if applyLeet then LeetTransformations(word, true) else {word}
  }

  /**
   The evidently intended `password_mutation`: the symbol loop nested inside
   the loop over the bases, and the bases defined whether or not leetspeak
   is on. Every flag combination succeeds.
   */
  function PasswordMutationIntended(word: string, applyMutation: bool, applyLeet: bool, applyChars: bool)
    : (r: set<string>)
    ensures CaseForms(word) <= r
    ensures !applyMutation ==> r == CaseForms(word)
    ensures applyMutation && applyLeet ==> LeetTransformations(word, true) <= r
    ensures applyMutation && applyChars ==>
      forall b, x :: b in Base(word, applyLeet) && (x in Digits || x in Symbols) ==> b + [x] in r
  {
    var mutation := CaseForms(word);
    if !applyMutation then mutation
    else
      var bases := Base(word, applyLeet);
      var mutation' := if applyLeet then mutation + bases else mutation;
      if applyChars then mutation' + Suffixed(bases, Digits) + Suffixed(bases, Symbols) else mutation'
  }

  /** No digit is a symbol. */
  lemma DigitsAreNotSymbols(x: char)
    ensures !(x in Digits && x in Symbols)
  {
    assert x in Digits ==> '0' <= x <= '9';
    assert forall i :: 0 <= i < |Symbols| ==> !('0' <= Symbols[i] <= '9');
  }

  /**
   With all three flags on, a leet expansion followed by a symbol is produced
   exactly when that expansion is the one iterated last: every other base
   misses its symbol suffixes.
   */
  lemma SymbolsOnlyForLast(word: string, last: string, b: string, x: char)
    requires last in LeetTransformations(word, true)
    requires b in LeetTransformations(word, true) && x in Symbols
    ensures PasswordMutation(word, true, true, true, last).Success?
    ensures b + [x] in PasswordMutation(word, true, true, true, last).value <==> b == last
  {
    var s := b + [x];
    assert s[..|s| - 1] == b && s[|s| - 1] == x;
    if b == last {
      SuffixedHas({last}, Symbols);
    } else if s in PasswordMutation(word, true, true, true, last).value {
      var leet := LeetTransformations(word, true);
      assert PasswordMutation(word, true, true, true, last).value
        == CaseForms(word) + leet + Suffixed(leet, Digits) + Suffixed({last}, Symbols);
      forall t | t in leet
        ensures |t| == |word|
      {
        LeetTransformationsExact(word, t);
      }
      SuffixedMeans(leet, Digits, s);
      SuffixedMeans({last}, Symbols, s);
      SymbolSuffixedIsLast(|word|, CaseForms(word) + leet, leet, last, s);
    }
  }

  /** `s` is a base from `bases` followed by one character from `suffixes`. */
  predicate EndsWith(s: string, bases: set<string>, suffixes: seq<char>) {
    |s| > 0 && s[..|s| - 1] in bases && s[|s| - 1] in suffixes
  }

  /** The suffixed strings are exactly those that end with one of the suffixes after one of the bases. */
  lemma SuffixedMeans(bases: set<string>, suffixes: seq<char>, s: string)
    ensures s in Suffixed(bases, suffixes) <==> EndsWith(s, bases, suffixes)
  {
    if s in Suffixed(bases, suffixes) {
      SuffixedOnly(bases, suffixes, s);
    }
    if EndsWith(s, bases, suffixes) {
      assert s == s[..|s| - 1] + [s[|s| - 1]];
      SuffixedHas(bases, suffixes);
    }
  }

  /**
   A string one longer than the word and ending in a symbol is neither a
   plain form nor a base followed by a digit: it is `last` plus a symbol.
   */
  lemma SymbolSuffixedIsLast(n: nat, plain: set<string>, bases: set<string>, last: string, s: string)
    requires forall t :: t in plain ==> |t| == n
    requires s in plain || EndsWith(s, bases, Digits) || EndsWith(s, {last}, Symbols)
    requires |s| == n + 1 && s[|s| - 1] in Symbols
    ensures s[..|s| - 1] == last
  {
    if EndsWith(s, bases, Digits) {
      DigitsAreNotSymbols(s[|s| - 1]);
      assert false;
    } else if s in plain {
      assert false;
    }
  }

  /** Without the suffix flag the code and the intended definition agree. */
  lemma IntendedAgreesWithoutChars(word: string, applyMutation: bool, applyLeet: bool, last: string)
    ensures PasswordMutation(word, applyMutation, applyLeet, false, last)
      == Success(PasswordMutationIntended(word, applyMutation, applyLeet, false))
  {
  }

  /**
   Exactly what the intended mutation produces: a case form; with
   leetspeak, a keep-or-substitute spelling of the word; with suffixes, a
   base followed by one digit or symbol.
   */
  lemma IntendedMembership(word: string, applyMutation: bool, applyLeet: bool, applyChars: bool, s: string)
    ensures s in PasswordMutationIntended(word, applyMutation, applyLeet, applyChars) <==>
      || s in CaseForms(word)
      || (applyMutation && applyLeet && Variant(s, word))
      || (applyMutation && applyChars && EndsWith(s, Base(word, applyLeet), Digits + Symbols))
  {
    LeetTransformationsExact(word, s);
    SuffixedMeans(Base(word, applyLeet), Digits, s);
    SuffixedMeans(Base(word, applyLeet), Symbols, s);
  }

  /**
   Exactly what the code produces when it succeeds: a case form; with
   leetspeak, a keep-or-substitute spelling; with suffixes, a leet spelling
   followed by a digit, or `last` followed by a symbol.
   */
  lemma AsWrittenMembership(word: string, applyMutation: bool, applyLeet: bool, applyChars: bool, last: string, s: string)
    requires applyMutation && applyLeet && applyChars ==> last in LeetTransformations(word, true)
    requires applyMutation && applyChars ==> applyLeet  // exactly when the code succeeds
    ensures s in PasswordMutation(word, applyMutation, applyLeet, applyChars, last).value <==>
      || s in CaseForms(word)
      || (applyMutation && applyLeet && Variant(s, word))
      || (applyMutation && applyChars &&
          (EndsWith(s, LeetTransformations(word, true), Digits) || EndsWith(s, {last}, Symbols)))
  {
    LeetTransformationsExact(word, s);
    SuffixedMeans(LeetTransformations(word, true), Digits, s);
    SuffixedMeans({last}, Symbols, s);
  }

  /** Whenever the code succeeds, everything it produces is also intended. */
  lemma IntendedCoversAsWritten(word: string, applyMutation: bool, applyLeet: bool, applyChars: bool, last: string)
    requires applyMutation && applyLeet && applyChars ==> last in LeetTransformations(word, true)
    requires applyMutation && applyChars ==> applyLeet  // exactly when the code succeeds
    ensures PasswordMutation(word, applyMutation, applyLeet, applyChars, last).value
      <= PasswordMutationIntended(word, applyMutation, applyLeet, applyChars)
  {
    if applyMutation && applyChars {
      SuffixedGrows({last}, LeetTransformations(word, true), Symbols);
    }
  }

  /** More bases give more suffixed strings. */
  lemma SuffixedGrows(a: set<string>, b: set<string>, suffixes: seq<char>)
    requires a <= b
    ensures Suffixed(a, suffixes) <= Suffixed(b, suffixes)
  {
  }
}
