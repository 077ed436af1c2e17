/**
 Python's `str.lower`, `str.upper` and `str.capitalize`, restricted to the
 ASCII letters: every other character is left as it is.
 */
module Ascii {

  predicate IsLowerLetter(c: char) {
    'a' <= c <= 'z'
  }

  predicate IsUpperLetter(c: char) {
    'A' <= c <= 'Z'
  }

  predicate IsLetter(c: char) {
    IsLowerLetter(c) || IsUpperLetter(c)
  }

  /** Lower-cases one character. */
  function LowerChar(c: char): (r: char)
    ensures !IsUpperLetter(r)
    ensures IsLetter(c) <==> IsLetter(r)
    ensures !IsUpperLetter(c) ==> r == c
    ensures UpperChar(r) == UpperChar(c)
  {
    if IsUpperLetter(c) then (c as int + 32) as char else c
  }

  /** Upper-cases one character. */
  function UpperChar(c: char): (r: char)
    ensures !IsLowerLetter(r)
    ensures IsLetter(c) <==> IsLetter(r)
    ensures !IsLowerLetter(c) ==> r == c
  {
    if IsLowerLetter(c) then (c as int - 32) as char else c
  }

  /** `s.lower()` */
  function Lower(s: string): (r: string)
    ensures |r| == |s|
    ensures forall i :: 0 <= i < |s| ==> r[i] == LowerChar(s[i])
  {
    if s == [] then [] else [LowerChar(s[0])] + Lower(s[1..])
  }

  /** `s.upper()` */
  function Upper(s: string): (r: string)
    ensures |r| == |s|
    ensures forall i :: 0 <= i < |s| ==> r[i] == UpperChar(s[i])
  {
    if s == [] then [] else [UpperChar(s[0])] + Upper(s[1..])
  }

  /** `s.capitalize()`: the first character upper-cased and every other one lower-cased. */
  function Capitalize(s: string): (r: string)
    ensures |r| == |s|
    ensures s != [] ==> r[0] == UpperChar(s[0]) && r[1..] == Lower(s[1..])
  {
    if s == [] then [] else [UpperChar(s[0])] + Lower(s[1..])
  }

  /** The ASCII alphabet in each case, letter for letter. */
  const LowerLetters: string := "abcdefghijklmnopqrstuvwxyz"
  const UpperLetters: string := "ABCDEFGHIJKLMNOPQRSTUVWXYZ"

  /** Each letter changes case to its own counterpart: the `i`-th lower-case letter to the `i`-th capital and back. */
  lemma CaseAlphabet(i: nat)
    requires i < |LowerLetters|
    ensures UpperChar(LowerLetters[i]) == UpperLetters[i]
    ensures LowerChar(UpperLetters[i]) == LowerLetters[i]
  {
  }

  /** Upper-casing a lower-case letter and lower-casing it again gives it back, and the other way round. */
  lemma CaseRoundTrip(c: char)
    ensures IsLowerLetter(c) ==> IsUpperLetter(UpperChar(c)) && LowerChar(UpperChar(c)) == c
    ensures IsUpperLetter(c) ==> IsLowerLetter(LowerChar(c)) && UpperChar(LowerChar(c)) == c
  {
  }

  /** Upper-casing forgets any earlier lower-casing. */
  lemma UpperOfLower(s: string)
    ensures Upper(Lower(s)) == Upper(s)
  {
  }

  /** A word, its capitalisation and its upper-case form agree once upper-cased. */
  lemma CaseFormsAgreeUpperCased(s: string)
    ensures Upper(Capitalize(s)) == Upper(s)
    ensures Upper(Upper(s)) == Upper(s)
  {
    if s != [] {
      UpperOfLower(s[1..]);
      assert Upper(Capitalize(s))[1..] == Upper(Lower(s[1..]));
    }
  }
}
