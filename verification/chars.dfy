/**
 Character classes used by the text cleaner and the hashtag tokenizer, fixed to
 ASCII, together with ASCII lowercasing and the greedy "longest run" scan that
 regular-expression quantifiers such as `\S+` and `\w+` perform.
 */
module Chars {

  /** Whitespace as Python's `\s` and `str.split()` see it on ASCII: space,
      the controls \t \n \v \f \r (9..13) and the separators \x1c..\x1f. */
  predicate IsSpace(c: char): (b: bool)
    ensures b && c != ' ' ==> !IsKept(c)
  {
    c == ' ' || (9 <= c as int <= 13) || (28 <= c as int <= 31)
  }

  predicate NonSpace(c: char) {
    !IsSpace(c)
  }

  predicate IsUpper(c: char) {
    'A' <= c <= 'Z'
  }

  predicate IsLower(c: char) {
    'a' <= c <= 'z'
  }

  predicate IsDigit(c: char) {
    '0' <= c <= '9'
  }

  /** A regular-expression word character `\w`, restricted to ASCII. */
  predicate IsWord(c: char): (b: bool)
    ensures b ==> NonSpace(c)
    ensures b ==> (IsKept(c) <==> c != '_')
  {
    IsUpper(c) || IsLower(c) || IsDigit(c) || c == '_'
  }

  /** The class `[A-Za-z0-9 ]` that the punctuation pass keeps. */
  predicate IsKept(c: char) {
    IsUpper(c) || IsLower(c) || IsDigit(c) || c == ' '
  }

  /** The alphabet of cleaned text: lowercase letters, digits and the space. */
  predicate IsCleanChar(c: char) {
    IsLower(c) || IsDigit(c) || c == ' '
  }

  function LowerChar(c: char): (d: char)
    ensures IsUpper(c) ==> IsLower(d) && d as int == c as int + 32
    ensures !IsUpper(c) ==> d == c
  {
    if IsUpper(c) then (c as int + 32) as char else c
  }

  /** `str.lower()` on ASCII: uppercase letters become lowercase, every other
      character is left as it is. */
  function Lower(s: string): (r: string)
    ensures |r| == |s|
    ensures forall i :: 0 <= i < |s| ==> r[i] == LowerChar(s[i])
    ensures forall i :: 0 <= i < |r| ==> !IsUpper(r[i])
    ensures forall c :: !IsUpper(c) && !IsLower(c) ==> multiset(r)[c] == multiset(s)[c]
  {
    if s == [] then []
    else
      assert s == [s[0]] + s[1..];
      [LowerChar(s[0])] + Lower(s[1..])
  }

  /** `Lower` is determined by its character-wise contract. */
  lemma LowerIs(s: string, t: string)
    requires |t| == |s| && forall i :: 0 <= i < |s| ==> t[i] == LowerChar(s[i])
    ensures Lower(s) == t
  {
  }

  /** The length of the longest prefix of `s` whose characters all satisfy `p`:
      the extent of a greedy `p+` match started at the front of `s`. */
  function Span(s: string, p: char -> bool): (n: nat)
    ensures n <= |s|
    ensures forall i :: 0 <= i < n ==> p(s[i])
    ensures n < |s| ==> !p(s[n])
  {
    if s == [] || !p(s[0]) then 0 else 1 + Span(s[1..], p)
  }

  // ---------------------------------------------------------------------------
  // Sequence facts shared by the text and token proofs

  lemma ConcatAssoc<T>(x: seq<T>, y: seq<T>, z: seq<T>)
    ensures x + (y + z) == (x + y) + z
  {
  }

  lemma DropConcat<T>(a: seq<T>, b: seq<T>)
    requires a != []
    ensures (a + b)[1..] == a[1..] + b
  {
  }

  lemma DropDrop<T>(s: seq<T>, k: nat)
    requires 1 <= k <= |s|
    ensures s[1..][k - 1..] == s[k..]
  {
  }

  lemma TakeDrop<T>(s: seq<T>, n: nat)
    requires n <= |s|
    ensures s[..n] + s[n..] == s
  {
  }
}
