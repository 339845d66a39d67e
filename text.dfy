/**
 * Character classes and case mapping, restricted to ASCII.
 *
 * The store compares names through a database `Lower(...)`, the file-size
 * validator upper-cases its unit and the password validators ask
 * `isupper()`/`islower()` of each character. Here all of these are the ASCII
 * versions; other scripts have no case in this model.
 */
module Text {

  predicate IsUpper(c: char) { 'A' <= c <= 'Z' }

  predicate IsLower(c: char) { 'a' <= c <= 'z' }

  function LowerChar(c: char): (r: char)
    ensures !IsUpper(r)
    ensures IsUpper(c) ==> IsLower(r) && r as int == c as int + 32
    ensures !IsUpper(c) ==> r == c
  {
    if IsUpper(c) then (c as int + 32) as char else c
  }

  function UpperChar(c: char): (r: char)
    ensures !IsLower(r)
    ensures IsLower(c) ==> IsUpper(r) && r as int == c as int - 32
    ensures !IsLower(c) ==> r == c
  {
    if IsLower(c) then (c as int - 32) as char else c
  }

  /** The case-insensitive key of a text: every letter lower-cased. */
  function Lower(s: string): (r: string)
    ensures |r| == |s|
  {
    if s == [] then [] else [LowerChar(s[0])] + Lower(s[1..])
  }

  /** Each character of the key is the lower-cased character of the text. */
  lemma {:induction false} LowerAt(s: string, i: nat)
    requires i < |s|
    ensures Lower(s)[i] == LowerChar(s[i])
  {
    if i > 0 {
      LowerAt(s[1..], i - 1);
    }
  }

  function Upper(s: string): (r: string)
    ensures |r| == |s|
    ensures forall i :: 0 <= i < |s| ==> r[i] == UpperChar(s[i])
  {
    seq(|s|, i requires 0 <= i < |s| => UpperChar(s[i]))
  }

  /** Two texts that differ only in letter case have the same key. */
  predicate SameIgnoringCase(a: string, b: string) { Lower(a) == Lower(b) }

  /** Folding is idempotent, so a key is its own key. */
  lemma {:induction false} LowerIdempotent(s: string)
    ensures Lower(Lower(s)) == Lower(s)
  {
    if s != [] {
      LowerIdempotent(s[1..]);
      assert Lower(s)[1..] == Lower(s[1..]);
    }
  }

  /** Characters that differ only in case fold to the same key; any other two characters keep distinct keys. */
  lemma LowerCharCollides(c: char, d: char)
    ensures LowerChar(c) == LowerChar(d) <==> c == d || (IsUpper(c) && d as int == c as int + 32) || (IsUpper(d) && c as int == d as int + 32)
  {
  }
}
