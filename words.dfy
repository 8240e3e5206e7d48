// Words, letters and case: the vocabulary shared by the scorer, the filter
// and the guess validator. Only the ASCII letters count as letters here.
module Words {

  /** Every word of both word lists has this many letters. */
  const WordLength: nat := 5

  /** An ASCII letter, upper or lower case (the letters `str.isalpha` accepts here). */
  predicate IsLetter(c: char)
  {
    ('A' <= c <= 'Z') || ('a' <= c <= 'z')
  }

  /** `str.isalpha` restricted to ASCII: a non-empty string of letters. */
  predicate AllLetters(s: string)
  {
    |s| > 0 && forall i :: 0 <= i < |s| ==> IsLetter(s[i])
  }

  /** Upper-casing of one character; anything but `a`..`z` is left alone. */
  function ToUpper(c: char): (u: char)
    ensures IsLetter(c) <==> IsLetter(u)
    ensures 'a' <= c <= 'z' ==> 'A' <= u <= 'Z' && u as int + 32 == c as int
    ensures !('a' <= c <= 'z') ==> u == c
  {
    if 'a' <= c <= 'z' then (c as int - 32) as char else c
  }

  /** `str.upper`, character by character. */
  function Upper(s: string): (u: string)
    ensures |u| == |s|
    ensures forall i :: 0 <= i < |s| ==> u[i] == ToUpper(s[i])
  {
    seq(|s|, i requires 0 <= i < |s| => ToUpper(s[i]))
  }

  /** Upper-casing is idempotent and keeps a string all letters exactly when it was. */
  lemma UpperIdempotent(s: string)
    ensures Upper(Upper(s)) == Upper(s)
    ensures AllLetters(Upper(s)) <==> AllLetters(s)
  {
  }

  /** Every word of the list can be indexed at positions 0..4. */
  predicate AtLeastWordLength(d: seq<string>)
  {
    forall w :: w in d ==> |w| >= WordLength
  }
}
