// The feedback scorer's specification: a closed-form description of the
// C/M/W string that `generate_feedback` produces, and the properties the
// game relies on (exact matches, the per-letter budget, leftmost-first
// misplaced marks).
module Scoring {

  /** How many times `c` occurs in `s` (the solution's letter dictionary). */
  function Count(s: string, c: char): nat
  {
    if |s| == 0 then 0
    else Count(s[..|s| - 1], c) + (if s[|s| - 1] == c then 1 else 0)
  }

  /** Positions below `m` where guess and solution agree on the letter `c`. */
  function Exact(g: string, s: string, c: char, m: nat): nat
    requires m <= |g| && m <= |s|
  {
    if m == 0 then 0
    else Exact(g, s, c, m - 1) + (if g[m - 1] == c && s[m - 1] == c then 1 else 0)
  }

  /** Positions below `m` holding `c` in the guess but not in the solution. */
  function NonExact(g: string, s: string, c: char, m: nat): nat
    requires m <= |g| && m <= |s|
  {
    if m == 0 then 0
    else NonExact(g, s, c, m - 1) + (if g[m - 1] == c && s[m - 1] != c then 1 else 0)
  }

  /** Copies of `c` in the solution left over once the exact matches are paid for. */
  function Avail(g: string, s: string, c: char): int
    requires |g| >= 5 && |s| >= 5
  {
    Count(s, c) - Exact(g, s, c, 5)
  }

  /**
   * The verdict at position `i`: `C` on an exact match; otherwise `M` when
   * fewer earlier non-exact copies of the same letter than there are spare
   * copies in the solution, else `W`.
   */
  function Verdict(g: string, s: string, i: nat): char
    requires |g| >= 5 && |s| >= 5 && i < 5
  {
    if g[i] == s[i] then 'C'
    else if NonExact(g, s, g[i], i) < Avail(g, s, g[i]) then 'M'
    else 'W'
  }

  /** The feedback string for guessing `g` against solution `s`. */
  function Feedback(g: string, s: string): (r: string)
    requires |g| >= 5 && |s| >= 5
    ensures |r| == 5
    ensures forall i :: 0 <= i < 5 ==> r[i] in {'C', 'M', 'W'}
    ensures forall i :: 0 <= i < 5 ==> (r[i] == 'C' <==> g[i] == s[i])
  {
    seq(5, i requires 0 <= i < 5 => Verdict(g, s, i))
  }

  // ---------------------------------------------------------------------------
  // Counting facts

  lemma {:induction false} CountPositive(s: string, c: char)
    ensures c in s <==> Count(s, c) > 0
  {
    if |s| > 0 {
      CountPositive(s[..|s| - 1], c);
      assert s == s[..|s| - 1] + [s[|s| - 1]];
      assert c in s <==> c in s[..|s| - 1] || c == s[|s| - 1];
    }
  }

  /** Extending a prefix of `s` by one letter counts that letter once more. */
  lemma CountExtend(s: string, k: nat)
    requires k < |s|
    ensures forall c :: Count(s[..k + 1], c) == Count(s[..k], c) + (if s[k] == c then 1 else 0)
  {
    assert s[..k + 1][..k] == s[..k];
  }

  lemma {:induction false} CountPrefix(s: string, c: char, m: nat)
    requires m <= |s|
    ensures Count(s[..m], c) <= Count(s, c)
  {
    if m < |s| {
      CountPrefix(s[..|s| - 1], c, m);
      assert s[..|s| - 1][..m] == s[..m];
    } else {
      assert s[..m] == s;
    }
  }

  lemma {:induction false} ExactBelowCount(g: string, s: string, c: char, m: nat)
    requires m <= |g| && m <= |s|
    ensures Exact(g, s, c, m) <= Count(s[..m], c)
  {
    if m > 0 {
      ExactBelowCount(g, s, c, m - 1);
      assert s[..m][..m - 1] == s[..m - 1];
    }
  }

  /** The exact matches of a letter never exceed its copies in the solution. */
  lemma AvailNonNegative(g: string, s: string, c: char)
    requires |g| >= 5 && |s| >= 5
    ensures Avail(g, s, c) >= 0
  {
    ExactBelowCount(g, s, c, 5);
    CountPrefix(s, c, 5);
  }

  lemma {:induction false} NonExactMonotone(g: string, s: string, c: char, i: nat, j: nat)
    requires i < j <= |g| && j <= |s|
    requires g[i] == c && s[i] != c
    ensures NonExact(g, s, c, i) < NonExact(g, s, c, j)
  {
    if j > i + 1 {
      NonExactMonotone(g, s, c, i, j - 1);
    }
  }

  // ---------------------------------------------------------------------------
  // Properties of the feedback

  /** Guessing the solution itself gives the winning string. */
  lemma SelfGuess(s: string)
    requires |s| >= 5
    ensures Feedback(s, s) == "CCCCC"
  {
  }

  /** A guessed letter that does not occur in the solution is always `W`. */
  lemma AbsentLetterIsWrong(g: string, s: string, i: nat)
    requires |g| >= 5 && |s| >= 5 && i < 5
    requires g[i] !in s
    ensures Feedback(g, s)[i] == 'W'
  {
    CountPositive(s, g[i]);
    AvailNonNegative(g, s, g[i]);
  }

  /** Misplaced marks go to the leftmost non-exact copies of a letter first. */
  lemma LeftmostMisplaced(g: string, s: string, i: nat, j: nat)
    requires |g| >= 5 && |s| >= 5 && i < j < 5
    requires g[i] == g[j] && g[i] != s[i]
    requires Feedback(g, s)[j] == 'M'
    ensures Feedback(g, s)[i] == 'M'
  {
    NonExactMonotone(g, s, g[i], i, j);
  }

  /** Guess positions below `m` holding `c` that the feedback `r` marks `C` or `M`. */
  function Marked(g: string, r: string, c: char, m: nat): nat
    requires m <= |g| && m <= |r|
  {
    if m == 0 then 0
    else Marked(g, r, c, m - 1) + (if g[m - 1] == c && r[m - 1] in {'C', 'M'} then 1 else 0)
  }

  lemma {:induction false} MarkedSplit(g: string, s: string, c: char, m: nat)
    requires |g| >= 5 && |s| >= 5 && m <= 5
    ensures var a := Avail(g, s, c);
      Marked(g, Feedback(g, s), c, m)
      == Exact(g, s, c, m) + (if NonExact(g, s, c, m) < a then NonExact(g, s, c, m) else a)
  {
    AvailNonNegative(g, s, c);
    if m > 0 {
      MarkedSplit(g, s, c, m - 1);
    }
  }

  /**
   * For every letter, the guess positions holding it that are marked `C`
   * or `M` never outnumber its copies in the solution.
   */
  lemma MarkedWithinCount(g: string, s: string, c: char)
    requires |g| >= 5 && |s| >= 5
    ensures Marked(g, Feedback(g, s), c, 5) <= Count(s, c)
  {
    MarkedSplit(g, s, c, 5);
  }

  lemma {:induction false} FirstNonExact(g: string, s: string, c: char, i: nat)
    requires i <= |g| && i <= |s|
    requires NonExact(g, s, c, i) > 0
    ensures exists j :: 0 <= j < i && g[j] == c && s[j] != c && NonExact(g, s, c, j) == 0
  {
    if NonExact(g, s, c, i - 1) > 0 {
      FirstNonExact(g, s, c, i - 1);
    } else {
      assert g[i - 1] == c && s[i - 1] != c;
    }
  }

  lemma {:induction false} ExactWitness(g: string, s: string, c: char, m: nat)
    requires m <= |g| && m <= |s|
    requires Exact(g, s, c, m) > 0
    ensures exists j :: 0 <= j < m && g[j] == c && s[j] == c
  {
    if Exact(g, s, c, m - 1) > 0 {
      ExactWitness(g, s, c, m - 1);
    }
  }

  /**
   * A `W` on a letter that does occur in the solution means the same guess
   * spent that letter elsewhere: some position holding it is `C` or `M`.
   */
  lemma WrongButPresent(g: string, s: string, i: nat)
    requires |g| >= 5 && |s| >= 5 && i < 5
    requires Feedback(g, s)[i] == 'W' && g[i] in s
    ensures exists j :: 0 <= j < 5 && g[j] == g[i] && Feedback(g, s)[j] in {'C', 'M'}
  {
    var c := g[i];
    CountPositive(s, c);
    if Avail(g, s, c) > 0 {
      FirstNonExact(g, s, c, i);
      var j :| 0 <= j < i && g[j] == c && s[j] != c && NonExact(g, s, c, j) == 0;
      assert Feedback(g, s)[j] == 'M';
    } else {
      ExactWitness(g, s, c, 5);
      var j :| 0 <= j < 5 && g[j] == c && s[j] == c;
      assert Feedback(g, s)[j] == 'C';
    }
  }

  /** The duplicate-letter example: GOOSE against GROWS. */
  lemma GooseAgainstGrows()
    ensures Feedback("GOOSE", "GROWS") == "CWCMW"
  {
    var g, s := "GOOSE", "GROWS";
    forall c | c in {'O', 'S', 'E'}
      ensures Count(s, c) == (if c == 'E' then 0 else 1)
    {
      assert "GROWS"[..4] == "GROW" && "GROW"[..3] == "GRO" && "GRO"[..2] == "GR";
      assert "GR"[..1] == "G" && "G"[..0] == "";
      assert Count("GR", c) == 0;
      assert Count("GRO", c) == (if c == 'O' then 1 else 0);
      assert Count("GROW", c) == (if c == 'O' then 1 else 0);
    }
    assert Exact(g, s, 'O', 5) == 1 && Exact(g, s, 'S', 5) == 0;
    assert NonExact(g, s, 'O', 1) == 0 && NonExact(g, s, 'S', 3) == 0;
    assert Feedback(g, s)[1] == 'W';
    assert Feedback(g, s)[3] == 'M';
    assert Feedback(g, s)[4] == 'W';
  }
}
