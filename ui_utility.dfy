// ui/utility.py: the guess validator, the feedback scorer and the candidate
// filter used by the web front end. The filter here is modelled as written,
// with the `else` of its second sweep attached to the test for `W`.
module UiUtility {
  import opened Words
  import opened Scoring
  import opened FilterSpec

  /**
   * A guess is accepted when it has five characters, all of them letters,
   * and its upper-case form is one of the valid guesses.
   */
  predicate IsValidGuess(guess: string, validGuesses: seq<string>)
  {
    |guess| == WordLength && AllLetters(guess) && Upper(guess) in validGuesses
  }

  /** Validity does not depend on the case the guess was typed in. */
  lemma ValidGuessIgnoresCase(guess: string, validGuesses: seq<string>)
    ensures IsValidGuess(Upper(guess), validGuesses) == IsValidGuess(guess, validGuesses)
  {
    UpperIdempotent(guess);
  }

  /** Wrong length, a non-letter, or a lower-case word whose upper case is listed. */
  lemma ValidGuessExamples(validGuesses: seq<string>)
    requires "CRANE" in validGuesses
    ensures !IsValidGuess("ab1de", validGuesses)
    ensures !IsValidGuess("toolong5", validGuesses)
    ensures IsValidGuess("crane", validGuesses) && IsValidGuess("CrAnE", validGuesses)
  {
    assert !IsLetter("ab1de"[2]);
    assert Upper("crane") == "CRANE";
    assert Upper("CrAnE") == "CRANE";
  }

  /**
   * Scores `guess` against `solution`: first the exact matches, each paying
   * one copy of its letter out of the solution's letter counts, then, left
   * to right, a misplaced mark for each other guessed letter while copies
   * of it remain.
   */
  method GenerateFeedback(guess: string, solution: string) returns (r: string)
    requires |guess| >= WordLength && |solution| >= WordLength
    ensures r == Feedback(guess, solution)
  {
    var letters := CountLetters(solution);
    var feedback;
    feedback, letters := MarkExact(guess, solution, letters);
    feedback, letters := MarkMisplaced(guess, solution, feedback, letters);
    MarksEnd(guess, solution);
    r := feedback;
  }

  /** The solution's letters, each with its number of copies. */
  method CountLetters(solution: string) returns (letters: map<char, int>)
    ensures letters == Tally(solution)
  {
    letters := map[];
    var k := 0;
    while k < |solution|
      invariant 0 <= k <= |solution|
      invariant letters == Tally(solution[..k])
    {
      TallyExtend(solution, k);
      var c := solution[k];
      if c !in letters {
        letters := letters[c := 1];
      } else {
        letters := letters[c := letters[c] + 1];
      }
      k := k + 1;
    }
    assert solution[..|solution|] == solution;
  }

  /** The scorer's first pass: exact matches, each paying one copy of its letter. */
  method MarkExact(guess: string, solution: string, tally: map<char, int>)
    returns (feedback: string, letters: map<char, int>)
    requires |guess| >= WordLength && |solution| >= WordLength && tally == Tally(solution)
    ensures feedback == ExactMarks(guess, solution, WordLength)
    ensures letters == PaidExact(guess, solution, WordLength)
  {
    feedback, letters := seq(WordLength, _ => 'W'), tally;
    PaidExactStart(guess, solution);
    var i := 0;
    while i < WordLength
      invariant 0 <= i <= WordLength
      invariant feedback == ExactMarks(guess, solution, i)
      invariant letters == PaidExact(guess, solution, i)
    {
      PaidExactStep(guess, solution, i);
      if guess[i] == solution[i] {
        feedback := feedback[i := 'C'];
        letters := letters[guess[i] := letters[guess[i]] - 1];
      }
      i := i + 1;
    }
  }

  /** The scorer's second pass: misplaced letters, left to right, while copies remain. */
  method MarkMisplaced(guess: string, solution: string, exact: string, paid: map<char, int>)
    returns (feedback: string, letters: map<char, int>)
    requires |guess| >= WordLength && |solution| >= WordLength
    requires exact == ExactMarks(guess, solution, WordLength) && paid == PaidExact(guess, solution, WordLength)
    ensures feedback == Marks(guess, solution, WordLength)
  {
    feedback, letters := exact, paid;
    PaidMisplacedStart(guess, solution);
    var i := 0;
    while i < WordLength
      invariant 0 <= i <= WordLength
      invariant feedback == Marks(guess, solution, i)
      invariant letters == PaidMisplaced(guess, solution, i)
    {
      PaidMisplacedStep(guess, solution, i);
      if guess[i] != solution[i] && guess[i] in solution && letters[guess[i]] > 0 {
        feedback := feedback[i := 'M'];
        letters := letters[guess[i] := letters[guess[i]] - 1];
      }
      i := i + 1;
    }
  }

  // The contents of the `feedback` list between the scorer's loops.

  /** After the exact-match pass has looked at the positions below `i`. */
  ghost function ExactMarks(g: string, s: string, i: nat): (r: string)
    requires |g| >= 5 && |s| >= 5 && i <= 5
  {
    seq(5, j requires 0 <= j < 5 => if j < i && g[j] == s[j] then 'C' else 'W')
  }

  /** After the misplaced-letter pass has looked at the positions below `i`. */
  ghost function Marks(g: string, s: string, i: nat): (r: string)
    requires |g| >= 5 && |s| >= 5 && i <= 5
  {
    seq(5, j requires 0 <= j < 5 => if j < i then Verdict(g, s, j) else if g[j] == s[j] then 'C' else 'W')
  }

  // The contents of `solution_letters` between the scorer's loops: it has
  // a key for each letter of the solution and no other.

  /** Each letter of `s` with its number of copies. */
  ghost function Tally(s: string): map<char, int>
  {
    map c | c in s :: Count(s, c)
  }

  /** The counts once the exact matches below `i` have been paid. */
  ghost function PaidExact(g: string, s: string, i: nat): map<char, int>
    requires i <= |g| && i <= |s|
  {
    map c | c in s :: Count(s, c) - Exact(g, s, c, i)
  }

  /**
   * The counts once the misplaced marks below `i` have been paid too: the
   * spare copies less the non-exact guesses of the letter so far, never
   * below none.
   */
  ghost function PaidMisplaced(g: string, s: string, i: nat): map<char, int>
    requires |g| >= 5 && |s| >= 5 && i <= 5
  {
    map c | c in s :: var a, m := Avail(g, s, c), NonExact(g, s, c, i); if m < a then a - m else 0
  }

  lemma TallyExtend(s: string, k: nat)
    requires k < |s|
    ensures var t, c := Tally(s[..k]), s[k];
      Tally(s[..k + 1]) == if c in t then t[c := t[c] + 1] else t[c := 1]
  {
    CountExtend(s, k);
    CountPositive(s[..k], s[k]);
    assert s[..k + 1] == s[..k] + [s[k]];
  }

  lemma PaidExactStart(g: string, s: string)
    requires |g| >= 5 && |s| >= 5
    ensures PaidExact(g, s, 0) == Tally(s)
    ensures ExactMarks(g, s, 0) == seq(WordLength, _ => 'W')
  {
  }

  lemma PaidExactStep(g: string, s: string, i: nat)
    requires |g| >= 5 && |s| >= 5 && i < 5
    ensures var t := PaidExact(g, s, i);
      && (g[i] == s[i] ==> g[i] in t)
      && PaidExact(g, s, i + 1) == (if g[i] == s[i] then t[g[i] := t[g[i]] - 1] else t)
      && ExactMarks(g, s, i + 1) == if g[i] == s[i] then ExactMarks(g, s, i)[i := 'C'] else ExactMarks(g, s, i)
  {
    var t := PaidExact(g, s, i);
    if g[i] == s[i] {
      assert g[i] in s;
      assert PaidExact(g, s, i + 1) == t[g[i] := t[g[i]] - 1];
    }
  }

  lemma PaidMisplacedStart(g: string, s: string)
    requires |g| >= 5 && |s| >= 5
    ensures PaidMisplaced(g, s, 0) == PaidExact(g, s, 5)
    ensures Marks(g, s, 0) == ExactMarks(g, s, 5)
  {
    forall c | c in s {
      AvailNonNegative(g, s, c);
    }
  }

  lemma MarksEnd(g: string, s: string)
    requires |g| >= 5 && |s| >= 5
    ensures Marks(g, s, 5) == Feedback(g, s)
  {
  }

  lemma PaidMisplacedStep(g: string, s: string, i: nat)
    requires |g| >= 5 && |s| >= 5 && i < 5
    ensures var t := PaidMisplaced(g, s, i);
      var hit := g[i] != s[i] && g[i] in s && t[g[i]] > 0;
      && PaidMisplaced(g, s, i + 1) == (if hit then t[g[i] := t[g[i]] - 1] else t)
      && Marks(g, s, i + 1) == if hit then Marks(g, s, i)[i := 'M'] else Marks(g, s, i)
  {
    var t := PaidMisplaced(g, s, i);
    CountPositive(s, g[i]);
    AvailNonNegative(g, s, g[i]);
    if g[i] != s[i] && g[i] in s && t[g[i]] > 0 {
      assert PaidMisplaced(g, s, i + 1) == t[g[i] := t[g[i]] - 1];
    } else {
      assert PaidMisplaced(g, s, i + 1) == t;
    }
  }

  /**
   * Keeps the valid guesses none of whose letters is forbidden at its
   * position, after two sweeps over the history collect the letters
   * marked `C` or `M` and the forbidden letters of each position.
   */
  method FilterOnFeedback(G: seq<string>, F: seq<string>, validGuesses: seq<string>)
    returns (filtered: seq<string>)
    requires WellFormed(G, F) && AtLeastWordLength(validGuesses)
    ensures filtered == Keep(validGuesses, UiExclusions(G, F))
  {
    var n := Pairs(G, F);
    var seen, excluded := MarkedAndMisplaced(G, F);

    // second sweep: a `W` on a seen letter is forbidden where it stands;
    // the `else` belongs to the test for `W`, so every other verdict's
    // letter is forbidden at all positions
    ghost var first := excluded;
    var k := 0;
    while k < n
      invariant 0 <= k <= n
      invariant excluded == SecondSweep(G, F, UiCopy, seen, first, k, 0)
    {
      var guess, feedback := G[k], F[k];
      var i := 0;
      while i < WordLength
        invariant 0 <= i <= WordLength
        invariant excluded == SecondSweep(G, F, UiCopy, seen, first, k, i)
      {
        if feedback[i] == 'W' {
          if guess[i] in seen {
            excluded := excluded[i := excluded[i] + {guess[i]}];
          }
        } else {
          ghost var before := excluded;
          var j := 0;
          while j < WordLength
            invariant 0 <= j <= WordLength
            invariant excluded == AddBelow(before, guess[i], j)
          {
            AddBelowStep(before, guess[i], j);
            excluded := excluded[j := excluded[j] + {guess[i]}];
            j := j + 1;
          }
        }
        i := i + 1;
      }
      k := k + 1;
    }
    SecondSweepResult(G, F);

    filtered := KeepAdmitted(validGuesses, excluded);
  }

  // ---------------------------------------------------------------------------
  // What the filter as written keeps

  /** A letter marked `C` or `M` anywhere is forbidden at every position. */
  lemma MarkedLetterForbiddenEverywhere(G: seq<string>, F: seq<string>, k: nat, i: nat)
    requires WellFormed(G, F) && k < Pairs(G, F) && i < 5 && F[k][i] != 'W'
    ensures forall p :: 0 <= p < 5 ==> G[k][i] in UiExclusions(G, F)[p]
  {
    forall p | 0 <= p < 5 ensures G[k][i] in UiExcluded(G, F, p) {
      assert F[k][i] != 'W' && G[k][i] == G[k][i];
    }
  }

  /** A letter only ever marked `W` is never forbidden. */
  lemma WrongOnlyLetterAllowed(G: seq<string>, F: seq<string>, c: char)
    requires WellFormed(G, F)
    requires forall k, i :: 0 <= k < Pairs(G, F) && 0 <= i < 5 && G[k][i] == c ==> F[k][i] == 'W'
    ensures forall p :: 0 <= p < 5 ==> c !in UiExclusions(G, F)[p]
  {
  }

  /**
   * Against honest feedback for a five-letter solution, any entry that is not
   * all `W` makes the filter drop the solution itself: the letter of a `C` or
   * an `M` is in the solution, and the filter forbids it everywhere.
   */
  lemma DropsSolution(G: seq<string>, F: seq<string>, d: seq<string>, S: string, k: nat, i: nat)
    requires WellFormed(G, F) && AtLeastWordLength(d) && |S| == 5
    requires forall k' :: 0 <= k' < Pairs(G, F) ==> F[k'] == Feedback(G[k'], S)
    requires k < Pairs(G, F) && i < 5 && F[k][i] != 'W'
    ensures S !in Keep(d, UiExclusions(G, F))
  {
    var c := G[k][i];
    assert c in S by {
      if F[k][i] == 'M' {
        CountPositive(S, c);
      }
    }
    var p :| 0 <= p < 5 && S[p] == c;
    MarkedLetterForbiddenEverywhere(G, F, k, i);
    KeepMembers(d, UiExclusions(G, F), S);
  }

  /** GOOSE scored `CWCMW` against GROWS: the filter drops GROWS. */
  lemma DropsGrows()
    ensures Keep(["GROWS"], UiExclusions(["GOOSE"], ["CWCMW"])) == []
  {
    var G, F: seq<string> := ["GOOSE"], ["CWCMW"];
    GooseAgainstGrows();
    DropsSolution(G, F, ["GROWS"], "GROWS", 0, 0);
  }

  /** One more entry in the history forbids more letters, so the filter keeps no new word. */
  lemma MoreHistoryKeepsLess(G: seq<string>, F: seq<string>, g: string, f: string, d: seq<string>)
    requires WellFormed(G, F) && |G| == |F| && |g| >= 5 && |f| >= 5 && AtLeastWordLength(d)
    ensures WellFormed(G + [g], F + [f])
    ensures forall w :: w in Keep(d, UiExclusions(G + [g], F + [f])) ==> w in Keep(d, UiExclusions(G, F))
    ensures |Keep(d, UiExclusions(G + [g], F + [f]))| <= |Keep(d, UiExclusions(G, F))|
  {
    var G', F' := G + [g], F + [f];
    assert Pairs(G', F') == Pairs(G, F) + 1;
    assert forall k :: 0 <= k < Pairs(G, F) ==> G'[k] == G[k] && F'[k] == F[k];
    SeenGrows(G, F, g, f);
    forall p | 0 <= p < 5 ensures UiExcluded(G, F, p) <= UiExcluded(G', F', p) {
      forall c | c in UiExcluded(G, F, p) ensures c in UiExcluded(G', F', p) {
        if exists k, i :: 0 <= k < Pairs(G, F) && 0 <= i < 5 && F[k][i] != 'W' && G[k][i] == c {
          var k, i :| 0 <= k < Pairs(G, F) && 0 <= i < 5 && F[k][i] != 'W' && G[k][i] == c;
          assert F'[k][i] != 'W' && G'[k][i] == c;
        } else {
          var k :| 0 <= k < Pairs(G, F) && F[k][p] == 'W' && G[k][p] == c && c in Seen(G, F);
          assert F'[k][p] == 'W' && G'[k][p] == c && c in Seen(G', F');
        }
      }
    }
    KeepAntitone(d, UiExclusions(G, F), UiExclusions(G', F'));
  }
}

