// wordle/wordle_solution.py: the game class. Its word lists, its counters
// and the operations the play loop calls on it: the guess validator, the
// feedback scorer, the candidate filter and the statistics update. The
// filter here is the copy whose `else` is attached to the test for a seen
// letter.
module WordleSolution {
  import opened Words
  import opened Scoring
  import opened FilterSpec
  import UiUtility

  /** Every word of `words`, upper-cased, in the same order. */
  function UpperAll(words: seq<string>): (r: seq<string>)
    ensures |r| == |words|
    ensures forall i :: 0 <= i < |words| ==> r[i] == Upper(words[i])
  {
    seq(|words|, i requires 0 <= i < |words| => Upper(words[i]))
  }

  /** The words are already in upper case. */
  predicate AllUpper(words: seq<string>)
  {
    forall i :: 0 <= i < |words| ==> Upper(words[i]) == words[i]
  }

  lemma UpperAllIsUpper(words: seq<string>)
    ensures AllUpper(UpperAll(words))
  {
    forall i | 0 <= i < |words| {
      UpperIdempotent(words[i]);
    }
  }

  class Wordle {
    var validGuesses: seq<string>
    var validSolutions: seq<string>
    var initialGuesses: seq<string>
    var numGames: nat
    var numGuesses: int
    var numWins: nat

    /** The word lists are upper case and no more games were won than played. */
    ghost predicate Valid()
      reads this
    {
      AllUpper(validGuesses) && AllUpper(validSolutions) && AllUpper(initialGuesses) && numWins <= numGames
    }

    /**
     * A new game with the given word lists, as read from the two word
     * files, and opening guesses, all upper-cased, and no games played.
     */
    constructor (guesses: seq<string>, solutions: seq<string>, initial: seq<string>)
      ensures validGuesses == UpperAll(guesses) && validSolutions == UpperAll(solutions)
      ensures initialGuesses == UpperAll(initial)
      ensures numGames == 0 && numGuesses == 0 && numWins == 0
      ensures Valid()
    {
      validGuesses := UpperAll(guesses);
      validSolutions := UpperAll(solutions);
      initialGuesses := UpperAll(initial);
      numGames, numGuesses, numWins := 0, 0, 0;
      UpperAllIsUpper(guesses);
      UpperAllIsUpper(solutions);
      UpperAllIsUpper(initial);
    }

    /** The game's own guess validator, against its list of valid guesses. */
    predicate IsValidGuess(guess: string)
      reads this
    {
      UiUtility.IsValidGuess(guess, validGuesses)
    }

    /** The scorer, the same algorithm as the front end's copy. */
    static method GenerateFeedback(guess: string, solution: string) returns (r: string)
      requires |guess| >= WordLength && |solution| >= WordLength
      ensures r == Feedback(guess, solution)
    {
      r := UiUtility.GenerateFeedback(guess, solution);
    }

    /**
     * Keeps the valid guesses none of whose letters is forbidden at its
     * position. A `W` on a letter marked `C` or `M` somewhere forbids it
     * at its own position only; on any other letter, at every position.
     */
    method FilterOnFeedback(G: seq<string>, F: seq<string>) returns (filtered: seq<string>)
      requires WellFormed(G, F) && AtLeastWordLength(validGuesses)
      ensures filtered == Keep(validGuesses, SolutionExclusions(G, F))
    {
      var n := Pairs(G, F);
      var seen, excluded := MarkedAndMisplaced(G, F);

      ghost var first := excluded;
      var k := 0;
      while k < n
        invariant 0 <= k <= n
        invariant excluded == SecondSweep(G, F, SolutionCopy, seen, first, k, 0)
      {
        var guess, feedback := G[k], F[k];
        var i := 0;
        while i < WordLength
          invariant 0 <= i <= WordLength
          invariant excluded == SecondSweep(G, F, SolutionCopy, seen, first, k, i)
        {
          if feedback[i] == 'W' {
            if guess[i] in seen {
              excluded := excluded[i := excluded[i] + {guess[i]}];
            } else {
              ghost var before := excluded;
              var j := 0;
              while j < WordLength
                invariant 0 <= j <= WordLength
                invariant excluded == AddBelow(before, guess[i], j)
              {
                AddBelowStep(before, guess[i], j);
                excluded := excluded[j := excluded[j] + {guess[i]}];
                j := j + 1;
              }
            }
          }
          i := i + 1;
        }
        k := k + 1;
      }
      SecondSweepResult(G, F);

      filtered := KeepAdmitted(validGuesses, excluded);
    }

    /** Records one finished game: won or not, and how many guesses it took. */
    method GetPrintStats(win: bool, guesses: int)
      requires Valid()
      modifies this
      ensures numWins == old(numWins) + (if win then 1 else 0)
      ensures numGames == old(numGames) + 1
      ensures numGuesses == old(numGuesses) + guesses
      ensures validGuesses == old(validGuesses) && validSolutions == old(validSolutions)
      ensures initialGuesses == old(initialGuesses)
      ensures Valid()
    {
      if win {
        numWins := numWins + 1;
      }
      numGames := numGames + 1;
      numGuesses := numGuesses + guesses;
    }
  }

  // ---------------------------------------------------------------------------
  // The validator

  /**
   * A game's validator accepts a guess exactly when it is five letters whose
   * upper case is, upper-cased, one of the words the game was given.
   */
  lemma AcceptsListedWords(w: Wordle, guesses: seq<string>, guess: string)
    requires w.validGuesses == UpperAll(guesses)
    ensures w.IsValidGuess(guess) <==>
      |guess| == WordLength && AllLetters(guess) && exists i :: 0 <= i < |guesses| && Upper(guesses[i]) == Upper(guess)
  {
    if Upper(guess) in w.validGuesses {
      var i :| 0 <= i < |w.validGuesses| && w.validGuesses[i] == Upper(guess);
      assert Upper(guesses[i]) == Upper(guess);
    }
  }

  /**
   * A valid game accepts each of its listed five-letter words, typed in
   * any case: the lists hold upper-case words only.
   */
  lemma ValidGameAcceptsListed(w: Wordle, word: string)
    requires w.Valid() && word in w.validGuesses && |word| == WordLength && AllLetters(word)
    ensures w.IsValidGuess(word)
    ensures forall guess :: Upper(guess) == word ==> w.IsValidGuess(guess)
  {
    var i :| 0 <= i < |w.validGuesses| && w.validGuesses[i] == word;
    assert Upper(word) == word;
    forall guess | Upper(guess) == word ensures w.IsValidGuess(guess) {
      UpperIdempotent(guess);
    }
  }

  // ---------------------------------------------------------------------------
  // The filter against honest feedback

  /** Every paired feedback string is the scorer's verdict on its guess against `S`. */
  predicate Honest(G: seq<string>, F: seq<string>, S: string)
  {
    |S| >= 5 && WellFormed(G, F) && forall k :: 0 <= k < Pairs(G, F) ==> F[k] == Feedback(G[k], S)
  }

  /** Under honest feedback every letter marked `C` or `M` is in the solution. */
  lemma SeenInSolution(G: seq<string>, F: seq<string>, S: string, c: char)
    requires Honest(G, F, S) && c in Seen(G, F)
    ensures c in S
  {
    var k, i :| 0 <= k < Pairs(G, F) && 0 <= i < 5 && (F[k][i] == 'C' || F[k][i] == 'M') && G[k][i] == c;
    if F[k][i] == 'M' {
      CountPositive(S, c);
    }
  }

  /** Under honest feedback a `W` on a letter of the solution means the letter was marked `C` or `M` too. */
  lemma WrongPresentIsSeen(G: seq<string>, F: seq<string>, S: string, k: nat, i: nat)
    requires Honest(G, F, S) && k < Pairs(G, F) && i < 5
    requires F[k][i] == 'W' && G[k][i] in S
    ensures G[k][i] in Seen(G, F)
  {
    WrongButPresent(G[k], S, i);
  }

  /** The filter never drops the solution its feedback was scored against. */
  lemma KeepsSolution(G: seq<string>, F: seq<string>, d: seq<string>, S: string)
    requires Honest(G, F, S) && AtLeastWordLength(d) && S in d
    ensures S in Keep(d, SolutionExclusions(G, F))
  {
    forall p | 0 <= p < 5 ensures S[p] !in SolutionExcluded(G, F, p) {
      var c := S[p];
      forall k, i | 0 <= k < Pairs(G, F) && 0 <= i < 5 && F[k][i] == 'W' && G[k][i] == c
        ensures c in Seen(G, F)
      {
        WrongPresentIsSeen(G, F, S, k, i);
      }
    }
    KeepMembers(d, SolutionExclusions(G, F), S);
  }

  /** GOOSE scored `CWCMW` against GROWS: this copy keeps GROWS. */
  lemma KeepsGrows()
    ensures Keep(["GROWS"], SolutionExclusions(["GOOSE"], ["CWCMW"])) == ["GROWS"]
  {
    GooseAgainstGrows();
    assert Honest(["GOOSE"], ["CWCMW"], "GROWS");
    KeepsSolution(["GOOSE"], ["CWCMW"], ["GROWS"], "GROWS");
  }

  /**
   * As the history grows under honest feedback, the filter keeps no new
   * word: a letter forbidden everywhere for being unseen is absent from the
   * solution, so no later entry can mark it seen.
   */
  lemma HonestHistoryKeepsLess(G: seq<string>, F: seq<string>, g: string, S: string, d: seq<string>)
    requires Honest(G, F, S) && |G| == |F| && |g| >= 5 && AtLeastWordLength(d)
    ensures Honest(G + [g], F + [Feedback(g, S)], S)
    ensures forall w ::
      w in Keep(d, SolutionExclusions(G + [g], F + [Feedback(g, S)])) ==> w in Keep(d, SolutionExclusions(G, F))
    ensures |Keep(d, SolutionExclusions(G + [g], F + [Feedback(g, S)]))| <= |Keep(d, SolutionExclusions(G, F))|
  {
    var f := Feedback(g, S);
    var G', F' := G + [g], F + [f];
    SeenGrows(G, F, g, f);
    assert forall k :: 0 <= k < Pairs(G, F) ==> G'[k] == G[k] && F'[k] == F[k];
    assert Honest(G', F', S);
    forall p | 0 <= p < 5 ensures SolutionExcluded(G, F, p) <= SolutionExcluded(G', F', p) {
      forall c | c in SolutionExcluded(G, F, p) ensures c in SolutionExcluded(G', F', p) {
        if exists k :: 0 <= k < Pairs(G, F) && F[k][p] != 'C' && G[k][p] == c && (F[k][p] == 'M' || c in Seen(G, F)) {
          var k :| 0 <= k < Pairs(G, F) && F[k][p] != 'C' && G[k][p] == c && (F[k][p] == 'M' || c in Seen(G, F));
          assert F'[k][p] == F[k][p] && G'[k][p] == c;
        } else {
          var k, i :| 0 <= k < Pairs(G, F) && 0 <= i < 5 && F[k][i] == 'W' && G[k][i] == c && c !in Seen(G, F);
          if c in Seen(G', F') {
            SeenInSolution(G', F', S, c);
            WrongPresentIsSeen(G, F, S, k, i);
          }
          assert F'[k][i] == 'W' && G'[k][i] == c;
        }
      }
    }
    KeepAntitone(d, SolutionExclusions(G, F), SolutionExclusions(G', F'));
  }

  /** A letter no entry guessed is forbidden nowhere. */
  lemma UnguessedAllowed(G: seq<string>, F: seq<string>, c: char)
    requires WellFormed(G, F)
    requires forall k :: 0 <= k < Pairs(G, F) ==> c !in G[k]
    ensures forall p :: 0 <= p < 5 ==> c !in SolutionExclusions(G, F)[p]
  {
  }

  /** A seen letter no entry guessed at position `p` is not forbidden there. */
  lemma SeenAllowed(G: seq<string>, F: seq<string>, c: char, p: nat)
    requires WellFormed(G, F) && p < 5
    requires exists k, i :: 0 <= k < Pairs(G, F) && 0 <= i < 5 && F[k][i] == 'M' && G[k][i] == c
    requires forall k :: 0 <= k < Pairs(G, F) ==> G[k][p] != c
    ensures c !in SolutionExclusions(G, F)[p]
  {
  }

  /** A word is admitted once each of its five positions is checked. */
  lemma AdmitsEachPosition(w: string, E: seq<set<char>>)
    requires |w| >= 5 && |E| == 5
    requires w[0] !in E[0] && w[1] !in E[1] && w[2] !in E[2] && w[3] !in E[3] && w[4] !in E[4]
    ensures Admits(w, E)
  {
  }

  /**
   * Against a history that no solution could have produced, a longer
   * history can keep a word a shorter one dropped. After ABCDE scored all
   * `W`, A is forbidden everywhere, so XXAXX is dropped.
   */
  lemma DishonestShortHistoryDrops()
    ensures Keep(["XXAXX"], SolutionExclusions(["ABCDE"], ["WWWWW"])) == []
  {
    var G, F: seq<string> := ["ABCDE"], ["WWWWW"];
    assert F[0][0] == 'W' && G[0][0] == 'A';
    assert 'A' in SolutionExcluded(G, F, 2);
  }

  /**
   * Once QAQQQ marks A misplaced, A is only forbidden in the first two
   * positions, and X, never guessed, nowhere.
   */
  lemma LongerHistoryAllows()
    ensures var E := SolutionExclusions(["ABCDE", "QAQQQ"], ["WWWWW", "WMWWW"]);
      'A' !in E[2] && forall p :: 0 <= p < 5 ==> 'X' !in E[p]
  {
    var G, F: seq<string> := ["ABCDE", "QAQQQ"], ["WWWWW", "WMWWW"];
    assert F[1][1] == 'M' && G[1][1] == 'A';
    SeenAllowed(G, F, 'A', 2);
    assert 'X' !in G[0] && 'X' !in G[1];
    UnguessedAllowed(G, F, 'X');
  }

  /** So XXAXX, dropped after the first entry, comes back after the second. */
  lemma DishonestLongerHistoryKeeps()
    ensures Keep(["XXAXX"], SolutionExclusions(["ABCDE", "QAQQQ"], ["WWWWW", "WMWWW"])) == ["XXAXX"]
  {
    var w, E := "XXAXX", SolutionExclusions(["ABCDE", "QAQQQ"], ["WWWWW", "WMWWW"]);
    LongerHistoryAllows();
    assert w[0] == w[1] == w[3] == w[4] == 'X' && w[2] == 'A';
    AdmitsEachPosition(w, E);
  }
}
