// ui/algorithms.py: the front end's guessing strategy. It scores its last
// guess against every candidate solution, keeps the candidates that would
// have produced the last feedback, and picks one of them at random.
module UiAlgorithms {
  import opened Words
  import opened Scoring
  import UiUtility

  /** The strategy's answer: a word, or the error raised when there is nothing to pick from. */
  datatype Pick = Picked(word: string) | NoChoice

  /** The solutions whose feedback against `guess` is `target`, in list order. */
  function Survivors(guess: string, target: string, solutions: seq<string>): (r: seq<string>)
    requires |guess| >= WordLength && AtLeastWordLength(solutions)
    ensures |r| <= |solutions|
  {
    if |solutions| == 0 then []
    else
      var w := solutions[|solutions| - 1];
      Survivors(guess, target, solutions[..|solutions| - 1]) + (if Feedback(guess, w) == target then [w] else [])
  }

  /**
   * Picks a solution that scores like the last feedback against the last
   * guess. Indexing an empty history, or choosing from no survivors, is
   * the error `NoChoice`; which survivor is picked is left open.
   */
  method OnlyMatchedPatterns(guesses: seq<string>, feedback: seq<string>, solutions: seq<string>)
    returns (r: Pick)
    requires |guesses| > 0 ==> |guesses[|guesses| - 1]| >= WordLength
    requires AtLeastWordLength(solutions)
    ensures |guesses| == 0 || |feedback| == 0 ==> r == NoChoice
    ensures |guesses| > 0 && |feedback| > 0 ==>
      var guess, target := guesses[|guesses| - 1], feedback[|feedback| - 1];
      && (r == NoChoice <==> Survivors(guess, target, solutions) == [])
      && (r.Picked? ==> r.word in solutions && Feedback(guess, r.word) == target)
  {
    // with no solutions the pick fails as well, so an empty history is
    // the same error whether or not the loop would have indexed it
    if |guesses| == 0 || |feedback| == 0 {
      return NoChoice;
    }
    var guess, target := guesses[|guesses| - 1], feedback[|feedback| - 1];
    var remaining := MatchingSolutions(guess, target, solutions);
    if remaining == [] {
      return NoChoice;
    }
    assert remaining[0] in remaining;
    var w :| w in remaining;
    SurvivorsMembers(guess, target, solutions, w);
    r := Picked(w);
  }

  /** The loop of the strategy: every solution scored against `guess`, the matches kept in order. */
  method MatchingSolutions(guess: string, target: string, solutions: seq<string>) returns (remaining: seq<string>)
    requires |guess| >= WordLength && AtLeastWordLength(solutions)
    ensures remaining == Survivors(guess, target, solutions)
  {
    remaining := [];
    var i := 0;
    while i < |solutions|
      invariant 0 <= i <= |solutions|
      invariant remaining == Survivors(guess, target, solutions[..i])
    {
      var word := solutions[i];
      var wordFeedback := UiUtility.GenerateFeedback(guess, word);
      SurvivorsStep(guess, target, solutions, i);
      if wordFeedback == target {
        remaining := remaining + [word];
      }
      i := i + 1;
    }
    assert solutions[..|solutions|] == solutions;
  }

  lemma SurvivorsStep(guess: string, target: string, solutions: seq<string>, i: nat)
    requires |guess| >= WordLength && AtLeastWordLength(solutions) && i < |solutions|
    ensures AtLeastWordLength(solutions[..i]) && AtLeastWordLength(solutions[..i + 1])
    ensures var w := solutions[i];
      Survivors(guess, target, solutions[..i + 1])
        == Survivors(guess, target, solutions[..i]) + if Feedback(guess, w) == target then [w] else []
  {
    var prefix := solutions[..i + 1];
    assert prefix[..i] == solutions[..i] && prefix[i] == solutions[i];
  }

  /** A solution survives exactly when it is listed and scores like `target`. */
  lemma {:induction false} SurvivorsMembers(guess: string, target: string, solutions: seq<string>, w: string)
    requires |guess| >= WordLength && AtLeastWordLength(solutions)
    ensures w in Survivors(guess, target, solutions) <==> w in solutions && Feedback(guess, w) == target
  {
    if |solutions| > 0 {
      var rest := solutions[..|solutions| - 1];
      assert forall v :: v in rest ==> v in solutions;
      SurvivorsMembers(guess, target, rest, w);
      assert solutions == rest + [solutions[|solutions| - 1]];
    }
  }

  /**
   * When the last feedback was scored against a listed solution, that
   * solution survives, so the pick cannot fail.
   */
  lemma SolutionSurvives(guess: string, target: string, solutions: seq<string>, solution: string)
    requires |guess| >= WordLength && AtLeastWordLength(solutions)
    requires solution in solutions && target == Feedback(guess, solution)
    ensures solution in Survivors(guess, target, solutions)
    ensures Survivors(guess, target, solutions) != []
  {
    SurvivorsMembers(guess, target, solutions, solution);
  }

  /** Among five-letter words, feedback `CCCCC` leaves only the guess itself. */
  lemma WinLeavesGuess(guess: string, solutions: seq<string>)
    requires |guess| == WordLength && forall v :: v in solutions ==> |v| == WordLength
    ensures forall w :: w in Survivors(guess, "CCCCC", solutions) ==> w == guess
  {
    forall w | w in Survivors(guess, "CCCCC", solutions) ensures w == guess {
      SurvivorsMembers(guess, "CCCCC", solutions, w);
      assert forall i :: 0 <= i < WordLength ==> Feedback(guess, w)[i] == 'C';
    }
  }
}
