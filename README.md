# Wordle feedback and constraint engine, in Dafny

This project models the logic behind a Wordle player and solver. It has
four parts:

- the feedback scorer `generate_feedback`, which marks each letter of a
  five-letter guess `C` (correct), `M` (misplaced) or `W` (wrong) against
  the solution;
- the guess validator `is_valid_guess`;
- the candidate filter `filter_on_feedback`, which keeps the dictionary
  words consistent with a history of guesses and their feedback;
- the strategy `only_matched_patterns`, which picks a solution that would
  have produced the last feedback.

The repository has two copies of the scorer, validator and filter: one in
the web front end (`ui/utility.py`) and one in the game class
(`wordle/wordle_solution.py`). The two scorers and validators are
identical. The two filters are not: in the front end's copy the `else` of
the second sweep belongs to the test for `W`, not to the test for a seen
letter. Each filter is modelled as written.

Files:

- `words.dfy` (module `Words`): letters, ASCII upper-casing, the word length.
- `scoring.dfy` (module `Scoring`): a closed-form statement of what the
  scorer computes (`Feedback`, from letter counts `Count`, `Exact` and
  `NonExact`), and its properties.
- `filter_spec.dfy` (module `FilterSpec`): a closed-form statement of the
  letters each filter forbids at each position (`UiExcluded`,
  `SolutionExcluded`), the order-preserving filter `Keep`, and the two
  loops both filters share (`MarkedAndMisplaced`, `KeepAdmitted`). The
  second sweep is specified by a fold, `SecondSweep`, that is proved equal
  to the closed form.
- `ui_utility.dfy` (module `UiUtility`): `ui/utility.py`. The scorer is an
  imperative method proved equal to `Feedback`. The filter is an imperative
  method proved equal to `Keep` over the front end's exclusions.
- `ui_algorithms.dfy` (module `UiAlgorithms`): `ui/algorithms.py`.
- `wordle_solution.dfy` (module `WordleSolution`): the `Wordle` class,
  with its word lists and counters, its filter, and soundness of that
  filter against honest feedback.

The scorer's closed form: position `i` is `C` when the guess and the
solution agree there. Otherwise it is `M` when fewer earlier non-exact
guesses of that letter exist than spare copies of it in the solution. A
spare copy is one not taken by an exact match. Every other position is
`W`.

A history is honest for a solution when every feedback string in it is the
scorer's output for its guess against that solution.

## Model

| member | source | states |
|---|---|---|
| Words.UpperIdempotent | ui/utility.py:8 | upper-casing twice equals upper-casing once, and keeps a string all letters exactly when it was |
| UiUtility.ValidGuessIgnoresCase | ui/utility.py:7-8 | a guess and its upper-case form are accepted alike |
| UiUtility.ValidGuessExamples | ui/utility.py:7-8 | a guess with a digit or the wrong length is refused; lower- or mixed-case CRANE is accepted when CRANE is listed |
| WordleSolution.AcceptsListedWords | wordle/wordle_solution.py:127-128 | the game's validator accepts exactly the five-letter, all-letter guesses whose upper case is the upper case of a word the game was given |
| WordleSolution.ValidGameAcceptsListed | wordle/wordle_solution.py:127-128 | a game whose lists are upper case accepts each of its listed five-letter words, and any guess whose upper case is one of them |
| Scoring.Feedback | ui/utility.py:12-38 | the feedback has five characters, each `C`, `M` or `W`, and a position is `C` exactly when guess and solution agree there |
| UiUtility.GenerateFeedback | ui/utility.py:12-38 | the scorer's three loops return exactly `Feedback(guess, solution)` |
| UiUtility.CountLetters | ui/utility.py:17-22 | the dictionary built from the solution maps each of its letters to its number of copies |
| UiUtility.MarkExact | ui/utility.py:25-29 | after the first pass the exact positions are `C`, the rest `W`, and each letter's count has lost its exact matches |
| UiUtility.MarkMisplaced | ui/utility.py:31-34 | after the second pass the feedback is the closed form |
| UiUtility.PaidMisplacedStep | ui/utility.py:31-34 | one step of the second pass: an `M` is given, and a copy paid, exactly when the letter is non-exact, in the solution and still has a spare copy |
| WordleSolution.Wordle.GenerateFeedback | wordle/wordle_solution.py:133-160 | the game's copy of the scorer returns the same closed form |
| Scoring.SelfGuess | ui/utility.py:25-29 | scoring a word against itself gives `CCCCC` |
| Scoring.AbsentLetterIsWrong | ui/utility.py:31-34 | a guessed letter absent from the solution is `W` |
| Scoring.LeftmostMisplaced | ui/utility.py:31-34 | among non-exact copies of a letter, an `M` on a later copy implies an `M` on every earlier one |
| Scoring.MarkedWithinCount | ui/utility.py:17-34 | for every letter, the positions holding it marked `C` or `M` are no more than its copies in the solution |
| Scoring.WrongButPresent | ui/utility.py:25-34 | a `W` on a letter that is in the solution means the same guess marks that letter `C` or `M` somewhere else |
| Scoring.GooseAgainstGrows | ui/utility.py:15-16 | GOOSE against GROWS scores `CWCMW` |
| FilterSpec.Seen | ui/utility.py:58-65 | the seen letters are exactly the letters marked `C` or `M` in some paired entry |
| FilterSpec.MarkedAndMisplaced | ui/utility.py:58-65 | the first sweep returns the seen letters and, at each position, the letters marked `M` there |
| FilterSpec.UiExcluded | ui/utility.py:58-74 | the front end forbids a letter at `p` exactly when some entry marks it other than `W`, or marks it `W` at `p` while it is seen |
| FilterSpec.SolutionExcluded | wordle/wordle_solution.py:179-195 | the game forbids a letter at `p` exactly when it is `M` at `p`, or `W` at `p` and seen, or `W` anywhere and unseen |
| FilterSpec.SecondSweepIsSets | ui/utility.py:66-74 | the second sweep, run slot by slot from the first sweep's result, yields the closed-form sets at every cursor, for either copy |
| FilterSpec.SecondSweepResult | wordle/wordle_solution.py:187-195 | run to the end, the second sweep yields each copy's exclusions |
| FilterSpec.KeepAdmitted | ui/utility.py:77-84 | the final pass returns `Keep`: the admitted words in dictionary order |
| FilterSpec.KeepMembers | ui/utility.py:77-84 | a word is kept exactly when it is in the dictionary and none of its letters is forbidden at its position |
| FilterSpec.KeepAntitone | ui/utility.py:77-84 | forbidding more letters keeps no more words, and only words kept before |
| FilterSpec.NoHistoryKeepsAll | ui/utility.py:48-86 | with no paired entries both filters return the dictionary unchanged |
| FilterSpec.SurplusIgnored | wordle/wordle_solution.py:179-195 | a guess with no feedback, or feedback with no guess, changes neither filter's exclusions |
| FilterSpec.AgreeingHistories | ui/utility.py:58-74 | two histories whose paired entries agree forbid the same letters |
| FilterSpec.SeenGrows | ui/utility.py:58-65 | appending an entry keeps every seen letter seen |
| UiUtility.FilterOnFeedback | ui/utility.py:42-86 | the front end's filter returns `Keep` over its own exclusions |
| UiUtility.MarkedLetterForbiddenEverywhere | ui/utility.py:71-74 | a letter marked `C` or `M` anywhere is forbidden at all five positions |
| UiUtility.WrongOnlyLetterAllowed | ui/utility.py:66-74 | a letter only ever marked `W` is forbidden nowhere |
| UiUtility.DropsSolution | ui/utility.py:66-74 | against honest feedback for a five-letter solution, any non-`W` mark makes the front end's filter drop the solution |
| UiUtility.DropsGrows | ui/utility.py:66-74 | after GOOSE scored `CWCMW`, the front end's filter drops GROWS |
| UiUtility.MoreHistoryKeepsLess | ui/utility.py:58-84 | appending an entry to the front end's history keeps no new word and no more words |
| WordleSolution.Wordle.FilterOnFeedback | wordle/wordle_solution.py:163-207 | the game's filter returns `Keep` over its own exclusions, from its list of valid guesses |
| WordleSolution.SeenInSolution | wordle/wordle_solution.py:179-186 | against honest feedback every seen letter is in the solution |
| WordleSolution.WrongPresentIsSeen | wordle/wordle_solution.py:187-195 | against honest feedback a `W` on a letter of the solution is on a seen letter |
| WordleSolution.KeepsSolution | wordle/wordle_solution.py:163-207 | against honest feedback the game's filter never drops the solution |
| WordleSolution.KeepsGrows | wordle/wordle_solution.py:163-207 | after GOOSE scored `CWCMW`, the game's filter keeps GROWS |
| WordleSolution.HonestHistoryKeepsLess | wordle/wordle_solution.py:179-207 | appending an honestly scored entry keeps no new word and no more words |
| WordleSolution.DishonestShortHistoryDrops | wordle/wordle_solution.py:187-195 | after ABCDE scored `WWWWW`, XXAXX is dropped |
| WordleSolution.LongerHistoryAllows | wordle/wordle_solution.py:187-195 | once QAQQQ also scored `WMWWW`, A is allowed at position 2 and X everywhere |
| WordleSolution.DishonestLongerHistoryKeeps | wordle/wordle_solution.py:187-195 | with that longer, inconsistent history XXAXX is kept again |
| WordleSolution.UnguessedAllowed | wordle/wordle_solution.py:187-195 | a letter no entry guessed is forbidden nowhere |
| WordleSolution.SeenAllowed | wordle/wordle_solution.py:179-195 | a letter marked `M` somewhere, and never guessed at `p`, is allowed at `p` |
| WordleSolution.UpperAll | wordle/wordle_solution.py:20-27 | the word lists are upper-cased word by word, in order |
| WordleSolution.UpperAllIsUpper | wordle/wordle_solution.py:20-27 | upper-cased lists are entirely upper case |
| WordleSolution.Wordle.constructor | wordle/wordle_solution.py:18-57 | a new game holds the upper-cased lists and starts with every counter at zero |
| WordleSolution.Wordle.GetPrintStats | wordle/wordle_solution.py:209-213 | games go up by one, wins by one exactly when the game was won, guesses by the argument; nothing else changes, and wins never exceed games |
| UiAlgorithms.OnlyMatchedPatterns | ui/algorithms.py:8-14 | an empty history, or no survivor, is the error; otherwise the pick is a listed solution that scores like the last feedback against the last guess, and nothing earlier in the history is consulted |
| UiAlgorithms.MatchingSolutions | ui/algorithms.py:9-13 | the loop returns the survivors in list order |
| UiAlgorithms.SurvivorsMembers | ui/algorithms.py:10-13 | a word survives exactly when it is listed and scores like the last feedback |
| UiAlgorithms.SolutionSurvives | ui/algorithms.py:11-14 | when the last feedback was scored against a listed solution, that solution survives and the pick cannot fail |
| UiAlgorithms.WinLeavesGuess | ui/algorithms.py:11-12 | among five-letter words, feedback `CCCCC` leaves only the guess itself |

## Left out

- File reading in `Wordle.__init__`: the constructor takes the two word lists as read, and upper-cases them as the source does.
- WordleSolution.Wordle.constructor: `__init__` upper-cases `initial_guesses` in place, which changes the caller's list and, when none is passed, the shared default list; the constructor builds a fresh sequence instead, so that aliasing is not modelled.
- The `play` loop, `print_state`, and the printing in `get_print_stats` (including the float win rate and guess average). The flags `input_function`, `verbose`, `stats` and `simulate` only steer those, so they are not fields here.
- `ui/backend.py`, `ui/backend_harder.py`, `ui/static/scripts.js` and `wordle/wordle_starter.py`: web routes, database, browser code and a starter template are not part of this model.
- Unicode: `str.isalpha` and `str.upper` are modelled on ASCII letters only.
- `random.choice` is a nondeterministic pick; its distribution is not modelled.
- UiUtility.GenerateFeedback: requires both words to have at least five characters, where Python would raise `IndexError`; the same holds for the game's copy.
- UiUtility.FilterOnFeedback: requires every paired guess and feedback, and every dictionary word, to have at least five characters; the same holds for WordleSolution.Wordle.FilterOnFeedback. Python raises `IndexError` on most such inputs, but not all: the final pass stops at the first forbidden letter, so a short dictionary word with a forbidden letter before its end is silently dropped; and the game's copy reads a guess letter only when its verdict is `C`, `M` or `W`, so a short guess paired with feedback of other characters raises nothing there. The model does not cover those inputs.
- UiAlgorithms.OnlyMatchedPatterns: requires the last guess and every solution to have at least five characters, for the same reason. Every other error, an empty history or no survivor, is the result `NoChoice`.
- UiUtility.MarkMisplaced: does not state the letter counts left after the second pass, which nothing reads.
- UiUtility.IsValidGuess and WordleSolution.Wordle.IsValidGuess carry no contract of their own; their behaviour is stated by the validator lemmas above.
- WordleSolution.HonestHistoryKeepsLess: appending an entry never enlarges the game's filter result only when the feedback is honest. Under an arbitrary history it can enlarge it, as the three `Dishonest...` and `LongerHistoryAllows` lemmas show. So the general "appending history never enlarges the result" claim does not hold for `wordle/wordle_solution.py` as written.

## Findings

| source | as written | input that shows it | evidently intended | confidence | as-written member | corrected member |
|---|---|---|---|---|---|---|
| ui/utility.py:66-74 | the `else` at line 71 belongs to `if feedback[i] == "W"`, so every letter marked `C` or `M` is forbidden at all positions, and an unseen `W` letter is forbidden nowhere | history GOOSE scored `CWCMW`, dictionary [GROWS]: the filter returns [], dropping the true solution | the `else` belongs to `if guess[i] in not_wrong_letters`, as the comment at line 72 and the game's copy at wordle/wordle_solution.py:187-195 have it | not executed | UiUtility.DropsGrows | WordleSolution.KeepsSolution |
