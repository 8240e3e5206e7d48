// The candidate filter's specification, shared by both copies of
// `filter_on_feedback`. A history is a list of guesses and a list of
// feedback strings paired up as `zip` pairs them: only the first
// `Pairs(G, F)` entries of each take part. The filter's sweeps visit the
// history entry by entry and, inside an entry, position by position; the
// letters a sweep has added once it stands at entry `k`, position `i`, are
// the ones collected from the (entry, position) slots before that cursor.
module FilterSpec {
  import opened Words

  /** The number of (guess, feedback) pairs `zip` produces. */
  function Pairs(G: seq<string>, F: seq<string>): (n: nat)
    ensures n <= |G| && n <= |F|
    ensures n == |G| || n == |F|
  {
    if |G| <= |F| then |G| else |F|
  }

  /** Every paired guess and feedback string can be indexed at positions 0..4. */
  predicate WellFormed(G: seq<string>, F: seq<string>)
  {
    forall k :: 0 <= k < Pairs(G, F) ==> |G[k]| >= 5 && |F[k]| >= 5
  }

  /** Slot (k', i') is visited before the cursor (k, i). */
  predicate Before(k': nat, i': nat, k: nat, i: nat)
  {
    k' < k || (k' == k && i' < i)
  }

  /**
   * Which slots a sweep takes a letter from, by the slot's verdict `f`,
   * its guessed letter `c` and its position `j`.
   */
  datatype Rule =
    | MarkedCorM                             // `C` or `M`: the letter is in the solution
    | MisplacedAt(p: nat)                    // `M` at position p
    | WrongAt(p: nat, seen: set<char>)       // `W` at position p on a letter in `seen`
    | WrongUnseen(seen: set<char>)           // `W` anywhere on a letter not in `seen`
    | NotWrong                               // anything but `W`

  predicate Applies(rule: Rule, f: char, c: char, j: nat)
  {
    match rule
    case MarkedCorM => f == 'C' || f == 'M'
    case MisplacedAt(p) => f == 'M' && j == p
    case WrongAt(p, seen) => f == 'W' && c in seen && j == p
    case WrongUnseen(seen) => f == 'W' && c !in seen
    case NotWrong => f != 'W'
  }

  /** The guessed letters of the slots before (k, i) that `rule` selects. */
  function Collect(G: seq<string>, F: seq<string>, rule: Rule, k: nat, i: nat): set<char>
    requires WellFormed(G, F)
  {
    set k', i' | 0 <= k' < Pairs(G, F) && 0 <= i' < 5 && Before(k', i', k, i)
                 && Applies(rule, F[k'][i'], G[k'][i'], i') :: G[k'][i']
  }

  /** The letters marked `C` or `M` anywhere in the history. */
  function Seen(G: seq<string>, F: seq<string>): (S: set<char>)
    requires WellFormed(G, F)
    ensures forall c :: c in S <==>
      exists k, i :: 0 <= k < Pairs(G, F) && 0 <= i < 5 && (F[k][i] == 'C' || F[k][i] == 'M') && G[k][i] == c
  {
    Collect(G, F, MarkedCorM, Pairs(G, F), 0)
  }

  /**
   * The letters `wordle/wordle_solution.py` forbids at position `p`: an `M`
   * forbids its letter at its own position; a `W` forbids its letter at its
   * own position when the letter was marked `C` or `M` somewhere, and at
   * every position otherwise. A `C` forbids nothing.
   */
  function SolutionExcluded(G: seq<string>, F: seq<string>, p: nat): (E: set<char>)
    requires WellFormed(G, F) && p < 5
    ensures forall c :: c in E <==>
      || (exists k :: 0 <= k < Pairs(G, F) && F[k][p] == 'M' && G[k][p] == c)
      || (exists k :: 0 <= k < Pairs(G, F) && F[k][p] == 'W' && G[k][p] == c && c in Seen(G, F))
      || (c !in Seen(G, F) && exists k, i :: 0 <= k < Pairs(G, F) && 0 <= i < 5 && F[k][i] == 'W' && G[k][i] == c)
  {
    var n, seen := Pairs(G, F), Seen(G, F);
    Collect(G, F, MisplacedAt(p), n, 0) + Collect(G, F, WrongAt(p, seen), n, 0)
      + Collect(G, F, WrongUnseen(seen), n, 0)
  }

  /**
   * The letters `ui/utility.py` forbids at position `p`, where the `else`
   * of the second sweep belongs to the test for `W`: an `M` forbids its
   * letter at its own position; every verdict other than `W` forbids its
   * letter at every position; a `W` forbids its letter at its own position
   * only when the letter was marked `C` or `M` somewhere.
   */
  function UiExcluded(G: seq<string>, F: seq<string>, p: nat): (E: set<char>)
    requires WellFormed(G, F) && p < 5
    ensures forall c :: c in E <==>
      || (exists k, i :: 0 <= k < Pairs(G, F) && 0 <= i < 5 && F[k][i] != 'W' && G[k][i] == c)
      || (exists k :: 0 <= k < Pairs(G, F) && F[k][p] == 'W' && G[k][p] == c && c in Seen(G, F))
  {
    // the first term is what the first sweep adds; the `NotWrong` term
    // already covers it, but keeping it mirrors the loops sweep by sweep
    var n, seen := Pairs(G, F), Seen(G, F);
    Collect(G, F, MisplacedAt(p), n, 0) + Collect(G, F, WrongAt(p, seen), n, 0)
      + Collect(G, F, NotWrong, n, 0)
  }

  function SolutionExclusions(G: seq<string>, F: seq<string>): (E: seq<set<char>>)
    requires WellFormed(G, F)
    ensures |E| == 5 && forall p :: 0 <= p < 5 ==> E[p] == SolutionExcluded(G, F, p)
  {
    seq(5, p requires 0 <= p < 5 => SolutionExcluded(G, F, p))
  }

  function UiExclusions(G: seq<string>, F: seq<string>): (E: seq<set<char>>)
    requires WellFormed(G, F)
    ensures |E| == 5 && forall p :: 0 <= p < 5 ==> E[p] == UiExcluded(G, F, p)
  {
    seq(5, p requires 0 <= p < 5 => UiExcluded(G, F, p))
  }

  /** A word survives when none of its first five letters is forbidden at its position. */
  predicate Admits(w: string, E: seq<set<char>>)
    requires |w| >= 5 && |E| == 5
  {
    forall p :: 0 <= p < 5 ==> w[p] !in E[p]
  }

  /** The surviving words of `d`, in dictionary order. */
  function Keep(d: seq<string>, E: seq<set<char>>): (r: seq<string>)
    requires AtLeastWordLength(d) && |E| == 5
    ensures |r| <= |d|
  {
    if |d| == 0 then []
    else
      var w := d[|d| - 1];
      Keep(d[..|d| - 1], E) + (if Admits(w, E) then [w] else [])
  }

  // ---------------------------------------------------------------------------
  // The parts both copies of the filter share

  /**
   * The first sweep: a `M` forbids its letter at its own position, and every
   * letter marked `C` or `M` is recorded as seen.
   */
  method MarkedAndMisplaced(G: seq<string>, F: seq<string>)
    returns (seen: set<char>, excluded: seq<set<char>>)
    requires WellFormed(G, F)
    ensures seen == Seen(G, F)
    ensures excluded == FirstSweepSets(G, F)
  {
    excluded := seq(5, _ => {});
    seen := {};
    var n := Pairs(G, F);
    var k := 0;
    while k < n
      invariant 0 <= k <= n && |excluded| == 5
      invariant seen == Collect(G, F, MarkedCorM, k, 0)
      invariant forall p :: 0 <= p < 5 ==> excluded[p] == Collect(G, F, MisplacedAt(p), k, 0)
    {
      var guess, feedback := G[k], F[k];
      var i := 0;
      while i < 5
        invariant 0 <= i <= 5 && |excluded| == 5
        invariant seen == Collect(G, F, MarkedCorM, k, i)
        invariant forall p :: 0 <= p < 5 ==> excluded[p] == Collect(G, F, MisplacedAt(p), k, i)
      {
        CollectStep(G, F, MarkedCorM, k, i);
        forall p | 0 <= p < 5
          ensures Collect(G, F, MisplacedAt(p), k, i + 1)
            == Collect(G, F, MisplacedAt(p), k, i) + (if feedback[i] == 'M' && i == p then {guess[i]} else {})
        {
          CollectStep(G, F, MisplacedAt(p), k, i);
        }
        if feedback[i] == 'M' {
          excluded := excluded[i := excluded[i] + {guess[i]}];
          seen := seen + {guess[i]};
        } else if feedback[i] == 'C' {
          seen := seen + {guess[i]};
        }
        i := i + 1;
      }
      CollectRow(G, F, MarkedCorM, k);
      forall p | 0 <= p < 5
        ensures Collect(G, F, MisplacedAt(p), k, 5) == Collect(G, F, MisplacedAt(p), k + 1, 0)
      {
        CollectRow(G, F, MisplacedAt(p), k);
      }
      k := k + 1;
    }
    assert forall p :: 0 <= p < 5 ==> excluded[p] == FirstSweepSets(G, F)[p];
  }

  /** The final pass: keep, in dictionary order, the words with no forbidden letter. */
  method KeepAdmitted(d: seq<string>, excluded: seq<set<char>>) returns (kept: seq<string>)
    requires AtLeastWordLength(d) && |excluded| == 5
    ensures kept == Keep(d, excluded)
  {
    kept := [];
    var w := 0;
    while w < |d|
      invariant 0 <= w <= |d|
      invariant AtLeastWordLength(d[..w])
      invariant kept == Keep(d[..w], excluded)
    {
      var word := d[w];
      var valid := true;
      var i := 0;
      while i < 5
        invariant 0 <= i <= 5
        invariant valid && forall p :: 0 <= p < i ==> word[p] !in excluded[p]
      {
        if word[i] in excluded[i] {
          valid := false;
          break;
        }
        i := i + 1;
      }
      if valid {
        kept := kept + [word];
      }
      assert d[..w + 1][..w] == d[..w];
      w := w + 1;
    }
    assert d[..|d|] == d;
  }

  /** `E` with `c` added to each of its first `j` sets: a `for j` loop part way through. */
  function AddBelow(E: seq<set<char>>, c: char, j: nat): (r: seq<set<char>>)
    ensures |r| == |E|
  {
    seq(|E|, p requires 0 <= p < |E| => if p < j then E[p] + {c} else E[p])
  }

  lemma AddBelowStep(E: seq<set<char>>, c: char, j: nat)
    requires j < |E|
    ensures AddBelow(E, c, 0) == E
    ensures AddBelow(E, c, j + 1) == AddBelow(E, c, j)[j := AddBelow(E, c, j)[j] + {c}]
  {
  }

  /** The two copies of the second sweep differ in what the `else` is attached to. */
  datatype Copy = UiCopy | SolutionCopy

  /** The closed form of the second sweep's rule for non-`W` slots. */
  function Spread(copy: Copy, seen: set<char>): Rule
  {
    match copy
    case UiCopy => NotWrong
    case SolutionCopy => WrongUnseen(seen)
  }

  /** What the second sweep does at one slot with verdict `f` and guessed letter `c` at position `i`. */
  function SecondSweepSlot(copy: Copy, E: seq<set<char>>, seen: set<char>, f: char, c: char, i: nat): seq<set<char>>
    requires |E| == 5 && i < 5
  {
    match copy
    case UiCopy =>
      if f == 'W' then (if c in seen then E[i := E[i] + {c}] else E)
      else AddBelow(E, c, 5)
    case SolutionCopy =>
      if f == 'W' then (if c in seen then E[i := E[i] + {c}] else AddBelow(E, c, 5))
      else E
  }

  /**
   * The forbidden letters once the second sweep, started from `E0`, stands
   * at entry `k`, position `i`.
   */
  ghost function SecondSweep(G: seq<string>, F: seq<string>, copy: Copy, seen: set<char>,
                             E0: seq<set<char>>, k: nat, i: nat): (E: seq<set<char>>)
    requires WellFormed(G, F) && |E0| == 5 && k <= Pairs(G, F) && i <= 5 && (i > 0 ==> k < Pairs(G, F))
    ensures |E| == 5
    decreases k, i
  {
    if i == 0 then
      if k == 0 then E0 else SecondSweep(G, F, copy, seen, E0, k - 1, 5)
    else
      SecondSweepSlot(copy, SecondSweep(G, F, copy, seen, E0, k, i - 1), seen, F[k][i - 1], G[k][i - 1], i - 1)
  }

  /** The letters the second sweep has forbidden at each position, in closed form. */
  ghost function SecondSweepSets(G: seq<string>, F: seq<string>, copy: Copy, seen: set<char>,
                                 k: nat, i: nat): (E: seq<set<char>>)
    requires WellFormed(G, F)
    ensures |E| == 5
  {
    seq(5, p requires 0 <= p < 5 =>
      Collect(G, F, MisplacedAt(p), Pairs(G, F), 0) + Collect(G, F, WrongAt(p, seen), k, i)
        + Collect(G, F, Spread(copy, seen), k, i))
  }

  /** The first sweep's result: misplaced letters forbidden where they stand. */
  ghost function FirstSweepSets(G: seq<string>, F: seq<string>): (E: seq<set<char>>)
    requires WellFormed(G, F)
    ensures |E| == 5
  {
    seq(5, p requires 0 <= p < 5 => Collect(G, F, MisplacedAt(p), Pairs(G, F), 0))
  }

  lemma SecondSweepSlotStep(G: seq<string>, F: seq<string>, copy: Copy, seen: set<char>, k: nat, i: nat)
    requires WellFormed(G, F) && k < Pairs(G, F) && i < 5
    ensures SecondSweepSets(G, F, copy, seen, k, i + 1)
      == SecondSweepSlot(copy, SecondSweepSets(G, F, copy, seen, k, i), seen, F[k][i], G[k][i], i)
  {
    var E, E' := SecondSweepSets(G, F, copy, seen, k, i), SecondSweepSets(G, F, copy, seen, k, i + 1);
    var want := SecondSweepSlot(copy, E, seen, F[k][i], G[k][i], i);
    CollectStep(G, F, Spread(copy, seen), k, i);
    forall p | 0 <= p < 5 ensures E'[p] == want[p] {
      CollectStep(G, F, WrongAt(p, seen), k, i);
    }
  }

  lemma SecondSweepSetsStart(G: seq<string>, F: seq<string>, copy: Copy, seen: set<char>)
    requires WellFormed(G, F)
    ensures SecondSweepSets(G, F, copy, seen, 0, 0) == FirstSweepSets(G, F)
  {
    forall p | 0 <= p < 5 {
      CollectStart(G, F, WrongAt(p, seen));
    }
    CollectStart(G, F, Spread(copy, seen));
  }

  lemma SecondSweepSetsRow(G: seq<string>, F: seq<string>, copy: Copy, seen: set<char>, k: nat)
    requires WellFormed(G, F)
    ensures SecondSweepSets(G, F, copy, seen, k, 5) == SecondSweepSets(G, F, copy, seen, k + 1, 0)
  {
    forall p | 0 <= p < 5 {
      CollectRow(G, F, WrongAt(p, seen), k);
    }
    CollectRow(G, F, Spread(copy, seen), k);
  }

  /** The second sweep computes its closed form, slot by slot. */
  lemma {:induction false} SecondSweepIsSets(G: seq<string>, F: seq<string>, copy: Copy, seen: set<char>, k: nat, i: nat)
    requires WellFormed(G, F) && k <= Pairs(G, F) && i <= 5 && (i > 0 ==> k < Pairs(G, F))
    ensures SecondSweep(G, F, copy, seen, FirstSweepSets(G, F), k, i) == SecondSweepSets(G, F, copy, seen, k, i)
    decreases k, i
  {
    if i == 0 {
      if k == 0 {
        SecondSweepSetsStart(G, F, copy, seen);
      } else {
        SecondSweepIsSets(G, F, copy, seen, k - 1, 5);
        SecondSweepSetsRow(G, F, copy, seen, k - 1);
      }
    } else {
      SecondSweepIsSets(G, F, copy, seen, k, i - 1);
      SecondSweepSlotStep(G, F, copy, seen, k, i - 1);
    }
  }

  /** Run to the end of the history from the first sweep's result, the second sweep yields each copy's exclusions. */
  lemma SecondSweepResult(G: seq<string>, F: seq<string>)
    requires WellFormed(G, F)
    ensures SecondSweep(G, F, UiCopy, Seen(G, F), FirstSweepSets(G, F), Pairs(G, F), 0) == UiExclusions(G, F)
    ensures SecondSweep(G, F, SolutionCopy, Seen(G, F), FirstSweepSets(G, F), Pairs(G, F), 0)
      == SolutionExclusions(G, F)
  {
    SecondSweepIsSets(G, F, UiCopy, Seen(G, F), Pairs(G, F), 0);
    SecondSweepIsSets(G, F, SolutionCopy, Seen(G, F), Pairs(G, F), 0);
  }

  // ---------------------------------------------------------------------------
  // How the sweeps' cursor moves

  /** Moving the cursor past one slot adds that slot's letter when the rule selects it. */
  lemma CollectStep(G: seq<string>, F: seq<string>, rule: Rule, k: nat, i: nat)
    requires WellFormed(G, F) && k < Pairs(G, F) && i < 5
    ensures Collect(G, F, rule, k, i + 1)
      == Collect(G, F, rule, k, i) + (if Applies(rule, F[k][i], G[k][i], i) then {G[k][i]} else {})
  {
    var A, B := Collect(G, F, rule, k, i + 1), Collect(G, F, rule, k, i);
    var C := B + (if Applies(rule, F[k][i], G[k][i], i) then {G[k][i]} else {});
    forall c | c in A ensures c in C {
      var k', i' :| 0 <= k' < Pairs(G, F) && 0 <= i' < 5 && Before(k', i', k, i + 1)
                    && Applies(rule, F[k'][i'], G[k'][i'], i') && G[k'][i'] == c;
      if !(k' == k && i' == i) {
        assert c in B;
      }
    }
    forall c | c in C ensures c in A {
      if c in B {
        var k', i' :| 0 <= k' < Pairs(G, F) && 0 <= i' < 5 && Before(k', i', k, i)
                      && Applies(rule, F[k'][i'], G[k'][i'], i') && G[k'][i'] == c;
        assert Before(k', i', k, i + 1);
      }
    }
  }

  /** The end of one entry is the start of the next. */
  lemma CollectRow(G: seq<string>, F: seq<string>, rule: Rule, k: nat)
    requires WellFormed(G, F)
    ensures Collect(G, F, rule, k, 5) == Collect(G, F, rule, k + 1, 0)
  {
    assert forall k', i' :: 0 <= i' < 5 ==> (Before(k', i', k, 5) <==> Before(k', i', k + 1, 0));
  }

  /** Nothing has been collected before the first slot. */
  lemma CollectStart(G: seq<string>, F: seq<string>, rule: Rule)
    requires WellFormed(G, F)
    ensures Collect(G, F, rule, 0, 0) == {}
  {
  }

  // ---------------------------------------------------------------------------
  // Properties of Keep

  /** A word is kept exactly when it is in the dictionary and admitted. */
  lemma {:induction false} KeepMembers(d: seq<string>, E: seq<set<char>>, w: string)
    requires AtLeastWordLength(d) && |E| == 5
    ensures w in Keep(d, E) <==> w in d && |w| >= 5 && Admits(w, E)
  {
    if |d| > 0 {
      var d' := d[..|d| - 1];
      KeepMembers(d', E, w);
      assert d == d' + [d[|d| - 1]];
    }
  }

  /** When every word is admitted, the dictionary comes back unchanged. */
  lemma {:induction false} KeepAll(d: seq<string>, E: seq<set<char>>)
    requires AtLeastWordLength(d) && |E| == 5
    requires forall w :: w in d ==> Admits(w, E)
    ensures Keep(d, E) == d
  {
    if |d| > 0 {
      var d' := d[..|d| - 1];
      assert forall w :: w in d' ==> w in d;
      KeepAll(d', E);
      assert d == d' + [d[|d| - 1]];
    }
  }

  /** Forbidding more letters keeps no more words, and only words kept before. */
  lemma {:induction false} KeepAntitone(d: seq<string>, E: seq<set<char>>, E': seq<set<char>>)
    requires AtLeastWordLength(d) && |E| == 5 && |E'| == 5
    requires forall p :: 0 <= p < 5 ==> E[p] <= E'[p]
    ensures |Keep(d, E')| <= |Keep(d, E)|
    ensures forall w :: w in Keep(d, E') ==> w in Keep(d, E)
  {
    if |d| > 0 {
      var d' := d[..|d| - 1];
      assert forall w :: w in d' ==> w in d;
      KeepAntitone(d', E, E');
    }
    forall w | w in Keep(d, E') ensures w in Keep(d, E) {
      KeepMembers(d, E', w);
      KeepMembers(d, E, w);
    }
  }

  /** Appending an entry to a history whose lists pair up keeps every seen letter seen. */
  lemma SeenGrows(G: seq<string>, F: seq<string>, g: string, f: string)
    requires WellFormed(G, F) && |G| == |F| && |g| >= 5 && |f| >= 5
    ensures WellFormed(G + [g], F + [f]) && Pairs(G + [g], F + [f]) == Pairs(G, F) + 1
    ensures Seen(G, F) <= Seen(G + [g], F + [f])
  {
    var G', F' := G + [g], F + [f];
    forall c | c in Seen(G, F) ensures c in Seen(G', F') {
      var k, i :| 0 <= k < Pairs(G, F) && 0 <= i < 5 && (F[k][i] == 'C' || F[k][i] == 'M') && G[k][i] == c;
      assert F'[k] == F[k] && G'[k] == G[k];
    }
  }

  /** Two histories whose paired entries agree forbid the same letters. */
  lemma AgreeingHistories(G: seq<string>, F: seq<string>, G': seq<string>, F': seq<string>)
    requires WellFormed(G, F) && WellFormed(G', F') && Pairs(G, F) == Pairs(G', F')
    requires forall k :: 0 <= k < Pairs(G, F) ==> G'[k] == G[k] && F'[k] == F[k]
    ensures Seen(G, F) == Seen(G', F')
    ensures SolutionExclusions(G, F) == SolutionExclusions(G', F')
    ensures UiExclusions(G, F) == UiExclusions(G', F')
  {
    forall rule: Rule ensures Collect(G, F, rule, Pairs(G, F), 0) == Collect(G', F', rule, Pairs(G, F), 0) {
      CollectAgree(G, F, G', F', rule);
    }
  }

  lemma CollectAgree(G: seq<string>, F: seq<string>, G': seq<string>, F': seq<string>, rule: Rule)
    requires WellFormed(G, F) && WellFormed(G', F') && Pairs(G, F) == Pairs(G', F')
    requires forall k :: 0 <= k < Pairs(G, F) ==> G'[k] == G[k] && F'[k] == F[k]
    ensures Collect(G, F, rule, Pairs(G, F), 0) == Collect(G', F', rule, Pairs(G, F), 0)
  {
    var n := Pairs(G, F);
    forall c | c in Collect(G, F, rule, n, 0) ensures c in Collect(G', F', rule, n, 0) {
      var k, i :| 0 <= k < n && 0 <= i < 5 && Before(k, i, n, 0) && Applies(rule, F[k][i], G[k][i], i) && G[k][i] == c;
      assert G'[k][i] == c && F'[k][i] == F[k][i];
    }
    forall c | c in Collect(G', F', rule, n, 0) ensures c in Collect(G, F, rule, n, 0) {
      var k, i :| 0 <= k < n && 0 <= i < 5 && Before(k, i, n, 0) && Applies(rule, F'[k][i], G'[k][i], i) && G'[k][i] == c;
      assert G[k][i] == c && F[k][i] == F'[k][i];
    }
  }

  /**
   * `zip` stops at the shorter list: a guess with no feedback, or feedback
   * with no guess, changes nothing.
   */
  lemma SurplusIgnored(G: seq<string>, F: seq<string>, g: string, f: string)
    requires WellFormed(G, F)
    ensures |G| >= |F| ==>
      && WellFormed(G + [g], F)
      && SolutionExclusions(G + [g], F) == SolutionExclusions(G, F)
      && UiExclusions(G + [g], F) == UiExclusions(G, F)
    ensures |F| >= |G| ==>
      && WellFormed(G, F + [f])
      && SolutionExclusions(G, F + [f]) == SolutionExclusions(G, F)
      && UiExclusions(G, F + [f]) == UiExclusions(G, F)
  {
    if |G| >= |F| {
      assert forall k :: 0 <= k < Pairs(G, F) ==> (G + [g])[k] == G[k];
      AgreeingHistories(G, F, G + [g], F);
    }
    if |F| >= |G| {
      assert forall k :: 0 <= k < Pairs(G, F) ==> (F + [f])[k] == F[k];
      AgreeingHistories(G, F, G, F + [f]);
    }
  }

  /** With no paired entries nothing is forbidden, so both filters return the dictionary. */
  lemma NoHistoryKeepsAll(G: seq<string>, F: seq<string>, d: seq<string>)
    requires WellFormed(G, F) && AtLeastWordLength(d) && Pairs(G, F) == 0
    ensures Keep(d, SolutionExclusions(G, F)) == d
    ensures Keep(d, UiExclusions(G, F)) == d
  {
    KeepAll(d, SolutionExclusions(G, F));
    KeepAll(d, UiExclusions(G, F));
  }
}
