/**
 * The computer-guesses mode: the computer keeps a pool of codes that agree
 * with every feedback the player has given, guesses one of them, and narrows
 * the pool with each new feedback until it is told 4A or the pool runs dry.
 */
module Solver {
  import opened Wrappers
  import opened Codes
  import opened Scoring

  /** The two messages the solver can show. */
  datatype Message =
    | SumTooLarge  // "A + B cannot be greater than 4!"
    | Impossible   // "Impossible! Please check your previous feedback."

  /**
   * The filter's test: had `c` been the secret, `guess` would have scored
   * (a, b). Only feedback with a + b <= 4 can match, and a guess matches
   * itself exactly under 4A0B.
   */
  predicate Matches(c: string, guess: string, a: int, b: int): (m: bool)
    ensures m ==> 0 <= a && 0 <= b && a + b <= 4
    ensures c == guess && |c| == 4 ==> (m <==> a == 4 && b == 0)
  {
    |c| == 4 && |guess| == 4 && Score(c, guess).a == a && Score(c, guess).b == b
  }

  /** `c` agrees with every turn of the history that was not a 4A. */
  predicate ConsistentWithHistory(c: string, history: seq<Turn>) {
    forall k :: 0 <= k < |history| && history[k].a != 4 ==>
      Matches(c, history[k].guess, history[k].a, history[k].b)
  }

  /**
   * `candidates.filter(...)`: the members of the pool that would have produced
   * the feedback, in the pool's order.
   */
  function Filter(pool: seq<string>, guess: string, a: int, b: int): (r: seq<string>)
    ensures forall c :: c in r <==> c in pool && Matches(c, guess, a, b)
    ensures |r| <= |pool|
    decreases |pool|
  {
    if pool == [] then []
    else
      var rest := Filter(pool[1..], guess, a, b);
      if Matches(pool[0], guess, a, b) then [pool[0]] + rest else rest
  }

  /** Putting a code before an ascending run of later pool members keeps it ascending. */
  lemma AscendingCons(pool: seq<string>, rest: seq<string>)
    requires StrictlyAscending(pool) && pool != [] && StrictlyAscending(rest)
    requires forall c :: c in rest ==> c in pool[1..]
    ensures StrictlyAscending([pool[0]] + rest)
  {
    forall c | c in rest ensures Value(pool[0]) < Value(c) {
      var k :| 0 <= k < |pool[1..]| && pool[1..][k] == c;
      assert pool[k + 1] == c;
    }
    var r := [pool[0]] + rest;
    forall i, j | 0 <= i < j < |r| ensures Value(r[i]) < Value(r[j]) {
      assert r[j] == rest[j - 1] && r[j] in rest;
      if i > 0 { assert r[i] == rest[i - 1]; }
    }
  }

  /** Filtering keeps the pool's order. */
  lemma {:induction false} FilterAscending(pool: seq<string>, guess: string, a: int, b: int)
    requires StrictlyAscending(pool)
    ensures StrictlyAscending(Filter(pool, guess, a, b))
    decreases |pool|
  {
    if pool != [] {
      AscendingTail(pool);
      FilterAscending(pool[1..], guess, a, b);
      if Matches(pool[0], guess, a, b) {
        AscendingCons(pool, Filter(pool[1..], guess, a, b));
      }
    }
  }

  /** A guess taken from the pool that does not match its own feedback drops out of it. */
  lemma {:induction false} FilterShrinks(pool: seq<string>, guess: string, a: int, b: int)
    requires guess in pool && !Matches(guess, guess, a, b)
    ensures |Filter(pool, guess, a, b)| < |pool|
    decreases |pool|
  {
    if pool[0] != guess {
      assert guess in pool[1..];
      FilterShrinks(pool[1..], guess, a, b);
    }
  }

  lemma EmptyIffNoMembers(s: seq<string>)
    ensures s == [] <==> forall c :: c !in s
  {
    if s != [] {
      assert s[0] in s;
    }
  }

  lemma AscendingFirstLeast(s: seq<string>, c: string)
    requires StrictlyAscending(s) && c in s
    ensures FourDigits(c) && Value(s[0]) <= Value(c)
  {
    var i :| 0 <= i < |s| && s[i] == c;
    if i > 0 {
      assert Value(s[0]) < Value(s[i]);
    }
  }

  lemma AscendingTail(s: seq<string>)
    requires StrictlyAscending(s) && s != []
    ensures StrictlyAscending(s[1..])
    ensures forall c :: c in s[1..] <==> c in s && c != s[0]
  {
    forall c | c in s[1..] ensures c != s[0] {
      var i :| 0 <= i < |s[1..]| && s[1..][i] == c;
      assert Value(s[0]) < Value(s[i + 1]);
    }
    forall c | c in s && c != s[0] ensures c in s[1..] {
      var i :| 0 <= i < |s| && s[i] == c;
      assert s[1..][i - 1] == c;
    }
  }

  /**
   * An ascending sequence is fixed by its elements, so a pool that is ascending
   * and has the right members is the order-preserving filter of the pool before.
   */
  lemma {:induction false} AscendingUnique(x: seq<string>, y: seq<string>)
    requires StrictlyAscending(x) && StrictlyAscending(y)
    requires forall c :: c in x <==> c in y
    ensures x == y
    decreases |x|
  {
    EmptyIffNoMembers(x);
    EmptyIffNoMembers(y);
    if x != [] && y != [] {
      AscendingFirstLeast(x, y[0]);
      AscendingFirstLeast(y, x[0]);
      ValuePad(x[0]);
      ValuePad(y[0]);
      assert x[0] == y[0];
      AscendingTail(x);
      AscendingTail(y);
      AscendingUnique(x[1..], y[1..]);
      assert x == [x[0]] + x[1..] && y == [y[0]] + y[1..];
    }
  }

  /**
   * The narrowed pool is the only ascending sequence whose members are the
   * pool's codes that match the feedback.
   */
  lemma FilterCharacterized(pool: seq<string>, guess: string, a: int, b: int, r: seq<string>)
    requires StrictlyAscending(pool) && StrictlyAscending(r)
    requires forall c :: c in r <==> c in pool && Matches(c, guess, a, b)
    ensures r == Filter(pool, guess, a, b)
  {
    FilterAscending(pool, guess, a, b);
    AscendingUnique(r, Filter(pool, guess, a, b));
  }

  lemma ConsistentAppend(c: string, history: seq<Turn>, t: Turn)
    ensures ConsistentWithHistory(c, history + [t]) <==>
      ConsistentWithHistory(c, history) && (t.a != 4 ==> Matches(c, t.guess, t.a, t.b))
  {
    var h := history + [t];
    assert h[|history|] == t;
    assert forall k :: 0 <= k < |history| ==> h[k] == history[k];
  }

  /** Every history row holds a code and feedback in range. */
  predicate WellFormedHistory(history: seq<Turn>) {
    forall k :: 0 <= k < |history| ==>
      IsValidNumber(history[k].guess) && history[k].a + history[k].b <= 4
  }

  /**
   * The solver's invariant: once there is a guess, the pool holds, in
   * ascending order, exactly the codes that agree with every non-4A feedback
   * recorded, and the guess is in the pool unless the pool has run dry.
   */
  ghost predicate SolverInvariant(history: seq<Turn>, candidates: seq<string>, guess: string) {
    WellFormedHistory(history) &&
    StrictlyAscending(candidates) &&
    (forall k :: 0 <= k < |candidates| ==> IsValidNumber(candidates[k])) &&
    (guess == "" ==> history == [] && candidates == []) &&
    (guess != "" ==> IsValidNumber(guess)) &&
    (candidates != [] ==> guess in candidates) &&
    (guess != "" ==>
      forall s :: s in candidates <==> IsValidNumber(s) && ConsistentWithHistory(s, history))
  }

  /** The mount effect establishes the invariant. */
  lemma InitEstablishes(idx: nat)
    requires idx < |AllCodes()|
    ensures SolverInvariant([], AllCodes(), AllCodes()[idx])
    ensures forall s :: IsValidNumber(s) <==> s in AllCodes()
  {
    AllCodesComplete();
  }

  /** A row holding a code and feedback in range keeps the history well formed. */
  lemma WellFormedAppend(history: seq<Turn>, t: Turn)
    requires WellFormedHistory(history) && IsValidNumber(t.guess) && t.a + t.b <= 4
    ensures WellFormedHistory(history + [t])
  {
    var h := history + [t];
    forall k | 0 <= k < |h| ensures IsValidNumber(h[k].guess) && h[k].a + h[k].b <= 4 {
      if k < |history| { assert h[k] == history[k]; }
    }
  }

  /** The invariant only depends on which codes the history admits. */
  lemma SameConsistency(history: seq<Turn>, h: seq<Turn>, candidates: seq<string>, guess: string)
    ensures SolverInvariant(history, candidates, guess) && guess != "" && WellFormedHistory(h) &&
      (forall s :: IsValidNumber(s) ==> (ConsistentWithHistory(s, h) <==> ConsistentWithHistory(s, history)))
      ==> SolverInvariant(h, candidates, guess)
  {
  }

  /** A 4A round keeps the invariant: its row is not used to narrow the pool. */
  lemma SolvedKeeps(history: seq<Turn>, candidates: seq<string>, guess: string)
    requires SolverInvariant(history, candidates, guess) && guess != ""
    ensures SolverInvariant(history + [Turn(guess, 4, 0)], candidates, guess)
  {
    var t := Turn(guess, 4, 0);
    WellFormedAppend(history, t);
    forall s | IsValidNumber(s)
      ensures ConsistentWithHistory(s, history + [t]) <==> ConsistentWithHistory(s, history)
    {
      ConsistentAppend(s, history, t);
    }
    SameConsistency(history, history + [t], candidates, guess);
  }

  /**
   * Any other round keeps the invariant, and the pool loses at least the
   * guess, which scores 4A0B against itself.
   */
  lemma NarrowKeeps(history: seq<Turn>, candidates: seq<string>, guess: string, a: nat, b: nat, idx: nat)
    requires SolverInvariant(history, candidates, guess) && guess != ""
    requires a + b <= 4 && a != 4
    requires Filter(candidates, guess, a, b) != [] ==> idx < |Filter(candidates, guess, a, b)|
    ensures var next := Filter(candidates, guess, a, b);
      SolverInvariant(history + [Turn(guess, a, b)], next, if next == [] then guess else next[idx]) &&
      (candidates != [] ==> |next| < |candidates|) &&
      (next == [] ==> forall s :: IsValidNumber(s) ==> !ConsistentWithHistory(s, history + [Turn(guess, a, b)]))
  {
    var h := history + [Turn(guess, a, b)];
    var next := Filter(candidates, guess, a, b);
    var g := if next == [] then guess else next[idx];
    WellFormedAppend(history, Turn(guess, a, b));
    FilterAscending(candidates, guess, a, b);
    forall k | 0 <= k < |next| ensures IsValidNumber(next[k]) {
      assert next[k] in next;
    }
    forall s ensures ConsistentWithHistory(s, h) <==> ConsistentWithHistory(s, history) && Matches(s, guess, a, b) {
      ConsistentAppend(s, history, Turn(guess, a, b));
    }
    if candidates != [] {
      FilterShrinks(candidates, guess, a, b);
    }
    if next != [] {
      assert g in next;
    }
  }

  /**
   * Truthful feedback never drops the secret: a code that agrees with the
   * history stays in the pool, and when it is the only code left, it is the
   * guess.
   */
  lemma SecretSurvives(history: seq<Turn>, candidates: seq<string>, guess: string, secret: string)
    requires SolverInvariant(history, candidates, guess) && guess != ""
    requires IsValidNumber(secret) && ConsistentWithHistory(secret, history)
    ensures secret in candidates
    ensures |candidates| == 1 ==> guess == secret
    ensures secret in Filter(candidates, guess, Score(secret, guess).a, Score(secret, guess).b)
  {
    if |candidates| == 1 {
      assert candidates[0] == secret && candidates[0] == guess;
    }
  }

  /** The pick the source makes at random gets an index below the size of the narrowed pool. */
  predicate PickInRange(pool: seq<string>, guess: string, a: int, b: int, idx: nat) {
    var next := Filter(pool, guess, a, b);
    (guess != "" && a + b <= 4 && a != 4 && next != []) ==> idx < |next|
  }

  /** The state of ComputerGuessingGame; "" in currentGuess stands for no guess yet. */
  class ComputerGuessingGame {
    var history: seq<Turn>
    var candidates: seq<string>
    var currentGuess: string
    var gameOver: bool
    var feedbackA: int
    var feedbackB: int
    var error: Option<Message>

    ghost predicate Valid()
      reads this
    {
      SolverInvariant(history, candidates, currentGuess)
    }

    /** The initial values of the component's state. */
    constructor ()
      ensures Valid()
      ensures history == [] && candidates == [] && currentGuess == ""
      ensures !gameOver && feedbackA == 0 && feedbackB == 0 && error == None
    {
      history := [];
      candidates := [];
      currentGuess := "";
      gameOver := false;
      feedbackA := 0;
      feedbackB := 0;
      error := None;
    }

    /** The mount effect: the pool becomes every code and the guess the one at `idx`. */
    method Init(idx: nat)
      requires Valid() && history == []
      requires idx < |AllCodes()|
      modifies this
      ensures Valid()
      ensures candidates == AllCodes() && currentGuess == AllCodes()[idx]
      ensures forall s :: IsValidNumber(s) <==> s in candidates
      ensures history == old(history) && gameOver == old(gameOver) && error == old(error)
      ensures feedbackA == old(feedbackA) && feedbackB == old(feedbackB)
    {
      var all := GenerateAllPossibilities();
      InitEstablishes(idx);
      candidates, currentGuess := all, all[idx];
    }

    /**
     * handleSubmitFeedback, with the player's choice of A and B and the index
     * of the random pick as parameters.
     */
    method SubmitFeedback(a: int, b: int, idx: nat)
      requires Valid()
      requires 0 <= a <= 4 && 0 <= b <= 4
      requires PickInRange(candidates, currentGuess, a, b, idx)
      modifies this
      ensures Valid()
      // no guess yet: nothing but the selectors changes
      ensures old(currentGuess) == "" ==>
        history == old(history) && candidates == old(candidates) && currentGuess == old(currentGuess) &&
        gameOver == old(gameOver) && error == old(error) && feedbackA == a && feedbackB == b
      // A + B > 4: only the error is set
      ensures old(currentGuess) != "" && a + b > 4 ==>
        error == Some(SumTooLarge) &&
        history == old(history) && candidates == old(candidates) && currentGuess == old(currentGuess) &&
        gameOver == old(gameOver) && feedbackA == a && feedbackB == b
      // 4A: solved, one row (guess, 4, 0) is recorded, the pool is untouched
      ensures old(currentGuess) != "" && a == 4 && b == 0 ==>
        gameOver && error == None &&
        history == old(history) + [Turn(old(currentGuess), 4, 0)] &&
        candidates == old(candidates) && currentGuess == old(currentGuess) &&
        feedbackA == a && feedbackB == b
      // any other feedback: record it and narrow the pool
      ensures old(currentGuess) != "" && a + b <= 4 && a != 4 ==>
        history == old(history) + [Turn(old(currentGuess), a, b)] &&
        candidates == Filter(old(candidates), old(currentGuess), a, b) &&
        (old(candidates) != [] ==> |candidates| < |old(candidates)|) &&
        (candidates == [] ==>
          gameOver && error == Some(Impossible) && currentGuess == old(currentGuess) &&
          feedbackA == a && feedbackB == b &&
          forall s :: IsValidNumber(s) ==> !ConsistentWithHistory(s, history)) &&
        (candidates != [] ==>
          gameOver == old(gameOver) && error == None && currentGuess == candidates[idx] &&
          feedbackA == 0 && feedbackB == 0)
      // the pool never grows
      ensures forall c :: c in candidates ==> c in old(candidates)
    {
      // the selectors' clicks store a and b first; each branch below then
      // settles the rest of the new state, which is written back at the end
      var h, pool, guess, over, err, fa, fb := history, candidates, currentGuess, gameOver, error, a, b;
      if guess == "" {
      } else if a + b > 4 {
        err := Some(SumTooLarge);
      } else if a == 4 {
        SolvedKeeps(history, candidates, guess);
        h, over, err := history + [Turn(guess, 4, 0)], true, None;
      } else {
        var next := Filter(candidates, guess, a, b);
        NarrowKeeps(history, candidates, guess, a, b, idx);
        h, pool := history + [Turn(guess, a, b)], next;
        if next == [] {
          over, err := true, Some(Impossible);
        } else {
          guess, err, fa, fb := next[idx], None, 0, 0;
        }
      }
      history, candidates, currentGuess, gameOver, error, feedbackA, feedbackB := h, pool, guess, over, err, fa, fb;
    }
  }
}
