/**
 * A whole computer-guesses game against a player who always answers
 * truthfully for a fixed secret: the game ends on 4A with the secret, and
 * it takes no more rounds than there are codes.
 */
module Play {
  import opened Codes
  import opened Scoring
  import opened Solver

  /** Every row's feedback is the true score of its guess against the secret. */
  predicate Truthful(history: seq<Turn>, secret: string) {
    forall k :: 0 <= k < |history| ==>
      |secret| == 4 && |history[k].guess| == 4 &&
      Score(secret, history[k].guess) == Feedback(history[k].a, history[k].b)
  }

  lemma TruthfulAppend(history: seq<Turn>, secret: string, guess: string)
    requires Truthful(history, secret) && |secret| == 4 && |guess| == 4
    ensures Truthful(history + [Turn(guess, Score(secret, guess).a, Score(secret, guess).b)], secret)
  {
    var h := history + [Turn(guess, Score(secret, guess).a, Score(secret, guess).b)];
    assert forall k :: 0 <= k < |history| ==> h[k] == history[k];
  }

  /**
   * One truthful round: a 4A means the guess is the secret; anything else
   * keeps the secret in the narrowed pool, which is smaller.
   */
  lemma TruthfulRound(history: seq<Turn>, candidates: seq<string>, guess: string, secret: string)
    requires SolverInvariant(history, candidates, guess) && guess != ""
    requires IsValidNumber(secret) && secret in candidates
    ensures var fb := Score(secret, guess);
      fb.a + fb.b <= 4 &&
      (fb.a == 4 <==> guess == secret) &&
      (fb.a == 4 ==> fb.b == 0) &&
      (fb.a != 4 ==>
        secret in Filter(candidates, guess, fb.a, fb.b) &&
        |Filter(candidates, guess, fb.a, fb.b)| < |candidates|)
  {
    var fb := Score(secret, guess);
    if fb.a != 4 {
      SecretSurvives(history, candidates, guess, secret);
      NarrowKeeps(history, candidates, guess, fb.a, fb.b, 0);
    }
  }

  /**
   * Drives ComputerGuessingGame: the first guess is at `firstIdx`, and round r
   * picks the next guess at `pick(r)` reduced into the range of the narrowed pool.
   */
  method PlayTruthfully(secret: string, firstIdx: nat, pick: nat -> nat) returns (history: seq<Turn>)
    requires IsValidNumber(secret)
    requires firstIdx < |AllCodes()|
    ensures 1 <= |history| <= |AllCodes()|
    ensures history[|history| - 1] == Turn(secret, 4, 0)
    ensures Truthful(history, secret)
  {
    var game := new ComputerGuessingGame();
    game.Init(firstIdx);
    AllCodesComplete();
    while !game.gameOver
      invariant game.Valid() && game.currentGuess != ""
      invariant secret in game.candidates
      invariant Truthful(game.history, secret)
      invariant |game.history| + |game.candidates| <= |AllCodes()| + (if game.gameOver then 1 else 0)
      invariant game.gameOver ==> game.history != [] && game.history[|game.history| - 1] == Turn(secret, 4, 0)
      decreases |game.candidates| + (if game.gameOver then 0 else 1)
    {
      var a, b := CalculateAB(secret, game.currentGuess);
      TruthfulRound(game.history, game.candidates, game.currentGuess, secret);
      TruthfulAppend(game.history, secret, game.currentGuess);
      if a == 4 {
        game.SubmitFeedback(a, b, 0);
      } else {
        var next := Filter(game.candidates, game.currentGuess, a, b);
        var idx := pick(|game.history|) % |next|;
        game.SubmitFeedback(a, b, idx);
      }
    }
    history := game.history;
  }
}
