/**
 * Scoring a guess against a secret: `a` counts the positions where the two
 * agree, `b` the remaining positions whose guess digit occurs somewhere in the
 * secret.
 */
module Scoring {
  import opened Codes

  datatype Feedback = Feedback(a: nat, b: nat)

  /** One row of a game's history: a guess and the feedback it got. */
  datatype Turn = Turn(guess: string, a: nat, b: nat)

  /** Positions below n where guess and secret hold the same digit. */
  function ExactBelow(secret: string, guess: string, n: nat): set<int>
    requires |secret| == 4 && |guess| == 4 && n <= 4
  {
    set i | 0 <= i < n && guess[i] == secret[i]
  }

  /** Positions below n whose guess digit is elsewhere in the secret. */
  function MisplacedBelow(secret: string, guess: string, n: nat): set<int>
    requires |secret| == 4 && |guess| == 4 && n <= 4
  {
    set i | 0 <= i < n && guess[i] != secret[i] && guess[i] in secret
  }

  /**
   * The feedback of `guess` against `secret`: the sizes of the two position
   * sets. Each position adds to at most one of them, and four exact matches
   * (with nothing misplaced) happen exactly when the guess is the secret.
   */
  function Score(secret: string, guess: string): (r: Feedback)
    requires |secret| == 4 && |guess| == 4
    ensures r.a + r.b <= 4
    ensures r.a == 4 <==> guess == secret
    ensures r == Feedback(4, 0) <==> guess == secret
  {
    var exact := ExactBelow(secret, guess, 4);
    var misplaced := MisplacedBelow(secret, guess, 4);
    PositionCount(exact);
    PositionCount(misplaced);
    assert |exact| == 4 ==> guess == secret by {
      if |exact| == 4 {
        assert guess[0] == secret[0] && guess[1] == secret[1];
        assert guess[2] == secret[2] && guess[3] == secret[3];
      }
    }
    Feedback(|exact|, |misplaced|)
  }

  /** calculateAB: one pass over the four positions, bumping `a` or `b`. */
  method CalculateAB(secret: string, guess: string) returns (a: nat, b: nat)
    requires |secret| == 4 && |guess| == 4
    ensures Feedback(a, b) == Score(secret, guess)
  {
    a, b := 0, 0;
    for i := 0 to 4
      invariant a == |ExactBelow(secret, guess, i)|
      invariant b == |MisplacedBelow(secret, guess, i)|
    {
      if guess[i] == secret[i] {
        assert ExactBelow(secret, guess, i + 1) == ExactBelow(secret, guess, i) + {i};
        assert MisplacedBelow(secret, guess, i + 1) == MisplacedBelow(secret, guess, i);
        a := a + 1;
      } else if guess[i] in secret {
        assert ExactBelow(secret, guess, i + 1) == ExactBelow(secret, guess, i);
        assert MisplacedBelow(secret, guess, i + 1) == MisplacedBelow(secret, guess, i) + {i};
        b := b + 1;
      } else {
        assert ExactBelow(secret, guess, i + 1) == ExactBelow(secret, guess, i);
        assert MisplacedBelow(secret, guess, i + 1) == MisplacedBelow(secret, guess, i);
      }
    }
  }

  function Ind(p: bool): nat {
    if p then 1 else 0
  }

  /** The size of a set of positions, position by position. */
  lemma PositionCount(P: set<int>)
    requires P <= {0, 1, 2, 3}
    ensures |P| == Ind(0 in P) + Ind(1 in P) + Ind(2 in P) + Ind(3 in P)
  {
    var Q3 := P - {3};
    var Q2 := Q3 - {2};
    var Q1 := Q2 - {1};
    var Q0 := Q1 - {0};
    assert |Q3| == |P| - Ind(3 in P);
    assert |Q2| == |Q3| - Ind(2 in P);
    assert |Q1| == |Q2| - Ind(1 in P);
    assert |Q0| == |Q1| - Ind(0 in P);
    assert Q0 == {};
  }

  /** The score, position by position. */
  lemma ScoreByPosition(secret: string, guess: string)
    requires |secret| == 4 && |guess| == 4
    ensures Score(secret, guess).a ==
      Ind(guess[0] == secret[0]) + Ind(guess[1] == secret[1]) +
      Ind(guess[2] == secret[2]) + Ind(guess[3] == secret[3])
    ensures Score(secret, guess).b ==
      Ind(guess[0] != secret[0] && guess[0] in secret) + Ind(guess[1] != secret[1] && guess[1] in secret) +
      Ind(guess[2] != secret[2] && guess[2] in secret) + Ind(guess[3] != secret[3] && guess[3] in secret)
  {
    PositionCount(ExactBelow(secret, guess, 4));
    PositionCount(MisplacedBelow(secret, guess, 4));
  }

  /** Between two codes with distinct digits the feedback does not depend on which one is the secret. */
  lemma ScoreSymmetric(x: string, y: string)
    requires IsValidNumber(x) && IsValidNumber(y)
    ensures Score(x, y) == Score(y, x)
  {
    ScoreByPosition(x, y);
    ScoreByPosition(y, x);
    assert forall c :: c in x <==> c == x[0] || c == x[1] || c == x[2] || c == x[3];
    assert forall c :: c in y <==> c == y[0] || c == y[1] || c == y[2] || c == y[3];
  }

  /** Two of the worked scorings of the game's rules. */
  lemma ScoreExamples()
    ensures Score("1234", "1243") == Feedback(2, 2)
    ensures Score("0123", "4567") == Feedback(0, 0)
  {
    ScoreByPosition("1234", "1243");
    ScoreByPosition("0123", "4567");
  }
}
