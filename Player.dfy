/**
 * The player-guesses mode: the computer draws a secret, the player types
 * guesses, and each valid guess is scored and recorded until one scores 4A.
 */
module Player {
  import opened Wrappers
  import opened Codes
  import opened Scoring
  import opened Secret

  /** The one message of this mode: "Please enter 4 distinct digits (no duplicates)." */
  datatype Message = NotDistinctDigits

  /**
   * JavaScript's `length` of a string: its count of UTF-16 code units. A
   * character outside the Basic Multilingual Plane is a surrogate pair and
   * counts twice; the length equals the number of characters exactly when
   * there is no such character.
   */
  function Utf16Length(s: string): (n: nat)
    ensures |s| <= n <= 2 * |s|
    ensures n == |s| <==> forall i :: 0 <= i < |s| ==> s[i] as int < 0x1_0000
    decreases |s|
  {
    if s == [] then 0
    else
      assert forall i :: 1 <= i < |s| ==> s[i] == s[1..][i - 1];
      (if s[0] as int < 0x1_0000 then 1 else 2) + Utf16Length(s[1..])
  }

  /** Some recorded guess is the secret itself. */
  predicate Guessed(guesses: seq<Turn>, secret: string) {
    exists k :: 0 <= k < |guesses| && guesses[k].guess == secret
  }

  /** The state of UserGuessingGame; "" in secret stands for not drawn yet. */
  class UserGuessingGame {
    var secret: string
    var guesses: seq<Turn>
    var input: string
    var won: bool
    var error: Option<Message>

    /**
     * Every recorded guess is a code, scored against the secret, and the game
     * is won exactly when one of them was the secret.
     */
    ghost predicate Valid()
      reads this
    {
      (secret == "" ==> guesses == [] && !won) &&
      (secret != "" ==> IsValidNumber(secret)) &&
      (forall k :: 0 <= k < |guesses| ==>
        IsValidNumber(guesses[k].guess) && |secret| == 4 &&
        Score(secret, guesses[k].guess) == Feedback(guesses[k].a, guesses[k].b)) &&
      (won <==> Guessed(guesses, secret))
    }

    /** The initial values of the component's state. */
    constructor ()
      ensures Valid()
      ensures secret == "" && guesses == [] && input == "" && !won && error == None
    {
      secret := "";
      guesses := [];
      input := "";
      won := false;
      error := None;
    }

    /** The mount effect: draw the secret with the given indices. */
    method Init(choices: seq<nat>)
      requires Valid() && guesses == []
      requires SecretChoices(choices)
      modifies this
      ensures Valid()
      ensures IsValidNumber(secret) && secret == Draw(AllDigits, choices)
      ensures guesses == old(guesses) && input == old(input) && won == old(won) && error == old(error)
    {
      secret := GenerateSecretNumber(choices);
    }

    /** The input's change handler: store the text and clear any error. */
    method SetInput(text: string)
      requires Valid()
      modifies this
      ensures Valid()
      ensures input == text && error == None
      ensures secret == old(secret) && guesses == old(guesses) && won == old(won)
    {
      input := text;
      if error != None {
        error := None;
      }
    }

    /** handleGuess: score the typed guess and record it. */
    method HandleGuess()
      requires Valid() && secret != ""
      modifies this
      ensures Valid()
      ensures secret == old(secret)
      // not four UTF-16 code units long: nothing happens
      ensures Utf16Length(old(input)) != 4 ==>
        guesses == old(guesses) && input == old(input) && won == old(won) && error == old(error)
      // four code units that are not a code: only the error is set
      ensures Utf16Length(old(input)) == 4 && !IsValidNumber(old(input)) ==>
        error == Some(NotDistinctDigits) &&
        guesses == old(guesses) && input == old(input) && won == old(won)
      // a code: it is scored, recorded, the input is cleared, and a 4A wins
      ensures IsValidNumber(old(input)) ==>
        error == None && input == "" &&
        guesses == old(guesses) + [Turn(old(input), Score(secret, old(input)).a, Score(secret, old(input)).b)] &&
        won == (old(won) || old(input) == secret)
    {
      if Utf16Length(input) != 4 {
        return;
      }
      if !IsValidNumber(input) {
        error := Some(NotDistinctDigits);
        return;
      }
      error := None;
      var a, b := CalculateAB(secret, input);
      var guess := input;
      ghost var before := guesses;
      guesses := guesses + [Turn(guess, a, b)];
      assert guesses[|before|].guess == guess;
      assert forall k :: 0 <= k < |before| ==> guesses[k] == before[k];
      input := "";
      if a == 4 {
        won := true;
      }
      assert Guessed(guesses, secret) <==> Guessed(before, secret) || guess == secret;
    }
  }
}
