/**
 * Drawing a secret: four digits are taken without replacement from the list
 * "0".."9", each removed from the list once taken. The random index of each
 * round is a parameter: `choices[i]` is the index drawn in round i, below the
 * 10 - i digits still in the list.
 */
module Secret {
  import opened Codes

  /** The digit list the draw starts from. */
  const AllDigits: string := "0123456789"

  /**
   * `digits.splice(i, 1)`: the list without its element at index i. It is one
   * shorter and gains no character.
   */
  function Splice(s: string, i: nat): (r: string)
    requires i < |s|
    ensures |r| == |s| - 1
    ensures forall c :: c in r ==> c in s
  {
    s[..i] + s[i + 1..]
  }

  /** Each index is below the number of digits left in its round. */
  predicate ChoicesFit(choices: seq<nat>, n: nat) {
    |choices| <= n && forall k :: 0 <= k < |choices| ==> choices[k] < n - k
  }

  /** The indices one call of generateSecretNumber draws. */
  predicate SecretChoices(choices: seq<nat>) {
    |choices| == 4 && ChoicesFit(choices, 10)
  }

  /** The string drawn from `digits` by the given indices: one character per index. */
  function Draw(digits: string, choices: seq<nat>): (r: string)
    requires ChoicesFit(choices, |digits|)
    ensures |r| == |choices|
    decreases |choices|
  {
    if choices == [] then ""
    else
      assert ChoicesFit(choices[1..], |digits| - 1) by {
        forall k | 0 <= k < |choices[1..]| ensures choices[1..][k] < |digits| - 1 - k {
          assert choices[1..][k] == choices[k + 1];
        }
      }
      [digits[choices[0]]] + Draw(Splice(digits, choices[0]), choices[1..])
  }

  lemma SpliceDistinct(s: string, i: nat)
    requires i < |s| && Distinct(s)
    ensures Distinct(Splice(s, i))
    ensures s[i] !in Splice(s, i)
    ensures forall c :: c in s && c != s[i] ==> c in Splice(s, i)
  {
    var r := Splice(s, i);
    forall j, k | 0 <= j < k < |r| ensures r[j] != r[k] {
      var j' := if j < i then j else j + 1;
      var k' := if k < i then k else k + 1;
      assert r[j] == s[j'] && r[k] == s[k'];
    }
    forall c | c in s && c != s[i] ensures c in r {
      var j :| 0 <= j < |s| && s[j] == c;
      if j < i { assert r[j] == c; } else { assert r[j - 1] == c; }
    }
    forall j | 0 <= j < |r| ensures r[j] != s[i] {
      if j < i { assert r[j] == s[j]; } else { assert r[j] == s[j + 1]; }
    }
  }

  /**
   * The loop's invariant: the digits left and the digits drawn are decimal
   * digits, neither list repeats one, and no digit is in both.
   */
  predicate DrawState(digits: string, result: string) {
    Distinct(digits) && Distinct(result) &&
    (forall k :: 0 <= k < |digits| ==> IsDigit(digits[k])) &&
    (forall k :: 0 <= k < |result| ==> IsDigit(result[k])) &&
    (forall k :: 0 <= k < |result| ==> result[k] !in digits)
  }

  /** Taking one digit out of the list and onto the result keeps the invariant. */
  lemma DrawStateStep(digits: string, result: string, idx: nat)
    requires idx < |digits| && DrawState(digits, result)
    ensures DrawState(Splice(digits, idx), result + [digits[idx]])
  {
    SpliceDistinct(digits, idx);
    var r := result + [digits[idx]];
    var d := Splice(digits, idx);
    forall k | 0 <= k < |d| ensures IsDigit(d[k]) {
      assert d[k] in digits;
    }
    forall j, k | 0 <= j < k < |r| ensures r[j] != r[k] {
      if k < |result| { assert r[j] == result[j] && r[k] == result[k]; }
      else { assert r[j] == result[j] && r[k] == digits[idx]; }
    }
  }

  /** generateSecretNumber, with the random index of each round given in `choices`. */
  method GenerateSecretNumber(choices: seq<nat>) returns (result: string)
    requires SecretChoices(choices)
    ensures IsValidNumber(result)
    ensures result == Draw(AllDigits, choices)
  {
    var digits := AllDigits;
    result := "";
    assert DrawState(digits, result);
    for i := 0 to 4
      invariant |digits| == 10 - i && |result| == i
      invariant DrawState(digits, result)
      invariant ChoicesFit(choices[i..], |digits|)
      invariant result + Draw(digits, choices[i..]) == Draw(AllDigits, choices)
    {
      var idx := choices[i];
      DrawFirst(digits, choices, i);
      DrawStateStep(digits, result, idx);
      assert result + Draw(digits, choices[i..]) ==
        (result + [digits[idx]]) + Draw(Splice(digits, idx), choices[i + 1..]);
      result := result + [digits[idx]];
      digits := Splice(digits, idx);
    }
    assert choices[4..] == [];
  }

  /** One round of the draw: take the digit at the round's index, then draw the rest from what is left. */
  lemma DrawFirst(digits: string, choices: seq<nat>, i: nat)
    requires i < |choices| && ChoicesFit(choices[i..], |digits|)
    ensures choices[i] < |digits|
    ensures ChoicesFit(choices[i + 1..], |digits| - 1)
    ensures Draw(digits, choices[i..]) == [digits[choices[i]]] + Draw(Splice(digits, choices[i]), choices[i + 1..])
  {
    assert choices[i..][0] == choices[i] && choices[i..][1..] == choices[i + 1..];
  }

  /** What is drawn has one character per index, each from the list, none twice. */
  lemma {:induction false} DrawShape(digits: string, choices: seq<nat>)
    requires ChoicesFit(choices, |digits|) && Distinct(digits)
    ensures Distinct(Draw(digits, choices))
    ensures forall c :: c in Draw(digits, choices) ==> c in digits
    decreases |choices|
  {
    if choices != [] {
      var rest := Splice(digits, choices[0]);
      SpliceDistinct(digits, choices[0]);
      DrawShape(rest, choices[1..]);
      var r := Draw(digits, choices);
      assert r == [digits[choices[0]]] + Draw(rest, choices[1..]);
      forall j, k | 0 <= j < k < |r| ensures r[j] != r[k] {
        if j == 0 { assert r[k] in Draw(rest, choices[1..]); }
        else { assert r[j] == Draw(rest, choices[1..])[j - 1] && r[k] == Draw(rest, choices[1..])[k - 1]; }
      }
    }
  }

  /** Every draw of four indices in range is a code. */
  lemma DrawValid(choices: seq<nat>)
    requires SecretChoices(choices)
    ensures IsValidNumber(Draw(AllDigits, choices))
  {
    assert Distinct(AllDigits);
    var r := Draw(AllDigits, choices);
    DrawShape(AllDigits, choices);
    forall i | 0 <= i < 4 ensures IsDigit(r[i]) {
      assert r[i] in AllDigits;
    }
  }

  /** Different index sequences draw different strings. */
  lemma {:induction false} DrawInjective(digits: string, c1: seq<nat>, c2: seq<nat>)
    requires Distinct(digits) && ChoicesFit(c1, |digits|) && ChoicesFit(c2, |digits|)
    requires |c1| == |c2|
    requires Draw(digits, c1) == Draw(digits, c2)
    ensures c1 == c2
    decreases |c1|
  {
    if c1 != [] {
      assert Draw(digits, c1)[0] == digits[c1[0]] && Draw(digits, c2)[0] == digits[c2[0]];
      assert c1[0] == c2[0];
      var rest := Splice(digits, c1[0]);
      SpliceDistinct(digits, c1[0]);
      assert Draw(digits, c1)[1..] == Draw(rest, c1[1..]);
      assert Draw(digits, c2)[1..] == Draw(rest, c2[1..]);
      DrawInjective(rest, c1[1..], c2[1..]);
      assert c1 == [c1[0]] + c1[1..] && c2 == [c2[0]] + c2[1..];
    }
  }

  /** The position of a character in a string. */
  function IndexOf(s: string, c: char): (i: nat)
    requires c in s
    ensures i < |s| && s[i] == c
  {
    if s[0] == c then 0 else 1 + IndexOf(s[1..], c)
  }

  /** Drawing `[i] + tail` takes digit i first and then draws `tail` from what is left. */
  lemma DrawCons(digits: string, i: nat, tail: seq<nat>)
    requires i < |digits| && ChoicesFit(tail, |digits| - 1)
    ensures ChoicesFit([i] + tail, |digits|)
    ensures Draw(digits, [i] + tail) == [digits[i]] + Draw(Splice(digits, i), tail)
  {
    var choices := [i] + tail;
    forall k | 0 <= k < |choices| ensures choices[k] < |digits| - k {
      if k > 0 { assert choices[k] == tail[k - 1]; }
    }
    assert choices[1..] == tail;
  }

  /** What is left of a repeat-free target after its first character lies in the spliced list. */
  lemma RestInSplice(digits: string, target: string, i: nat)
    requires Distinct(digits) && Distinct(target) && target != []
    requires forall c :: c in target ==> c in digits
    requires i < |digits| && digits[i] == target[0]
    ensures Distinct(target[1..])
    ensures forall c :: c in target[1..] ==> c in Splice(digits, i)
  {
    SpliceDistinct(digits, i);
    forall c | c in target[1..] ensures c in Splice(digits, i) {
      var k :| 0 <= k < |target[1..]| && target[1..][k] == c;
      assert target[k + 1] == c && target[0] != target[k + 1];
    }
  }

  /** The indices that draw `target` from `digits`. */
  function ChoicesFor(digits: string, target: string): (choices: seq<nat>)
    requires Distinct(digits) && Distinct(target) && |target| <= |digits|
    requires forall c :: c in target ==> c in digits
    ensures |choices| == |target| && ChoicesFit(choices, |digits|)
    ensures Draw(digits, choices) == target
    decreases |target|
  {
    if target == [] then []
    else
      var i := IndexOf(digits, target[0]);
      RestInSplice(digits, target, i);
      SpliceDistinct(digits, i);
      var tail := ChoicesFor(Splice(digits, i), target[1..]);
      DrawCons(digits, i, tail);
      assert target == [target[0]] + target[1..];
      [i] + tail
  }

  /**
   * Every code is drawn by exactly one sequence of indices. With each index
   * uniform in its range, every one of the codes is therefore equally likely.
   */
  lemma SecretDrawBijective(s: string)
    requires IsValidNumber(s)
    ensures exists choices :: SecretChoices(choices) && Draw(AllDigits, choices) == s
    ensures forall c1, c2 ::
      (SecretChoices(c1) && SecretChoices(c2) && Draw(AllDigits, c1) == s && Draw(AllDigits, c2) == s)
      ==> c1 == c2
  {
    assert Distinct(AllDigits);
    forall c | c in s ensures c in AllDigits {
      var k :| 0 <= k < |s| && s[k] == c;
      assert IsDigit(c);
      assert c == AllDigits[c as int - '0' as int];
    }
    var choices := ChoicesFor(AllDigits, s);
    assert SecretChoices(choices);
    forall c1, c2 | SecretChoices(c1) && SecretChoices(c2) &&
      Draw(AllDigits, c1) == s && Draw(AllDigits, c2) == s
      ensures c1 == c2
    {
      DrawInjective(AllDigits, c1, c2);
    }
  }
}
