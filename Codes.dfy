/**
 * The code space of 1A2B: a code is a string of four decimal digits, all
 * distinct ("0123" is a code, "0011" is not). This module holds the validity
 * check, the zero-padded decimal rendering of 0..9999 and the enumeration of
 * every code in ascending numeric order.
 */
module Codes {

  predicate IsDigit(c: char) {
    '0' <= c <= '9'
  }

  /** What the regular expression /^\d{4}$/ accepts: exactly four ASCII digits. */
  predicate FourDigits(s: string) {
    |s| == 4 && forall i :: 0 <= i < |s| ==> IsDigit(s[i])
  }

  /** The set of characters of a string, as `new Set(num.split(''))` builds it. */
  function CharSet(s: string): set<char> {
    set i | 0 <= i < |s| :: s[i]
  }

  /** No character occurs twice. */
  predicate Distinct(s: string) {
    forall i, j :: 0 <= i < j < |s| ==> s[i] != s[j]
  }

  /**
   * isValidNumber: the digit pattern must match and the set of characters
   * must have size 4, which means four decimal digits, pairwise distinct.
   */
  predicate IsValidNumber(s: string): (valid: bool)
    ensures valid <==> FourDigits(s) && Distinct(s)
  {
    CharSetSize(s);
    FourDigits(s) && |CharSet(s)| == 4
  }

  lemma {:induction false} CharSetSize(s: string)
    ensures |CharSet(s)| <= |s|
    ensures |CharSet(s)| == |s| <==> Distinct(s)
  {
    if |s| > 0 {
      var p := s[..|s| - 1];
      var x := s[|s| - 1];
      CharSetSize(p);
      assert CharSet(s) == CharSet(p) + {x} by {
        forall c | c in CharSet(s) ensures c in CharSet(p) + {x} {
          var i :| 0 <= i < |s| && s[i] == c;
          if i < |s| - 1 { assert p[i] == c; }
        }
        forall c | c in CharSet(p) ensures c in CharSet(s) {
          var i :| 0 <= i < |p| && p[i] == c;
          assert s[i] == c;
        }
      }
      if x in CharSet(p) {
        var i :| 0 <= i < |p| && p[i] == x;
        assert s[i] == s[|s| - 1];
        assert !Distinct(s);
      } else {
        assert |CharSet(s)| == |CharSet(p)| + 1;
        if Distinct(p) {
          forall i, j | 0 <= i < j < |s| ensures s[i] != s[j] {
            if j < |s| - 1 {
              assert p[i] == s[i] && p[j] == s[j];
            } else {
              assert p[i] == s[i];
            }
          }
        } else {
          var i, j :| 0 <= i < j < |p| && p[i] == p[j];
          assert s[i] == s[j];
        }
      }
    }
  }

  /** The character for a decimal digit. */
  function DigitChar(d: nat): (c: char)
    requires d < 10
    ensures IsDigit(c)
  {
    ('0' as int + d) as char
  }

  /** The digit a character stands for. */
  function DigitValue(c: char): int {
    c as int - '0' as int
  }

  /** `i.toString().padStart(4, '0')` for 0 <= i < 10000: four digits that read back as n. */
  function Pad4(n: nat): (s: string)
    requires n < 10000
    ensures FourDigits(s) && Value(s) == n
  {
    var s := [DigitChar(n / 1000), DigitChar(n / 100 % 10), DigitChar(n / 10 % 10), DigitChar(n % 10)];
    assert DigitValue(s[0]) == n / 1000;
    assert DigitValue(s[1]) == n / 100 % 10;
    assert DigitValue(s[2]) == n / 10 % 10;
    assert DigitValue(s[3]) == n % 10;
    assert n == 10 * (n / 10) + n % 10;
    assert n / 10 == 10 * (n / 100) + n / 10 % 10;
    assert n / 100 == 10 * (n / 1000) + n / 100 % 10;
    s
  }

  /** The number a four-digit string spells. */
  function Value(s: string): nat
    requires FourDigits(s)
  {
    1000 * DigitValue(s[0]) + 100 * DigitValue(s[1]) + 10 * DigitValue(s[2]) + DigitValue(s[3])
  }

  /** Every four-digit string is the padded rendering of its value. */
  lemma ValuePad(s: string)
    requires FourDigits(s)
    ensures Value(s) < 10000 && Pad4(Value(s)) == s
  {
    var a, b, c, d := DigitValue(s[0]), DigitValue(s[1]), DigitValue(s[2]), DigitValue(s[3]);
    var n := Value(s);
    assert IsDigit(s[0]) && IsDigit(s[1]) && IsDigit(s[2]) && IsDigit(s[3]);
    assert n / 10 == 100 * a + 10 * b + c && n % 10 == d;
    assert n / 100 == 10 * a + b;
    assert n / 1000 == a;
    assert Pad4(n)[0] == s[0] && Pad4(n)[1] == s[1] && Pad4(n)[2] == s[2] && Pad4(n)[3] == s[3];
  }

  /** Strictly increasing numeric value, hence no repeats. */
  predicate StrictlyAscending(r: seq<string>) {
    (forall k :: 0 <= k < |r| ==> FourDigits(r[k])) &&
    forall i, j :: 0 <= i < j < |r| ==> Value(r[i]) < Value(r[j])
  }

  /**
   * The valid codes among the paddings of the numbers in `ns`, in that order.
   * Called on the counter values `seq(n, i => i)` it is what the loop of
   * generateAllPossibilities has collected after n rounds.
   */
  function CodesIn(ns: seq<int>): seq<string>
    requires forall k :: 0 <= k < |ns| ==> 0 <= ns[k] < 10000
  {
    if ns == [] then []
    else
      var n := ns[|ns| - 1];
      CodesIn(ns[..|ns| - 1]) + (if IsValidNumber(Pad4(n)) then [Pad4(n)] else [])
  }

  /** One more round of the loop: the counter value n - 1 is padded and kept if valid. */
  lemma CodesInStep(n: nat)
    requires 0 < n <= 10000
    ensures CodesIn(seq(n, i => i)) ==
      CodesIn(seq(n - 1, i => i)) + (if IsValidNumber(Pad4(n - 1)) then [Pad4(n - 1)] else [])
  {
    assert seq(n, i => i)[..n - 1] == seq(n - 1, i => i);
  }

  /** Every element is a valid code whose value is below n. */
  predicate ValidBelow(r: seq<string>, n: nat) {
    forall k :: 0 <= k < |r| ==> IsValidNumber(r[k]) && Value(r[k]) < n
  }

  lemma {:induction false} CodesBelowSound(n: nat)
    requires n <= 10000
    ensures ValidBelow(CodesIn(seq(n, i => i)), n)
    ensures StrictlyAscending(CodesIn(seq(n, i => i)))
  {
    if n == 0 {
      assert seq(n, i => i) == [];
    } else {
      CodesBelowSound(n - 1);
      CodesInStep(n);
      var before := CodesIn(seq(n - 1, i => i));
      if IsValidNumber(Pad4(n - 1)) {
        KeepLast(before, Pad4(n - 1), n - 1);
      } else {
        WidenBelow(before, n - 1);
      }
    }
  }

  lemma WidenBelow(r: seq<string>, m: nat)
    requires ValidBelow(r, m)
    ensures ValidBelow(r, m + 1)
  {
  }

  /** Appending a valid code of value m to codes below m keeps them ascending and below m + 1. */
  lemma KeepLast(before: seq<string>, x: string, m: nat)
    requires ValidBelow(before, m) && StrictlyAscending(before)
    requires IsValidNumber(x) && Value(x) == m
    ensures ValidBelow(before + [x], m + 1) && StrictlyAscending(before + [x])
  {
    var r := before + [x];
    forall k | 0 <= k < |r| ensures IsValidNumber(r[k]) && Value(r[k]) < m + 1 {
      if k < |before| { assert r[k] == before[k]; }
    }
    forall i, j | 0 <= i < j < |r| ensures Value(r[i]) < Value(r[j]) {
      assert r[i] == before[i];
      if j < |before| { assert r[j] == before[j]; }
    }
  }

  lemma {:induction false} CodesBelowComplete(n: nat, s: string)
    requires n <= 10000
    requires IsValidNumber(s) && Value(s) < n
    ensures s in CodesIn(seq(n, i => i))
  {
    var before := CodesIn(seq(n - 1, i => i));
    CodesInStep(n);
    if Value(s) == n - 1 {
      ValuePad(s);
      assert CodesIn(seq(n, i => i)) == before + [s];
    } else {
      CodesBelowComplete(n - 1, s);
      assert s in before;
    }
  }

  /** The result of generateAllPossibilities: valid codes only, ascending, no repeats. */
  function AllCodes(): (r: seq<string>)
    ensures forall k :: 0 <= k < |r| ==> IsValidNumber(r[k])
    ensures StrictlyAscending(r)
    ensures forall i, j :: 0 <= i < j < |r| ==> r[i] != r[j]
  {
    CodesBelowSound(10000);
    CodesIn(seq(10000, i => i))
  }

  /** No code is missing from the enumeration. */
  lemma AllCodesComplete()
    ensures forall s :: IsValidNumber(s) ==> s in AllCodes()
  {
    forall s | IsValidNumber(s) ensures s in AllCodes() {
      ValuePad(s);
      CodesBelowComplete(10000, s);
    }
  }

  /** generateAllPossibilities: walk 0..9999, pad each to four digits, keep the valid ones. */
  method GenerateAllPossibilities() returns (result: seq<string>)
    ensures result == AllCodes()
    ensures forall k :: 0 <= k < |result| ==> IsValidNumber(result[k])
    ensures StrictlyAscending(result)
    ensures forall s :: IsValidNumber(s) ==> s in result
  {
    result := [];
    for i := 0 to 10000
      invariant result == CodesIn(seq(i, k => k))
    {
      CodesInStep(i + 1);
      var s := Pad4(i);
      if IsValidNumber(s) {
        result := result + [s];
      }
    }
    AllCodesComplete();
  }
}
