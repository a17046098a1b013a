/**
 * `strconv.FormatUint(x, 36)`: the base-36 text of a fingerprint, most significant
 * digit first, digits `0`-`9` then lower-case `a`-`z`, no leading zeros, "0" for zero.
 * A parser is given as its inverse, so that distinct fingerprints give distinct text.
 */
module Base36 {

  /** The character for digit value `d`. */
  function Digit(d: nat): (c: char)
    requires d < 36
    ensures IsDigit(c)
  {
    if d < 10 then (48 + d) as char else (87 + d) as char
  }

  predicate IsDigit(c: char) {
    '0' <= c <= '9' || 'a' <= c <= 'z'
  }

  /** The value of a digit character: the inverse of `Digit`. */
  function DigitValue(c: char): (d: nat)
    requires IsDigit(c)
    ensures d < 36 && Digit(d) == c
  {
    if c <= '9' then c as int - 48 else c as int - 87
  }

  predicate AllDigits(s: string) {
    forall i | 0 <= i < |s| :: IsDigit(s[i])
  }

  /** The text `FormatUint` produces: non-empty, all digits, and a leading zero only for "0" itself. */
  predicate Canonical(s: string) {
    |s| >= 1 && AllDigits(s) && (|s| > 1 ==> s[0] != '0')
  }

  function FormatUint36(n: nat): (s: string)
    ensures Canonical(s)
    decreases n
  {
    if n < 36 then [Digit(n)]
    else
      var front := FormatUint36(n / 36);
      assert front[0] != '0' by {
        if |front| == 1 {
          assert front == [Digit(n / 36)];
        }
      }
      front + [Digit(n % 36)]
  }

  /** Reads base-36 text back, most significant digit first. */
  function ParseUint36(s: string): nat
    requires AllDigits(s)
    decreases |s|
  {
    if |s| == 0 then 0 else ParseUint36(s[..|s| - 1]) * 36 + DigitValue(s[|s| - 1])
  }

  /** Formatting then parsing gives the number back. */
  lemma {:induction false} ParseFormat(n: nat)
    ensures ParseUint36(FormatUint36(n)) == n
    decreases n
  {
    if n >= 36 {
      var s := FormatUint36(n);
      assert s[..|s| - 1] == FormatUint36(n / 36);
      ParseFormat(n / 36);
    }
  }

  /** A canonical text with a non-zero leading digit denotes a positive number. */
  lemma {:induction false} ParsePositive(s: string)
    requires |s| >= 1 && AllDigits(s) && s[0] != '0'
    ensures ParseUint36(s) > 0
    decreases |s|
  {
    if |s| > 1 {
      ParsePositive(s[..|s| - 1]);
    } else {
      assert DigitValue(s[0]) != 0;
    }
  }

  /** Parsing then formatting gives canonical text back. */
  lemma {:induction false} FormatParse(s: string)
    requires Canonical(s)
    ensures FormatUint36(ParseUint36(s)) == s
    decreases |s|
  {
    if |s| > 1 {
      var front := s[..|s| - 1];
      ParsePositive(front);
      FormatParse(front);
      var n := ParseUint36(s);
      assert n / 36 == ParseUint36(front) && n % 36 == DigitValue(s[|s| - 1]);
      assert s == front + [s[|s| - 1]];
    }
  }

  /** Distinct numbers have distinct base-36 text. */
  lemma FormatInjective(a: nat, b: nat)
    ensures FormatUint36(a) == FormatUint36(b) ==> a == b
  {
    ParseFormat(a);
    ParseFormat(b);
  }
}
