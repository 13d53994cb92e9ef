/** Strings as the graph view uses them: the order `<`/`>` compares them in
    (lexicographic, a proper prefix being smaller) and the property key
    JavaScript makes of a number used as an object key. Characters are
    compared by code point; JavaScript compares UTF-16 code units, which
    orders differently only characters beyond U+FFFF. */
module Text {

  /** `a < b` on strings, character by character by code point. */
  predicate LexLess(a: string, b: string)
    ensures LexLess(a, b) ==> a != b
    ensures |a| < |b| && a == b[..|a|] ==> LexLess(a, b)
    decreases |a|
  {
    if |a| == 0 then |b| > 0
    else if |b| == 0 then false
    else if a[0] < b[0] then true
    else if a[0] == b[0] then LexLess(a[1..], b[1..])
    else false
  }

  lemma {:induction false} LexLessIrreflexive(a: string)
    ensures !LexLess(a, a)
    decreases |a|
  {
    if |a| > 0 {
      LexLessIrreflexive(a[1..]);
    }
  }

  lemma {:induction false} LexLessAsymmetric(a: string, b: string)
    ensures LexLess(a, b) ==> !LexLess(b, a)
    decreases |a|
  {
    if |a| > 0 && |b| > 0 && a[0] == b[0] {
      LexLessAsymmetric(a[1..], b[1..]);
    }
  }

  /** Any two different strings are ordered one way or the other. */
  lemma {:induction false} LexLessTotal(a: string, b: string)
    ensures a == b || LexLess(a, b) || LexLess(b, a)
    decreases |a|
  {
    if |a| > 0 && |b| > 0 && a[0] == b[0] {
      LexLessTotal(a[1..], b[1..]);
      if a[1..] == b[1..] {
        assert a == [a[0]] + a[1..] && b == [b[0]] + b[1..];
      }
    }
  }

  lemma {:induction false} LexLessTransitive(a: string, b: string, c: string)
    ensures LexLess(a, b) && LexLess(b, c) ==> LexLess(a, c)
    decreases |a|
  {
    if |a| > 0 && |b| > 0 && |c| > 0 && a[0] == b[0] && b[0] == c[0] {
      LexLessTransitive(a[1..], b[1..], c[1..]);
    }
  }

  function DigitChar(d: nat): (c: char)
    requires d < 10
    ensures '0' <= c <= '9'
  {
    ['0', '1', '2', '3', '4', '5', '6', '7', '8', '9'][d]
  }

  /** `String(n)` for a non-negative integer: its decimal numeral, the key under
      which JavaScript stores `obj[n]`. */
  function DecimalString(n: nat): (s: string)
    decreases n
  {
    if n < 10 then [DigitChar(n)] else DecimalString(n / 10) + [DigitChar(n % 10)]
  }

  /** Holds of the strings made of decimal digits only. */
  predicate IsNumeral(s: string)
  {
    |s| > 0 && forall i :: 0 <= i < |s| ==> '0' <= s[i] <= '9'
  }

  /** Every key made of a number is a non-empty run of digits. */
  lemma {:induction false} DecimalStringIsNumeral(n: nat)
    ensures IsNumeral(DecimalString(n))
    decreases n
  {
    if n >= 10 {
      DecimalStringIsNumeral(n / 10);
      var s := DecimalString(n / 10) + [DigitChar(n % 10)];
      assert forall i :: 0 <= i < |s| - 1 ==> s[i] == DecimalString(n / 10)[i];
    }
  }

  /** Different numbers are stored under different keys. */
  lemma {:induction false} DecimalStringInjective(m: nat, n: nat)
    ensures DecimalString(m) == DecimalString(n) ==> m == n
    decreases m
  {
    if DecimalString(m) == DecimalString(n) {
      DigitsAreDistinct();
      if m < 10 && n >= 10 {
        DecimalStringIsNumeral(n / 10);
      } else if m >= 10 && n < 10 {
        DecimalStringIsNumeral(m / 10);
      } else if m >= 10 && n >= 10 {
        var sm := DecimalString(m / 10);
        var sn := DecimalString(n / 10);
        assert sm + [DigitChar(m % 10)] == sn + [DigitChar(n % 10)];
        assert |sm| == |sn|;
        assert sm == (sm + [DigitChar(m % 10)])[..|sm|];
        assert sn == (sn + [DigitChar(n % 10)])[..|sn|];
        assert DigitChar(m % 10) == DigitChar(n % 10);
        DecimalStringInjective(m / 10, n / 10);
      }
    }
  }

  lemma DigitsAreDistinct()
    ensures forall d, e :: 0 <= d < 10 && 0 <= e < 10 && DigitChar(d) == DigitChar(e) ==> d == e
  {
  }
}
