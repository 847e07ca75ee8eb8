/**
 * The JavaScript string primitives the store relies on: decimal rendering of a
 * small non-negative integer (`String(n)`), `padStart` with a one-character
 * fill, and the order in which IndexedDB compares string keys.
 */
module Strings {

  /** True iff `c` is an ASCII decimal digit. */
  predicate IsDigit(c: char)
  {
    '0' <= c <= '9'
  }

  /** The digit character for `d`. */
  function DigitChar(d: nat): (c: char)
    requires d < 10
    ensures IsDigit(c)
  {
    (48 + d) as char
  }

  /** The value of a digit character. */
  function DigitValue(c: char): (d: nat)
    requires IsDigit(c)
    ensures d < 10
    ensures DigitChar(d) == c
  {
    c as int - 48
  }

  /** True iff every character of `s` is a decimal digit. */
  predicate AllDigits(s: string)
  {
    forall i :: 0 <= i < |s| ==> IsDigit(s[i])
  }

  /**
   * `String(n)` for a non-negative integer below 2^53: its shortest decimal
   * rendering, most significant digit first. (JavaScript switches to exponent
   * form from 10^21 on and loses exactness above 2^53; the seed only renders
   * 1 .. 15.)
   */
  function DecimalString(n: nat): (s: string)
    ensures 1 <= |s|
    ensures AllDigits(s)
    ensures s[0] == '0' <==> n == 0
    ensures n < 10 <==> |s| == 1
    decreases n
  {
    if n < 10 then [DigitChar(n)] else DecimalString(n / 10) + [DigitChar(n % 10)]
  }

  /** The value of a string of decimal digits (leading zeros allowed). */
  function ParseDecimal(s: string): nat
    requires AllDigits(s)
    decreases |s|
  {
    if |s| == 0 then 0 else 10 * ParseDecimal(s[..|s| - 1]) + DigitValue(s[|s| - 1])
  }

  /** Reading back the decimal rendering of `n` gives `n`. */
  lemma {:induction false} DecimalRoundTrip(n: nat)
    ensures ParseDecimal(DecimalString(n)) == n
    decreases n
  {
    var s := DecimalString(n);
    if n >= 10 {
      DecimalRoundTrip(n / 10);
      assert s[..|s| - 1] == DecimalString(n / 10);
    }
  }

  /** Distinct numbers render to distinct strings. */
  lemma DecimalInjective(m: nat, n: nat)
    ensures m != n ==> DecimalString(m) != DecimalString(n)
  {
    DecimalRoundTrip(m);
    DecimalRoundTrip(n);
  }

  /** `n` copies of `c`. */
  function Repeat(c: char, n: nat): (s: string)
    ensures |s| == n
    ensures forall i :: 0 <= i < n ==> s[i] == c
  {
    if n == 0 then [] else Repeat(c, n - 1) + [c]
  }

  /**
   * `s.padStart(width, fill)` for a one-character fill string: `s` itself when
   * it is already at least `width` long, otherwise `s` preceded by as many
   * copies of `fill` as bring it to `width`.
   */
  function PadStart(s: string, width: nat, fill: char): (r: string)
    ensures |r| == if |s| < width then width else |s|
    ensures r[|r| - |s|..] == s
    ensures forall i :: 0 <= i < |r| - |s| ==> r[i] == fill
  {
    if width <= |s| then s else Repeat(fill, width - |s|) + s
  }

  /** At the first position where `a` and `b` differ, `a` has the smaller character. */
  ghost predicate FirstDifferenceBelow(a: string, b: string)
  {
    exists i :: 0 <= i < |a| && i < |b| && a[..i] == b[..i] && a[i] < b[i]
  }

  /**
   * The order IndexedDB puts string keys in: a proper prefix comes before its
   * extensions, and otherwise the first differing character decides.
   */
  predicate KeyLess(a: string, b: string): (r: bool)
    ensures r <==> (|a| < |b| && a == b[..|a|]) || FirstDifferenceBelow(a, b)
    decreases |a|
  {
    KeyLessUnfold(a, b);
    if |a| == 0 then |b| > 0
    else |b| > 0 && (a[0] < b[0] || (a[0] == b[0] && KeyLess(a[1..], b[1..])))
  }

  /** The prefix-or-first-difference description of the order, split at the first character. */
  lemma KeyLessUnfold(a: string, b: string)
    ensures |a| == 0 ==> ((|a| < |b| && a == b[..|a|]) || FirstDifferenceBelow(a, b) <==> |b| > 0)
    ensures |a| > 0 && |b| > 0 && a[0] == b[0] ==>
              ((|a| < |b| && a == b[..|a|]) || FirstDifferenceBelow(a, b) <==>
               (|a| - 1 < |b| - 1 && a[1..] == b[1..][..|a| - 1]) || FirstDifferenceBelow(a[1..], b[1..]))
    ensures |a| > 0 && |b| > 0 && a[0] != b[0] ==>
              ((|a| < |b| && a == b[..|a|]) || FirstDifferenceBelow(a, b) <==> a[0] < b[0])
    ensures |a| > 0 && |b| == 0 ==> !((|a| < |b| && a == b[..|a|]) || FirstDifferenceBelow(a, b))
  {
    if |a| > 0 && |b| > 0 {
      if a[0] == b[0] {
        if FirstDifferenceBelow(a, b) {
          var i :| 0 <= i < |a| && i < |b| && a[..i] == b[..i] && a[i] < b[i];
          assert i > 0;
          assert a[1..][..i - 1] == a[1..i] == b[1..i] == b[1..][..i - 1];
          assert a[1..][i - 1] < b[1..][i - 1];
        }
        if FirstDifferenceBelow(a[1..], b[1..]) {
          var i :| 0 <= i < |a[1..]| && i < |b[1..]| && a[1..][..i] == b[1..][..i] && a[1..][i] < b[1..][i];
          assert a[..i + 1] == [a[0]] + a[1..][..i];
          assert b[..i + 1] == [b[0]] + b[1..][..i];
          assert a[i + 1] < b[i + 1];
        }
        if |a| < |b| && a == b[..|a|] {
          assert a[1..] == b[1..][..|a| - 1];
        }
        if |a| - 1 < |b| - 1 && a[1..] == b[1..][..|a| - 1] {
          assert a == [a[0]] + a[1..];
          assert b[..|a|] == [b[0]] + b[1..][..|a| - 1];
        }
      } else {
        if a[0] < b[0] {
          assert a[..0] == b[..0];
        }
        if FirstDifferenceBelow(a, b) {
          var i :| 0 <= i < |a| && i < |b| && a[..i] == b[..i] && a[i] < b[i];
          if i > 0 {
            assert a[..i][0] == b[..i][0];
          }
        }
      }
    }
  }

  /** Zeros put in front of a digit string do not change the number it reads as. */
  lemma {:induction false} PaddedDecimal(digits: string, padded: string)
    requires AllDigits(digits)
    requires |digits| <= |padded| && padded[|padded| - |digits|..] == digits
    requires forall i :: 0 <= i < |padded| - |digits| ==> padded[i] == '0'
    ensures AllDigits(padded)
    ensures ParseDecimal(padded) == ParseDecimal(digits)
    decreases |padded|
  {
    if |padded| > |digits| {
      var rest := padded[1..];
      assert rest[|rest| - |digits|..] == padded[|padded| - |digits|..];
      assert forall i :: 0 <= i < |rest| - |digits| ==> rest[i] == padded[i + 1];
      PaddedDecimal(digits, rest);
      LeadingZero(rest);
      assert padded == ['0'] + rest;
    } else {
      assert padded == padded[|padded| - |digits|..];
    }
  }

  /** A leading zero does not change the number a digit string reads as. */
  lemma {:induction false} LeadingZero(s: string)
    requires AllDigits(s)
    ensures AllDigits(['0'] + s)
    ensures ParseDecimal(['0'] + s) == ParseDecimal(s)
    decreases |s|
  {
    if |s| > 0 {
      var init := s[..|s| - 1];
      LeadingZero(init);
      assert (['0'] + s)[..|s|] == ['0'] + init;
    }
  }
}
