/**
 * String facts the pipeline relies on: Rust's `Ord` on `String` (byte order of
 * UTF-8, which is code-point order) and the decimal rendering of integers used
 * by `format!` and by a version's `Display`.
 */
module Strings {

  /** `a < b` in the lexicographic order of code points. */
  predicate Less(a: string, b: string)
    decreases |a|
  {
    |b| > 0 && (|a| == 0 || a[0] < b[0] || (a[0] == b[0] && Less(a[1..], b[1..])))
  }

  lemma {:induction false} LessIrreflexive(a: string)
    ensures !Less(a, a)
    decreases |a|
  {
    if |a| > 0 { LessIrreflexive(a[1..]); }
  }

  lemma {:induction false} LessTransitive(a: string, b: string, c: string)
    requires Less(a, b) && Less(b, c)
    ensures Less(a, c)
    decreases |a|
  {
    if |a| > 0 && a[0] == b[0] && b[0] == c[0] {
      LessTransitive(a[1..], b[1..], c[1..]);
    }
  }

  lemma {:induction false} LessTotal(a: string, b: string)
    requires a != b
    ensures Less(a, b) || Less(b, a)
    decreases |a|
  {
    if |a| > 0 && |b| > 0 && a[0] == b[0] {
      assert a == [a[0]] + a[1..] && b == [b[0]] + b[1..];
      LessTotal(a[1..], b[1..]);
    }
  }

  lemma LessAsymmetric(a: string, b: string)
    requires Less(a, b)
    ensures !Less(b, a)
  {
    if Less(b, a) { LessTransitive(a, b, a); LessIrreflexive(a); }
  }

  /** True when every character of `s` is a decimal digit. */
  predicate AllDigits(s: string) {
    forall i :: 0 <= i < |s| ==> '0' <= s[i] <= '9'
  }

  function DigitChar(d: nat): (c: char)
    requires d < 10
    ensures '0' <= c <= '9'
  {
    (48 + d) as char
  }

  function DigitValue(c: char): int {
    c as int - 48
  }

  /** Decimal rendering without leading zeros, as Rust's `Display` for `u64`. */
  function NatToString(n: nat): (s: string)
    ensures |s| >= 1 && AllDigits(s)
    decreases n
  {
    if n < 10 then [DigitChar(n)] else NatToString(n / 10) + [DigitChar(n % 10)]
  }

  /** Reads back a string of decimal digits. */
  function ParseNat(s: string): int
    decreases |s|
  {
    if |s| == 0 then 0 else ParseNat(s[..|s| - 1]) * 10 + DigitValue(s[|s| - 1])
  }

  lemma {:induction false} ParseNatToString(n: nat)
    ensures ParseNat(NatToString(n)) == n
    decreases n
  {
    if n >= 10 {
      var s := NatToString(n);
      assert s[..|s| - 1] == NatToString(n / 10);
      ParseNatToString(n / 10);
    }
  }

  lemma NatToStringInjective(m: nat, n: nat)
    requires NatToString(m) == NatToString(n)
    ensures m == n
  {
    ParseNatToString(m);
    ParseNatToString(n);
  }

  /** The number of characters after the last `sep` in `s` (all of `s` if none). */
  function TrailingLength(s: string, sep: char): nat
    decreases |s|
  {
    if |s| == 0 || s[|s| - 1] == sep then 0 else 1 + TrailingLength(s[..|s| - 1], sep)
  }

  lemma {:induction false} TrailingLengthOfJoin(x: string, sep: char, y: string)
    requires sep !in y
    ensures TrailingLength(x + [sep] + y, sep) == |y|
    decreases |y|
  {
    if |y| > 0 {
      var y0 := y[..|y| - 1];
      assert x + [sep] + y == (x + [sep] + y0) + [y[|y| - 1]];
      assert (x + [sep] + y)[..|x + [sep] + y| - 1] == x + [sep] + y0;
      TrailingLengthOfJoin(x, sep, y0);
    }
  }

  /**
   * Splitting at the last separator: when neither right part contains `sep`,
   * equal joins have equal parts.
   */
  lemma SplitAtLast(x: string, y: string, x': string, y': string, sep: char)
    requires sep !in y && sep !in y'
    requires x + [sep] + y == x' + [sep] + y'
    ensures x == x' && y == y'
  {
    var s := x + [sep] + y;
    TrailingLengthOfJoin(x, sep, y);
    TrailingLengthOfJoin(x', sep, y');
    assert x == s[..|x|] && x' == s[..|x'|];
    assert y == s[|x| + 1..] && y' == s[|x'| + 1..];
  }

  lemma DigitsHaveNo(s: string, c: char)
    requires AllDigits(s) && !('0' <= c <= '9')
    ensures c !in s
  {
  }
}
