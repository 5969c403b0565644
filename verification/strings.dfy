/** Character classes, prefixes, Python's string order and decimal digits. */
module Strings {

  predicate IsDigit(c: char)
  {
    '0' <= c <= '9'
  }

  predicate AllDigits(s: string)
  {
    forall i :: 0 <= i < |s| ==> IsDigit(s[i])
  }

  /** Inclusive ranges of code points. */
  predicate InRanges(n: int, ranges: seq<(int, int)>)
  {
    |ranges| > 0 && (ranges[0].0 <= n <= ranges[0].1 || InRanges(n, ranges[1..]))
  }

  /**
   * The code points Python's `str.isspace()` accepts: the ASCII controls
   * 9-13 and 28-31, the space, and the Unicode separators.
   */
  const SpaceRanges: seq<(int, int)> := [
    (0x09, 0x0D), (0x1C, 0x20), (0x85, 0x85), (0xA0, 0xA0), (0x1680, 0x1680),
    (0x2000, 0x200A), (0x2028, 0x2029), (0x202F, 0x202F), (0x205F, 0x205F), (0x3000, 0x3000)]

  predicate IsSpace(c: char)
  {
    InRanges(c as int, SpaceRanges)
  }

  lemma {:induction false} OutsideRanges(n: int, ranges: seq<(int, int)>)
    requires forall k :: 0 <= k < |ranges| ==> n < ranges[k].0 || ranges[k].1 < n
    ensures !InRanges(n, ranges)
    decreases |ranges|
  {
    if |ranges| > 0 {
      assert forall k :: 0 <= k < |ranges| - 1 ==> ranges[1..][k] == ranges[k + 1];
      OutsideRanges(n, ranges[1..]);
    }
  }

  /** Visible ASCII characters (`!` to `~`) are not whitespace. */
  lemma VisibleIsNotSpace(c: char)
    requires '!' <= c <= '~'
    ensures !IsSpace(c)
  {
    OutsideRanges(c as int, SpaceRanges);
  }

  predicate StartsWith(s: string, p: string)
  {
    |p| <= |s| && s[..|p|] == p
  }

  predicate EndsWith(s: string, x: string)
  {
    |x| <= |s| && s[|s| - |x|..] == x
  }

  /** `p` occurs in `s` starting at position `i`. */
  predicate OccursAt(s: string, p: string, i: nat)
  {
    i + |p| <= |s| && s[i..i + |p|] == p
  }

  // ---------------------------------------------------------------------
  // Python's ordering of `str`: lexicographic by code point.

  predicate LexLe(a: string, b: string)
    decreases |a|
  {
    |a| == 0 || (|b| > 0 && (a[0] < b[0] || (a[0] == b[0] && LexLe(a[1..], b[1..]))))
  }

  lemma {:induction false} LexLeReflexive(a: string)
    ensures LexLe(a, a)
    decreases |a|
  {
    if |a| > 0 {
      LexLeReflexive(a[1..]);
    }
  }

  lemma {:induction false} LexLeAntisymmetric(a: string, b: string)
    requires LexLe(a, b) && LexLe(b, a)
    ensures a == b
    decreases |a|
  {
    if |a| > 0 {
      LexLeAntisymmetric(a[1..], b[1..]);
      assert a == [a[0]] + a[1..] && b == [b[0]] + b[1..];
    }
  }

  lemma {:induction false} LexLeTransitive(a: string, b: string, c: string)
    requires LexLe(a, b) && LexLe(b, c)
    ensures LexLe(a, c)
    decreases |a|
  {
    if |a| > 0 && a[0] == b[0] && b[0] == c[0] {
      LexLeTransitive(a[1..], b[1..], c[1..]);
    }
  }

  lemma {:induction false} LexLeTotal(a: string, b: string)
    ensures LexLe(a, b) || LexLe(b, a)
    decreases |a|
  {
    if |a| > 0 && |b| > 0 && a[0] == b[0] {
      LexLeTotal(a[1..], b[1..]);
    }
  }

  // ---------------------------------------------------------------------
  // Decimal digits.

  function DigitValue(c: char): nat
    requires IsDigit(c)
  {
    c as int - '0' as int
  }

  /** The number a string of decimal digits denotes. */
  function Value(s: string): nat
    requires AllDigits(s)
  {
    if |s| == 0 then 0 else 10 * Value(s[..|s| - 1]) + DigitValue(s[|s| - 1])
  }

  function DigitChar(d: nat): (c: char)
    requires d < 10
    ensures IsDigit(c) && DigitValue(c) == d
  {
    ('0' as int + d) as char
  }

  /** Python's `str(n)` for a natural number. */
  function Decimal(n: nat): (r: string)
    ensures |r| >= 1 && AllDigits(r)
    ensures Value(r) == n
    ensures |r| > 1 ==> r[0] != '0'
    decreases n
  {
    if n < 10 then [DigitChar(n)]
    else
      var front := Decimal(n / 10);
      var r := front + [DigitChar(n % 10)];
      assert r[..|r| - 1] == front;
      r
  }

  function Zeros(n: nat): (r: string)
    ensures |r| == n && AllDigits(r)
    ensures forall i :: 0 <= i < n ==> r[i] == '0'
  {
    seq(n, _ => '0')
  }

  /**
   * Python's `s.zfill(width)` for a string without a sign: left-pad with
   * '0' up to `width` characters; a longer string is returned unchanged.
   */
  function ZFill(s: string, width: nat): (r: string)
    ensures |s| >= width ==> r == s
    ensures |r| == if |s| >= width then |s| else width
    ensures EndsWith(r, s)
    ensures forall i :: 0 <= i < |r| - |s| ==> r[i] == '0'
  {
    if |s| >= width then s else Zeros(width - |s|) + s
  }

  lemma {:induction false} ValueOfZeros(n: nat)
    ensures Value(Zeros(n)) == 0
    decreases n
  {
    if n > 0 {
      assert Zeros(n)[..n - 1] == Zeros(n - 1);
      ValueOfZeros(n - 1);
    }
  }

  /** Leading zeros do not change the number a digit string denotes. */
  lemma {:induction false} ValueIgnoresLeadingZeros(k: nat, s: string)
    requires AllDigits(s)
    ensures AllDigits(Zeros(k) + s)
    ensures Value(Zeros(k) + s) == Value(s)
    decreases |s|
  {
    var t := Zeros(k) + s;
    assert AllDigits(t) by {
      forall i | 0 <= i < |t| ensures IsDigit(t[i]) {
        if i < k { assert t[i] == Zeros(k)[i]; } else { assert t[i] == s[i - k]; }
      }
    }
    if |s| == 0 {
      assert t == Zeros(k);
      ValueOfZeros(k);
    } else {
      var s' := s[..|s| - 1];
      assert t[..|t| - 1] == Zeros(k) + s';
      ValueIgnoresLeadingZeros(k, s');
    }
  }

  /** Zero-padding a digit string keeps it a digit string of the same value. */
  lemma ZFillKeepsValue(s: string, width: nat)
    requires AllDigits(s)
    ensures AllDigits(ZFill(s, width))
    ensures Value(ZFill(s, width)) == Value(s)
  {
    if |s| < width {
      ValueIgnoresLeadingZeros(width - |s|, s);
    }
  }

  /**
   * Python's three-wide zero-padded integer format: the sign (if any) and
   * the digits of `n` padded with zeros to exactly three characters, or the
   * plain decimal form when that is already longer.
   */
  function Format03(n: int): (r: string)
    ensures |r| >= 3
    ensures n >= 0 ==> AllDigits(r) && Value(r) == n
    ensures n >= 0 ==> |r| == if |Decimal(n)| >= 3 then |Decimal(n)| else 3
    ensures n >= 0 && |r| > 3 ==> r[0] != '0'
    ensures n < 0 ==> r[0] == '-' && AllDigits(r[1..]) && Value(r[1..]) == -n
    ensures n < 0 ==> |r| == if |Decimal(-n)| >= 2 then 1 + |Decimal(-n)| else 3
    ensures n < 0 && |r| > 3 ==> r[1] != '0'
  {
    if n >= 0 then
      var d := Decimal(n);
      ZFillKeepsValue(d, 3);
      assert |d| > 3 ==> ZFill(d, 3) == d;
      ZFill(d, 3)
    else
      var d := Decimal(-n);
      ZFillKeepsValue(d, 2);
      var r := "-" + ZFill(d, 2);
      assert r[1..] == ZFill(d, 2);
      assert |d| > 2 ==> r[1..] == d;
      r
  }
}
