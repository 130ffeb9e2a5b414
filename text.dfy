/** The two pieces of Go string handling the certificate registry relies on:
    `strings.ToLower` applied to entry names, and the `%d` verb of
    `fmt.Sprintf` used inside the advisory warnings. */
module Text {

  // ---------------------------------------------------------------------
  // Lowercasing
  // ---------------------------------------------------------------------

  predicate IsUpper(c: char) {
    'A' <= c <= 'Z'
  }

  /** `unicode.ToLower` restricted to ASCII: entry names are matched by the
      route pattern `\w(([\w-.]+)?\w)?`, whose classes are ASCII-only. */
  function LowerChar(c: char): char {
    if IsUpper(c) then (c as int + 32) as char else c
  }

  /** No upper-case letter occurs in `s`. */
  predicate IsLower(s: string) {
    forall i :: 0 <= i < |s| ==> !IsUpper(s[i])
  }

  /** `strings.ToLower`: lowers each character on its own, keeps the length,
      and leaves no upper-case letter. */
  function Lower(s: string): (r: string)
    ensures |r| == |s|
    ensures forall i :: 0 <= i < |s| ==> r[i] == LowerChar(s[i])
    ensures IsLower(r)
  {
    if s == [] then [] else [LowerChar(s[0])] + Lower(s[1..])
  }

  /** Two names that differ only in the case of their letters
      (what `strings.EqualFold` decides on ASCII input). */
  predicate EqualFold(a: string, b: string) {
    |a| == |b| && forall i :: 0 <= i < |a| ==> LowerChar(a[i]) == LowerChar(b[i])
  }

  lemma LowerCharIsLower(c: char)
    ensures !IsUpper(LowerChar(c))
    ensures !IsUpper(c) ==> LowerChar(c) == c
  {
  }

  /** A name without upper-case letters is its own lowercase form. */
  lemma {:induction false} LowerFixesLower(s: string)
    requires IsLower(s)
    ensures Lower(s) == s
  {
    if s != [] {
      assert IsLower(s[1..]) by {
        forall i | 0 <= i < |s[1..]| ensures !IsUpper(s[1..][i]) {
          assert s[1..][i] == s[i + 1];
        }
      }
      LowerFixesLower(s[1..]);
      assert !IsUpper(s[0]);
      assert s == [s[0]] + s[1..];
    }
  }

  /** Lowercasing an already lowered name changes nothing. */
  lemma LowerIdempotent(s: string)
    ensures Lower(Lower(s)) == Lower(s)
  {
    LowerFixesLower(Lower(s));
  }

  /** Two names have the same lowercase form exactly when they differ only
      in letter case. */
  lemma LowerEqualIffEqualFold(a: string, b: string)
    ensures Lower(a) == Lower(b) <==> EqualFold(a, b)
  {
    if EqualFold(a, b) {
      assert forall i :: 0 <= i < |a| ==> Lower(a)[i] == Lower(b)[i];
    }
    if Lower(a) == Lower(b) {
      forall i | 0 <= i < |a| ensures LowerChar(a[i]) == LowerChar(b[i]) {
        assert Lower(a)[i] == Lower(b)[i];
      }
    }
  }

  // ---------------------------------------------------------------------
  // Decimal formatting (`%d`)
  // ---------------------------------------------------------------------

  predicate IsDigit(c: char) {
    '0' <= c <= '9'
  }

  predicate IsDigits(s: string) {
    forall i :: 0 <= i < |s| ==> IsDigit(s[i])
  }

  function DigitChar(d: nat): (c: char)
    requires d < 10
    ensures IsDigit(c) && c as int - '0' as int == d
  {
    ('0' as int + d) as char
  }

  /** The decimal digits of `n`, most significant first, no leading zero. */
  function NatToDecimal(n: nat): (s: string)
    ensures |s| > 0 && IsDigits(s)
    ensures |s| > 1 ==> s[0] != '0'
    decreases n
  {
    if n < 10 then [DigitChar(n)] else NatToDecimal(n / 10) + [DigitChar(n % 10)]
  }

  /** `%d` of a Go integer: a minus sign before the digits of a negative value. */
  function IntToDecimal(i: int): (s: string)
    ensures |s| > 0
    ensures i < 0 <==> s[0] == '-'
    ensures IsDigits(if i < 0 then s[1..] else s)
  {
    if i < 0 then "-" + NatToDecimal(-i) else NatToDecimal(i)
  }

  /** The value of a string of decimal digits: the reference reading of
      `%d` output. */
  function DigitsValue(s: string): nat
    requires IsDigits(s)
    decreases |s|
  {
    if s == [] then 0
    else DigitsValue(s[..|s| - 1]) * 10 + (s[|s| - 1] as int - '0' as int)
  }

  /** Reads back what `IntToDecimal` wrote. */
  function ParseDecimal(s: string): int
    requires |s| > 0
    requires IsDigits(if s[0] == '-' then s[1..] else s)
  {
    if s[0] == '-' then -(DigitsValue(s[1..]) as int) else DigitsValue(s)
  }

  lemma {:induction false} NatToDecimalRoundTrip(n: nat)
    ensures DigitsValue(NatToDecimal(n)) == n
    decreases n
  {
    if n >= 10 {
      var s := NatToDecimal(n);
      NatToDecimalRoundTrip(n / 10);
      assert s[..|s| - 1] == NatToDecimal(n / 10);
    }
  }

  /** Formatting an integer and reading it back gives the integer. */
  lemma IntToDecimalRoundTrip(i: int)
    ensures var s := IntToDecimal(i);
      IsDigits(if s[0] == '-' then s[1..] else s) && ParseDecimal(s) == i
  {
    if i < 0 {
      NatToDecimalRoundTrip(-i);
      assert IntToDecimal(i)[1..] == NatToDecimal(-i);
    } else {
      NatToDecimalRoundTrip(i);
    }
  }

  /** Distinct integers are printed differently. */
  lemma IntToDecimalInjective(a: int, b: int)
    ensures IntToDecimal(a) == IntToDecimal(b) ==> a == b
  {
    IntToDecimalRoundTrip(a);
    IntToDecimalRoundTrip(b);
  }

  predicate NoSpace(s: string) {
    forall i :: 0 <= i < |s| ==> s[i] != ' '
  }

  lemma IntToDecimalNoSpace(i: int)
    ensures NoSpace(IntToDecimal(i))
  {
    var s := IntToDecimal(i);
    if i < 0 {
      forall k | 0 <= k < |s| ensures s[k] != ' ' {
        if k > 0 {
          assert s[k] == NatToDecimal(-i)[k - 1];
        }
      }
    }
  }

  /** In a word without spaces followed by a space, that space is the first one. */
  lemma FirstSpace(u: string, v: string)
    requires NoSpace(u)
    ensures |u| < |u + " " + v| && (u + " " + v)[|u|] == ' '
    ensures forall k :: 0 <= k < |u| ==> (u + " " + v)[k] != ' '
  {
  }

  /** A word without spaces followed by a space is recovered from the text. */
  lemma SplitAtSpace(u: string, v: string, u': string, v': string)
    requires NoSpace(u) && NoSpace(u')
    requires u + " " + v == u' + " " + v'
    ensures u == u' && v == v'
  {
    var w := u + " " + v;
    FirstSpace(u, v);
    FirstSpace(u', v');
    assert |u| == |u'|;
    assert u == w[..|u|] == u';
    assert v == w[|u| + 1..] == v';
  }

  /** `fmt.Sprintf` of a format with two `%d` verbs, the first followed by a
      space: prefix, a, space, middle, b, suffix. */
  function FormatTwo(prefix: string, a: int, middle: string, b: int, suffix: string): (r: string)
    ensures |r| == |prefix| + |IntToDecimal(a)| + 1 + |middle| + |IntToDecimal(b)| + |suffix|
    ensures r[..|prefix|] == prefix && r[|r| - |suffix|..] == suffix
    ensures r[|prefix|..|prefix| + |IntToDecimal(a)|] == IntToDecimal(a)
    ensures r[|prefix| + |IntToDecimal(a)|] == ' '
  {
    prefix + (IntToDecimal(a) + " " + (middle + (IntToDecimal(b) + suffix)))
  }

  /** Such a message determines both integers. */
  lemma FormatTwoInjective(prefix: string, middle: string, suffix: string, a: int, b: int, c: int, d: int)
    requires FormatTwo(prefix, a, middle, b, suffix) == FormatTwo(prefix, c, middle, d, suffix)
    ensures a == c && b == d
  {
    var w := FormatTwo(prefix, a, middle, b, suffix);
    var r1 := middle + (IntToDecimal(b) + suffix);
    var r2 := middle + (IntToDecimal(d) + suffix);
    assert IntToDecimal(a) + " " + r1 == w[|prefix|..] == IntToDecimal(c) + " " + r2;
    IntToDecimalNoSpace(a);
    IntToDecimalNoSpace(c);
    SplitAtSpace(IntToDecimal(a), r1, IntToDecimal(c), r2);
    var t1 := IntToDecimal(b) + suffix;
    var t2 := IntToDecimal(d) + suffix;
    assert t1 == r1[|middle|..] == r2[|middle|..] == t2;
    assert IntToDecimal(b) == t1[..|t1| - |suffix|] == t2[..|t2| - |suffix|] == IntToDecimal(d);
    IntToDecimalInjective(a, c);
    IntToDecimalInjective(b, d);
  }
}
