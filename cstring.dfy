/**
 * The C library string routines the list view relies on: strcasecmp (the leaf
 * comparison of the sort), strcmp (used by the corrected comparator), strstr
 * (the search filter) and the "%u" conversion (the status bar).
 *
 * Strings are sequences of characters; a C string cannot hold NUL, so the end
 * of a sequence plays the part of the terminating NUL, which compares below
 * every other character.
 */
module CString {

  /** tolower() in the C locale: only 'A'..'Z' change. */
  function Lower(c: char): (l: char)
    ensures 'A' <= c <= 'Z' ==> 'a' <= l <= 'z'
    ensures !('A' <= c <= 'Z') ==> l == c
  {
    if 'A' <= c <= 'Z' then (c as int + 32) as char else c
  }

  /** The case-folded image of a string, character by character. */
  function Fold(s: string): (f: string)
    ensures |f| == |s|
    ensures forall i :: 0 <= i < |s| ==> f[i] == Lower(s[i])
  {
    if s == [] then [] else [Lower(s[0])] + Fold(s[1..])
  }

  /**
   * x sorts strictly before y in dictionary order: after a common prefix of
   * length k, either x ends while y goes on (the end of a C string, NUL,
   * is below every character) or x's next character is the smaller.
   */
  ghost predicate LexLess(x: string, y: string)
  {
    exists k: nat :: k <= |x| && k <= |y| && x[..k] == y[..k] &&
      (k == |x| < |y| || (k < |x| && k < |y| && x[k] < y[k]))
  }

  /** The first characters decide when they differ; an empty string sorts first. */
  lemma LexLessAtHead(x: string, y: string)
    requires y != [] && (x == [] || x[0] < y[0])
    ensures LexLess(x, y) && !LexLess(y, x)
  {
    assert x[..0] == y[..0];
    if x != [] {
      forall k: nat | 0 < k <= |y| && k <= |x|
        ensures y[..k] != x[..k]
      {
        assert y[..k][0] == y[0] && x[..k][0] == x[0];
      }
    }
  }

  /** After an equal first character, dictionary order is that of the rests. */
  lemma LexLessTail(x: string, y: string)
    requires x != [] && y != [] && x[0] == y[0]
    ensures LexLess(x, y) <==> LexLess(x[1..], y[1..])
  {
    if LexLess(x, y) {
      var k: nat :| k <= |x| && k <= |y| && x[..k] == y[..k] &&
        (k == |x| < |y| || (k < |x| && k < |y| && x[k] < y[k]));
      assert k > 0;
      assert x[1..][..k - 1] == x[..k][1..] && y[1..][..k - 1] == y[..k][1..];
      assert x[1..][..k - 1] == y[1..][..k - 1];
    }
    if LexLess(x[1..], y[1..]) {
      var k: nat :| k <= |x[1..]| && k <= |y[1..]| && x[1..][..k] == y[1..][..k] &&
        (k == |x[1..]| < |y[1..]| || (k < |x[1..]| && k < |y[1..]| && x[1..][k] < y[1..][k]));
      assert x[..k + 1] == [x[0]] + x[1..][..k] && y[..k + 1] == [y[0]] + y[1..][..k];
      assert x[..k + 1] == y[..k + 1];
    }
  }

  /** Dictionary order is transitive. */
  lemma LexLessTransitive(x: string, y: string, z: string)
    requires LexLess(x, y) && LexLess(y, z)
    ensures LexLess(x, z)
  {
    var i: nat :| i <= |x| && i <= |y| && x[..i] == y[..i] &&
      (i == |x| < |y| || (i < |x| && i < |y| && x[i] < y[i]));
    var j: nat :| j <= |y| && j <= |z| && y[..j] == z[..j] &&
      (j == |y| < |z| || (j < |y| && j < |z| && y[j] < z[j]));
    if i < j {
      assert y[..i] == y[..j][..i] && z[..i] == z[..j][..i];
      assert y[i] == y[..j][i] && z[i] == z[..j][i];
      assert x[..i] == z[..i];
    } else if j < i {
      assert x[..j] == x[..i][..j] && y[..j] == y[..i][..j];
      assert x[j] == x[..i][j] && y[j] == y[..i][j];
      assert x[..j] == z[..j];
    } else {
      assert x[..i] == z[..i];
    }
  }

  /** strcmp reduced to its sign: plain character order, no folding. */
  function Cmp(x: string, y: string): (r: int)
    ensures -1 <= r <= 1
    ensures r == 0 <==> x == y
  {
    if x == [] && y == [] then 0
    else if x == [] then -1
    else if y == [] then 1
    else if x[0] < y[0] then -1
    else if x[0] > y[0] then 1
    else
      var r := Cmp(x[1..], y[1..]);
      assert x == [x[0]] + x[1..] && y == [y[0]] + y[1..];
      r
  }

  /** strcmp is negative exactly when x comes first in dictionary order, positive exactly when y does. */
  lemma {:induction false} CmpOrder(x: string, y: string)
    ensures Cmp(x, y) < 0 <==> LexLess(x, y)
    ensures Cmp(x, y) > 0 <==> LexLess(y, x)
  {
    if x == [] && y == [] {
      assert !LexLess(x, y) && !LexLess(y, x);
    } else if x == [] || (y != [] && x[0] < y[0]) {
      LexLessAtHead(x, y);
    } else if y == [] || x[0] > y[0] {
      LexLessAtHead(y, x);
    } else {
      CmpOrder(x[1..], y[1..]);
      LexLessTail(x, y);
      LexLessTail(y, x);
    }
  }

  /** Swapping the arguments of strcmp flips the sign of its result. */
  lemma {:induction false} CmpAntisymmetric(x: string, y: string)
    ensures Cmp(y, x) == -Cmp(x, y)
  {
    if x != [] && y != [] && x[0] == y[0] {
      CmpAntisymmetric(x[1..], y[1..]);
    }
  }

  /** strcmp orders strings transitively. */
  lemma CmpTransitive(x: string, y: string, z: string)
    requires Cmp(x, y) < 0 && Cmp(y, z) < 0
    ensures Cmp(x, z) < 0
  {
    CmpOrder(x, y);
    CmpOrder(y, z);
    CmpOrder(x, z);
    LexLessTransitive(x, y, z);
  }

  /**
   * strcasecmp reduced to its sign: strcmp of the two case-folded strings,
   * so negative exactly when x comes first in dictionary order once folded.
   */
  function CaseCmp(x: string, y: string): (r: int)
    ensures -1 <= r <= 1
    ensures r == Cmp(Fold(x), Fold(y))
    ensures r == 0 <==> Fold(x) == Fold(y)
  {
    if x == [] && y == [] then 0
    else if x == [] then -1
    else if y == [] then 1
    else if Lower(x[0]) < Lower(y[0]) then -1
    else if Lower(x[0]) > Lower(y[0]) then 1
    else
      var r := CaseCmp(x[1..], y[1..]);
      assert Fold(x)[1..] == Fold(x[1..]);
      assert Fold(y)[1..] == Fold(y[1..]);
      r
  }

  /** strcasecmp is negative exactly when x comes first in dictionary order once both are folded. */
  lemma CaseCmpOrder(x: string, y: string)
    ensures CaseCmp(x, y) < 0 <==> LexLess(Fold(x), Fold(y))
    ensures CaseCmp(x, y) > 0 <==> LexLess(Fold(y), Fold(x))
  {
    CmpOrder(Fold(x), Fold(y));
  }

  /** Swapping the arguments of strcasecmp flips the sign of its result. */
  lemma CaseCmpAntisymmetric(x: string, y: string)
    ensures CaseCmp(y, x) == -CaseCmp(x, y)
  {
    CmpAntisymmetric(Fold(x), Fold(y));
  }

  /** `needle` occurs in `hay` starting at index i. */
  predicate OccursAt(hay: string, needle: string, i: nat)
  {
    i + |needle| <= |hay| && hay[i..i + |needle|] == needle
  }

  /**
   * strstr(hay, needle) != NULL: the needle occurs somewhere in the haystack.
   * The empty needle occurs everywhere.
   */
  function Contains(hay: string, needle: string): (r: bool)
    ensures r <==> exists i: nat :: OccursAt(hay, needle, i)
  {
    if |needle| > |hay| then
      assert forall i: nat :: !OccursAt(hay, needle, i);
      false
    else if hay[..|needle|] == needle then
      assert OccursAt(hay, needle, 0);
      true
    else
      var r := Contains(hay[1..], needle);
      if r then
        var i: nat :| OccursAt(hay[1..], needle, i);
        assert hay[i + 1..i + 1 + |needle|] == hay[1..][i..i + |needle|];
        assert OccursAt(hay, needle, i + 1);
        r
      else
        forall i: nat | OccursAt(hay, needle, i)
          ensures false
        {
          assert i != 0;
          assert hay[1..][i - 1..i - 1 + |needle|] == hay[i..i + |needle|];
          assert OccursAt(hay[1..], needle, i - 1);
        }
        r
  }

  /** Where a + b occurs, a and b each occur: lengthening a needle can only narrow what it finds. */
  lemma ContainsParts(hay: string, a: string, b: string)
    requires Contains(hay, a + b)
    ensures Contains(hay, a) && Contains(hay, b)
  {
    var i: nat :| OccursAt(hay, a + b, i);
    assert hay[i..i + |a|] == (a + b)[..|a|] == a;
    assert OccursAt(hay, a, i);
    assert hay[i + |a|..i + |a| + |b|] == (a + b)[|a|..] == b;
    assert OccursAt(hay, b, i + |a|);
  }

  /** A string that occurs in a prefix of `hay` occurs in `hay`. */
  lemma ContainsInPrefix(prefix: string, hay: string, needle: string)
    requires prefix <= hay && Contains(prefix, needle)
    ensures Contains(hay, needle)
  {
    var i: nat :| OccursAt(prefix, needle, i);
    assert hay[i..i + |needle|] == prefix[i..i + |needle|];
    assert OccursAt(hay, needle, i);
  }

  predicate IsDigit(c: char)
  {
    '0' <= c <= '9'
  }

  predicate AllDigits(s: string)
  {
    forall i :: 0 <= i < |s| ==> IsDigit(s[i])
  }

  function DigitChar(d: nat): (c: char)
    requires d < 10
    ensures IsDigit(c) && c as int - '0' as int == d
  {
    ('0' as int + d) as char
  }

  /** printf("%u", n): the decimal digits of n, most significant first, no leading zero. */
  function Decimal(n: nat): (s: string)
    ensures |s| >= 1 && AllDigits(s)
    ensures |s| > 1 ==> s[0] != '0'
    decreases n
  {
    if n < 10 then [DigitChar(n)] else Decimal(n / 10) + [DigitChar(n % 10)]
  }

  /** The value a string of decimal digits denotes. */
  function ParseDecimal(s: string): nat
    requires AllDigits(s)
  {
    if s == [] then 0 else ParseDecimal(s[..|s| - 1]) * 10 + (s[|s| - 1] as int - '0' as int)
  }

  /** Reading back what "%u" printed gives the number printed. */
  lemma {:induction false} DecimalRoundTrip(n: nat)
    ensures ParseDecimal(Decimal(n)) == n
    decreases n
  {
    if n >= 10 {
      var s := Decimal(n);
      assert s[..|s| - 1] == Decimal(n / 10);
      DecimalRoundTrip(n / 10);
    }
  }

  /** The longest prefix of s made of decimal digits. */
  function DigitPrefix(s: string): (p: string)
    ensures p <= s && AllDigits(p)
  {
    if s == [] || !IsDigit(s[0]) then [] else [s[0]] + DigitPrefix(s[1..])
  }

  /** A digit string followed by a non-digit (or nothing) is exactly the digit prefix. */
  lemma {:induction false} DigitPrefixOf(d: string, rest: string)
    requires AllDigits(d)
    requires rest == [] || !IsDigit(rest[0])
    ensures DigitPrefix(d + rest) == d
  {
    if d != [] {
      assert (d + rest)[1..] == d[1..] + rest;
      DigitPrefixOf(d[1..], rest);
    }
  }

  /** The longest suffix of s made of decimal digits. */
  function DigitSuffix(s: string): (p: string)
    ensures |p| <= |s| && AllDigits(p)
  {
    if s == [] || !IsDigit(s[|s| - 1]) then [] else DigitSuffix(s[..|s| - 1]) + [s[|s| - 1]]
  }

  /** A non-digit (or nothing) followed by a digit string: the digits are exactly the digit suffix. */
  lemma {:induction false} DigitSuffixOf(rest: string, d: string)
    requires AllDigits(d)
    requires rest == [] || !IsDigit(rest[|rest| - 1])
    ensures DigitSuffix(rest + d) == d
  {
    if d != [] {
      var s, init, last := rest + d, d[..|d| - 1], d[|d| - 1];
      assert s[..|s| - 1] == rest + init && s[|s| - 1] == last;
      DigitSuffixOf(rest, init);
      assert init + [last] == d;
    } else {
      assert rest + d == rest;
    }
  }
}
