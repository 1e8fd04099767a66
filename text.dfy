/**
 * Character classes, stripping and decimal conversion, as Python's `str`
 * and `int` behave on them.
 */
module Text {

  /**
   * Python's `str.isspace()`: the characters `str.strip()` removes and that a
   * `\s` in a `str` regular expression matches.
   */
  predicate IsSpace(c: char)
  {
    var n := c as int;
    n == 0x20 || 0x09 <= n <= 0x0D || 0x1C <= n <= 0x1F || n == 0x85 || n == 0xA0
    || n == 0x1680 || 0x2000 <= n <= 0x200A || n == 0x2028 || n == 0x2029
    || n == 0x202F || n == 0x205F || n == 0x3000
  }

  /** An ASCII decimal digit (what `\d` and `int()` accept in this model). */
  predicate IsDigit(c: char)
  {
    '0' <= c <= '9'
  }

  lemma DigitIsNotSpace(c: char)
    requires IsDigit(c)
    ensures !IsSpace(c)
  {
  }

  predicate AllSpaces(s: string)
  {
    forall i :: 0 <= i < |s| ==> IsSpace(s[i])
  }

  predicate AllDigits(s: string)
  {
    forall i :: 0 <= i < |s| ==> IsDigit(s[i])
  }

  /** Length of the longest prefix of `s` made of whitespace. */
  function LeadingSpaces(s: string): (n: nat)
    ensures n <= |s| && AllSpaces(s[..n])
    ensures n < |s| ==> !IsSpace(s[n])
  {
    if s == [] || !IsSpace(s[0]) then 0
    else
      var n := 1 + LeadingSpaces(s[1..]);
      assert s[..n] == [s[0]] + s[1..][..n - 1];
      n
  }

  /** Length of the longest suffix of `s` made of whitespace. */
  function TrailingSpaces(s: string): (n: nat)
    ensures n <= |s| && AllSpaces(s[|s| - n..])
    ensures n < |s| ==> !IsSpace(s[|s| - n - 1])
  {
    if s == [] || !IsSpace(s[|s| - 1]) then 0
    else
      var t := s[..|s| - 1];
      var m := TrailingSpaces(t);
      assert s[|s| - (m + 1)..] == t[|t| - m..] + [s[|s| - 1]];
      1 + m
  }

  /** A string that starts with a non-space character is not all trailing whitespace. */
  lemma TrailingSpacesBelowLength(s: string)
    requires s != [] && !IsSpace(s[0])
    ensures TrailingSpaces(s) < |s|
  {
    if |s| > 1 && IsSpace(s[|s| - 1]) {
      TrailingSpacesBelowLength(s[..|s| - 1]);
    }
  }

  /** The leading-space count is the only split into whitespace and a non-space rest. */
  lemma LeadingSpacesExact(s: string, i: nat)
    requires i <= |s| && AllSpaces(s[..i])
    requires i < |s| ==> !IsSpace(s[i])
    ensures LeadingSpaces(s) == i
  {
    if i > 0 {
      assert s[..i][0] == s[0];
      var t := s[1..];
      var u := t[..i - 1];
      forall k | 0 <= k < |u| ensures IsSpace(u[k]) {
        assert u[k] == s[..i][k + 1];
      }
      LeadingSpacesExact(t, i - 1);
    }
  }

  /** Python's `str.strip()`: `s` without its leading and trailing whitespace. */
  function Strip(s: string): (r: string)
    ensures |r| <= |s|
  {
    var i := LeadingSpaces(s);
    var t := s[i..];
    t[..|t| - TrailingSpaces(t)]
  }

  /** The stripped text is empty or neither starts nor ends with whitespace; it is empty exactly for blank text. */
  lemma StripShape(s: string)
    ensures var r := Strip(s);
      && (r == [] || (!IsSpace(r[0]) && !IsSpace(r[|r| - 1])))
      && (r == [] <==> AllSpaces(s))
  {
    var i := LeadingSpaces(s);
    var t := s[i..];
    var r := Strip(s);
    if i < |s| {
      TrailingSpacesBelowLength(t);
      assert r != [];
    } else {
      assert s == s[..i];
    }
  }

  /** `str.strip()` removes only whitespace, and only at the two ends. */
  lemma StripRemovesOnlyOuterSpaces(s: string)
    ensures var r := Strip(s);
      exists i :: 0 <= i <= |s| - |r| && AllSpaces(s[..i]) && s[i..i + |r|] == r
                  && AllSpaces(s[i + |r|..])
  {
    var i := LeadingSpaces(s);
    var t := s[i..];
    var n := TrailingSpaces(t);
    var r := Strip(s);
    assert r == t[..|t| - n];
    assert s[i..i + |r|] == r by {
      assert forall k :: 0 <= k < |r| ==> s[i..i + |r|][k] == t[k];
    }
    assert AllSpaces(s[i + |r|..]) by {
      assert s[i + |r|..] == t[|t| - n..];
    }
  }

  /** A string that neither starts nor ends with whitespace is its own stripped form. */
  lemma StripTrimmed(s: string)
    requires s == [] || (!IsSpace(s[0]) && !IsSpace(s[|s| - 1]))
    ensures Strip(s) == s
  {
    if s != [] {
      LeadingSpacesExact(s, 0);
      var t := s[0..];
      assert t == s;
    }
  }

  /** `str.strip()` is idempotent. */
  lemma StripIdempotent(s: string)
    ensures Strip(Strip(s)) == Strip(s)
  {
    StripShape(s);
    StripTrimmed(Strip(s));
  }

  function DigitValue(c: char): nat
    requires IsDigit(c)
  {
    (c as int) - ('0' as int)
  }

  function DigitChar(d: nat): (c: char)
    requires d < 10
    ensures IsDigit(c) && DigitValue(c) == d
  {
    (('0' as int) + d) as char
  }

  /** Python's `int()` on a string of decimal digits (leading zeros allowed, `""` reads 0). */
  function DigitsValue(s: string): nat
    requires AllDigits(s)
  {
    if s == [] then 0 else DigitsValue(s[..|s| - 1]) * 10 + DigitValue(s[|s| - 1])
  }

  /** Python's `str()` on a non-negative `int`: decimal digits without leading zeros. */
  function NatToString(n: nat): (s: string)
    ensures |s| >= 1 && AllDigits(s)
    ensures s[0] == '0' ==> n == 0 && s == "0"
  {
    if n < 10 then [DigitChar(n)]
    else
      var s := NatToString(n / 10) + [DigitChar(n % 10)];
      assert s[0] == NatToString(n / 10)[0];
      s
  }

  /** Reading back the decimal form of `n` gives `n`. */
  lemma {:induction false} NatToStringRoundTrip(n: nat)
    ensures DigitsValue(NatToString(n)) == n
  {
    if n >= 10 {
      var s := NatToString(n);
      assert s[..|s| - 1] == NatToString(n / 10);
      NatToStringRoundTrip(n / 10);
    }
  }

  lemma NatToStringInjective(a: nat, b: nat)
    ensures NatToString(a) == NatToString(b) <==> a == b
  {
    if NatToString(a) == NatToString(b) {
      NatToStringRoundTrip(a);
      NatToStringRoundTrip(b);
    }
  }

  /** Python's `str()` on an `int`: a minus sign before the digits of a negative number. */
  function IntToString(i: int): (s: string)
    ensures |s| >= 1
    ensures s[0] == '-' <==> i < 0
  {
    if i < 0 then "-" + NatToString(-i) else NatToString(i)
  }

  /** `str(i)` equals the decimal form of `n` exactly when `i` is the number `n`. */
  lemma IntToStringMatchesNat(i: int, n: nat)
    ensures IntToString(i) == NatToString(n) <==> i == n
  {
    if i >= 0 {
      NatToStringInjective(i, n);
    }
  }
}
