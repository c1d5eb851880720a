/**
 Strings as the bot manipulates them: Python's code-point ordering of `str`,
 joining, left justification (`str.ljust`) and decimal rendering of integers.
 */
module Strings {

  /** Python's `a <= b` on `str`: lexicographic by code point, a proper prefix
      sorting first. */
  predicate StrLe(a: string, b: string)
  {
    a == [] || (b != [] && (a[0] < b[0] || (a[0] == b[0] && StrLe(a[1..], b[1..]))))
  }

  /** Python's `a < b` on `str`. */
  predicate StrLt(a: string, b: string)
  {
    StrLe(a, b) && a != b
  }

  lemma {:induction false} StrLeTotal(a: string, b: string)
    ensures StrLe(a, b) || StrLe(b, a)
  {
    if a != [] && b != [] && a[0] == b[0] {
      StrLeTotal(a[1..], b[1..]);
    }
  }

  lemma {:induction false} StrLeReflexive(a: string)
    ensures StrLe(a, a)
  {
    if a != [] {
      StrLeReflexive(a[1..]);
    }
  }

  lemma {:induction false} StrLeAntisymmetric(a: string, b: string)
    requires StrLe(a, b) && StrLe(b, a)
    ensures a == b
  {
    if a != [] && b != [] {
      StrLeAntisymmetric(a[1..], b[1..]);
      assert a == [a[0]] + a[1..];
      assert b == [b[0]] + b[1..];
    }
  }

  lemma {:induction false} StrLeTransitive(a: string, b: string, c: string)
    requires StrLe(a, b) && StrLe(b, c)
    ensures StrLe(a, c)
  {
    if a != [] && b != [] && c != [] && a[0] == b[0] && b[0] == c[0] {
      StrLeTransitive(a[1..], b[1..], c[1..]);
    }
  }

  /** `s.startswith(prefix)`. */
  predicate StartsWith(s: string, prefix: string)
  {
    |prefix| <= |s| && s[..|prefix|] == prefix
  }

  /** `s.endswith(suffix)`. */
  predicate EndsWith(s: string, suffix: string)
  {
    |suffix| <= |s| && s[|s| - |suffix|..] == suffix
  }

  lemma AppendStartsAndEnds(a: string, b: string)
    ensures StartsWith(a + b, a)
    ensures EndsWith(a + b, b)
  {
    assert (a + b)[..|a|] == a;
    assert (a + b)[|a + b| - |b|..] == b;
  }

  lemma EndsWithLast(a: string, b: string, c: string)
    ensures EndsWith(a + (b + c), c)
  {
    var s := a + (b + c);
    assert s[|s| - |c|..] == c;
  }

  /** `''.join(parts)`. */
  function Concat(parts: seq<string>): string
  {
    if parts == [] then [] else parts[0] + Concat(parts[1..])
  }

  lemma {:induction false} ConcatAppend(a: seq<string>, b: seq<string>)
    ensures Concat(a + b) == Concat(a) + Concat(b)
  {
    if a == [] {
      assert a + b == b;
    } else {
      assert (a + b)[1..] == a[1..] + b;
      ConcatAppend(a[1..], b);
    }
  }

  /** `' ' * n`. */
  function Spaces(n: nat): (r: string)
    ensures |r| == n
    ensures forall i :: 0 <= i < n ==> r[i] == ' '
  {
    if n == 0 then [] else [' '] + Spaces(n - 1)
  }

  /** `s.ljust(width)`: `s` padded with spaces on the right to `width`
      characters; a longer `s` is returned whole, never truncated. */
  function LJust(s: string, width: nat): (r: string)
    ensures |r| == if |s| < width then width else |s|
    ensures r[..|s|] == s
    ensures forall i :: |s| <= i < |r| ==> r[i] == ' '
  {
    if |s| < width then s + Spaces(width - |s|) else s
  }

  /** `max(len(n) for n in names)` over a non-empty list. */
  function MaxLength(names: seq<string>): (w: nat)
    requires names != []
    ensures forall i :: 0 <= i < |names| ==> |names[i]| <= w
    ensures exists i :: 0 <= i < |names| && |names[i]| == w
  {
    if |names| == 1 then |names[0]|
    else
      var rest := MaxLength(names[1..]);
      var j :| 0 <= j < |names[1..]| && |names[1..][j]| == rest;
      assert names[j + 1] == names[1..][j];
      assert forall i :: 1 <= i < |names| ==> names[i] == names[1..][i - 1];
      if |names[0]| >= rest then |names[0]| else rest
  }

  function DigitChar(d: nat): (c: char)
    requires d < 10
    ensures '0' <= c <= '9'
    ensures c as int - '0' as int == d
  {
    "0123456789"[d]
  }

  predicate AllDigits(s: string)
  {
    forall i :: 0 <= i < |s| ==> '0' <= s[i] <= '9'
  }

  /** The number a string of decimal digits denotes, read from the left:
      each digit shifts the value so far one place and adds itself. */
  function DigitsValue(s: string): nat
    requires AllDigits(s)
  {
    if s == [] then 0
    else DigitsValue(s[..|s| - 1]) * 10 + (s[|s| - 1] as int - '0' as int)
  }

  /** A decimal numeral as Python prints one: at least one digit, and no
      leading zero unless the numeral is `0` itself. */
  predicate Decimal(s: string)
  {
    |s| >= 1 && AllDigits(s) && (s[0] != '0' || s == "0")
  }

  /** `str(n)` for a non-negative integer: the decimal digits of `n`, without
      leading zeros. */
  function NatToString(n: nat): (r: string)
    ensures |r| >= 1
    ensures AllDigits(r)
    ensures DigitsValue(r) == n
    ensures n >= 1 ==> r[0] != '0'
    ensures Decimal(r)
  {
    if n < 10 then
      var r := [DigitChar(n)];
      assert r[..0] == [];
      r
    else
      var init := NatToString(n / 10);
      var r := init + [DigitChar(n % 10)];
      assert r[..|r| - 1] == init;
      r
  }

  /** `str(i)` for any integer: a minus sign before the digits of a negative
      number. */
  function IntToString(i: int): (r: string)
    ensures i >= 0 ==> Decimal(r) && DigitsValue(r) == i
    ensures i < 0 ==> |r| >= 2 && r[0] == '-' && Decimal(r[1..]) && DigitsValue(r[1..]) == -i
  {
    if i < 0 then
      var digits := NatToString(-i);
      assert ("-" + digits)[1..] == digits;
      "-" + digits
    else NatToString(i)
  }
}
