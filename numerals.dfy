/**
 * Decimal text of integers: how Redis writes a counter, how Redis reads one back before INCRBY,
 * and how Python's `int()` reads one back in `RedisManager.get`.
 */
module Numerals {
  import opened Wrappers
  import PyText

  /** The whitespace `int()` skips around a number written in ASCII (space, \t, \n, \v, \f, \r). */
  const AsciiSpace: set<char> := { ' ', '\t', '\n', '\U{B}', '\U{C}', '\r' }

  predicate IsDigit(c: char)
  {
    '0' <= c <= '9'
  }

  predicate AllDigits(s: string)
  {
    forall i :: 0 <= i < |s| ==> IsDigit(s[i])
  }

  /** A non-empty digit string without a leading zero. */
  predicate IsPositiveDigits(s: string)
  {
    |s| > 0 && '1' <= s[0] <= '9' && AllDigits(s)
  }

  function DigitChar(d: nat): (c: char)
    requires d < 10
    ensures IsDigit(c) && c as int - '0' as int == d
  {
    ('0' as int + d) as char
  }

  /** The decimal digits of `n`, most significant first, without leading zeros. */
  function DigitsOf(n: nat): (s: string)
    ensures |s| >= 1 && AllDigits(s)
    ensures n == 0 <==> s == "0"
    ensures n > 0 ==> IsPositiveDigits(s)
    decreases n
  {
    if n < 10 then [DigitChar(n)] else DigitsOf(n / 10) + [DigitChar(n % 10)]
  }

  /** The number a digit string denotes (leading zeros allowed). */
  function DigitsValue(s: string): nat
    requires AllDigits(s)
  {
    if s == [] then 0 else 10 * DigitsValue(s[..|s| - 1]) + (s[|s| - 1] as int - '0' as int)
  }

  /** How Redis (and Python's `str`) write an integer: an optional minus sign, then `DigitsOf`. */
  function Decimal(n: int): (s: string)
    ensures |s| >= 1
  {
    if n < 0 then "-" + DigitsOf(-n) else DigitsOf(n)
  }

  /** The text of `n` is a minus sign exactly for negative `n`, then digits only. */
  lemma DecimalShape(n: int)
    ensures var s := Decimal(n);
              && (s[0] == '-' <==> n < 0)
              && (forall i :: 0 <= i < |s| ==> (i == 0 && n < 0) || IsDigit(s[i]))
  {
  }

  lemma {:induction false} DigitsValueOf(n: nat)
    ensures DigitsValue(DigitsOf(n)) == n
    decreases n
  {
    if n >= 10 {
      var s := DigitsOf(n);
      assert s[..|s| - 1] == DigitsOf(n / 10);
      DigitsValueOf(n / 10);
    }
  }

  /** A positive digit string denotes a positive number. */
  lemma {:induction false} PositiveDigitsValue(s: string)
    requires IsPositiveDigits(s)
    ensures DigitsValue(s) >= 1
  {
    if |s| > 1 {
      assert s[..|s| - 1][0] == s[0];
      PositiveDigitsValue(s[..|s| - 1]);
    }
  }

  /** A digit string without a leading zero is the one `DigitsOf` writes for its value. */
  lemma {:induction false} DigitsOfValue(s: string)
    requires IsPositiveDigits(s)
    ensures DigitsOf(DigitsValue(s)) == s
  {
    var n := DigitsValue(s);
    PositiveDigitsValue(s);
    if |s| > 1 {
      var p := s[..|s| - 1];
      assert p[0] == s[0];
      PositiveDigitsValue(p);
      DigitsOfValue(p);
      assert n / 10 == DigitsValue(p) && n % 10 == s[|s| - 1] as int - '0' as int;
      assert s == p + [s[|s| - 1]];
    }
  }

  /**
   * Redis' strict reading of an integer (string2ll, before its range check): "0", or an
   * optional '-' followed by digits that do not start with '0'. Anything else (spaces, '+',
   * leading zeros, "-0", the empty string) is not an integer.
   */
  function CanonicalValue(t: string): Option<int>
  {
    if t == "0" then Some(0)
    else if |t| > 0 && t[0] == '-' then
      if IsPositiveDigits(t[1..]) then var n: int := DigitsValue(t[1..]); Some(-n) else None
    else if IsPositiveDigits(t) then Some(DigitsValue(t))
    else None
  }

  /** Redis reads back exactly what it writes. */
  lemma {:induction false} CanonicalOfDecimal(n: int)
    ensures CanonicalValue(Decimal(n)) == Some(n)
  {
    var s := Decimal(n);
    if n < 0 {
      assert s[1..] == DigitsOf(-n);
      DigitsValueOf(-n);
    } else {
      DigitsValueOf(n);
    }
  }

  /** The only text Redis reads as `v` is `Decimal(v)`: its integer syntax has one spelling per value. */
  lemma {:induction false} CanonicalIsDecimal(t: string, v: int)
    requires CanonicalValue(t) == Some(v)
    ensures t == Decimal(v)
  {
    if t != "0" {
      if t[0] == '-' {
        DigitsOfValue(t[1..]);
        PositiveDigitsValue(t[1..]);
        assert t == "-" + t[1..];
      } else {
        DigitsOfValue(t);
      }
    }
  }

  /**
   * The digit loop of `int()`: digits, where one underscore may stand between two digits
   * ("1_000"), but not first, not last and not twice in a row. `afterDigit` says whether the
   * previous character was a digit; `acc` is the value of the digits read so far.
   */
  function ScanDigits(s: string, acc: nat, afterDigit: bool): Option<nat>
  {
    if s == [] then (if afterDigit then Some(acc) else None)
    else if IsDigit(s[0]) then ScanDigits(s[1..], 10 * acc + (s[0] as int - '0' as int), true)
    else if s[0] == '_' && afterDigit then ScanDigits(s[1..], acc, false)
    else None
  }

  /**
   * Python's `int(t)` for text in ASCII: surrounding ASCII whitespace is ignored, one optional
   * sign, then the digit loop, leading zeros allowed. `None` stands for the ValueError.
   */
  function PyIntValue(t: string): Option<int>
  {
    var u := PyText.Strip(t, AsciiSpace);
    if |u| > 0 && (u[0] == '-' || u[0] == '+') then
      match ScanDigits(u[1..], 0, false)
      case None => None
      case Some(n) => var v: int := n; Some(if u[0] == '-' then -v else v)
    else
      match ScanDigits(u, 0, false)
      case None => None
      case Some(n) => Some(n)
  }

  /** One more digit at the end multiplies what the loop read by ten and adds the digit. */
  lemma {:induction false} ScanDigitsSnoc(p: string, c: char, acc: nat, afterDigit: bool, v: nat)
    requires AllDigits(p) && |p| > 0 && IsDigit(c)
    requires ScanDigits(p, acc, afterDigit) == Some(v)
    ensures ScanDigits(p + [c], acc, afterDigit) == Some(10 * v + (c as int - '0' as int))
  {
    var acc' := 10 * acc + (p[0] as int - '0' as int);
    assert (p + [c])[0] == p[0] && (p + [c])[1..] == p[1..] + [c];
    assert ScanDigits(p, acc, afterDigit) == ScanDigits(p[1..], acc', true);
    assert ScanDigits(p + [c], acc, afterDigit) == ScanDigits(p[1..] + [c], acc', true);
    if |p| > 1 {
      ScanDigitsSnoc(p[1..], c, acc', true, v);
    } else {
      assert p[1..] + [c] == [c];
      assert ScanDigits([c], acc', true) == ScanDigits([], 10 * acc' + (c as int - '0' as int), true);
    }
  }

  /** On a plain digit string the loop computes `DigitsValue`. */
  lemma {:induction false} ScanDigitsValue(d: string)
    requires AllDigits(d) && |d| > 0
    ensures ScanDigits(d, 0, false) == Some(DigitsValue(d))
  {
    var p, c := d[..|d| - 1], d[|d| - 1];
    assert d == p + [c];
    if |p| > 0 {
      ScanDigitsValue(p);
      ScanDigitsSnoc(p, c, 0, false, DigitsValue(p));
    } else {
      assert ScanDigits(d[1..], c as int - '0' as int, true) == Some(c as int - '0' as int);
    }
  }

  /** Python's `int()` reads back what Redis writes. */
  lemma PyIntOfDecimal(n: int)
    ensures PyIntValue(Decimal(n)) == Some(n)
  {
    var s := Decimal(n);
    DecimalShape(n);
    PyText.StripUnchanged(s, AsciiSpace);
    if n < 0 {
      var d := DigitsOf(-n);
      assert s[1..] == d;
      ScanDigitsValue(d);
      DigitsValueOf(-n);
    } else {
      ScanDigitsValue(s);
      DigitsValueOf(n);
    }
  }
}
