/**
 * Decimal digit strings, most significant digit first, and the natural
 * numbers they denote.  These are the strings `BigIntegerPhp` keeps in its
 * `_str` field; PHP's `(int)$s[$i]` on one digit is `DigitValue`.
 */
module Decimal {

  predicate IsDigit(c: char) { '0' <= c <= '9' }

  predicate AllDigits(s: seq<char>) { forall i :: 0 <= i < |s| ==> IsDigit(s[i]) }

  /** `(int)$c` for a digit character `$c`. */
  function DigitValue(c: char): (d: nat)
    requires IsDigit(c)
    ensures d < 10
  {
    c as int - '0' as int
  }

  /** `(string)$d` for a single digit `$d`. */
  function DigitChar(d: nat): (c: char)
    requires d < 10
    ensures IsDigit(c) && DigitValue(c) == d
  {
    ('0' as int + d) as char
  }

  function Pow10(n: nat): (p: nat)
    ensures p >= 1
  {
    if n == 0 then 1 else 10 * Pow10(n - 1)
  }

  /** The number a digit string denotes; the empty string denotes 0. */
  function Value(s: seq<char>): nat
    requires AllDigits(s)
  {
    if s == [] then 0 else Value(s[..|s| - 1]) * 10 + DigitValue(s[|s| - 1])
  }

  /** A string of `n` zero digits, as PHP's `str_repeat('0', $n)`. */
  function Zeros(n: nat): (z: seq<char>)
    ensures |z| == n && AllDigits(z)
    ensures forall i :: 0 <= i < n ==> z[i] == '0'
  {
    seq(n, _ => '0')
  }

  /** No leading zero digit (the empty string qualifies). */
  predicate NoLeadingZero(s: seq<char>) { s == [] || s[0] != '0' }

  /**
   * PHP's `ltrim($s, '0')`: the longest suffix of `s` that does not start
   * with '0'.  It denotes the same number, and it is empty exactly when every
   * digit of `s` is '0'.
   */
  function TrimLeadingZeros(s: seq<char>): (r: seq<char>)
    requires AllDigits(s)
    ensures AllDigits(r) && NoLeadingZero(r)
    ensures |r| <= |s| && r == s[|s| - |r|..]
    ensures forall i :: 0 <= i < |s| - |r| ==> s[i] == '0'
    ensures Value(r) == Value(s)
    ensures r == [] <==> forall i :: 0 <= i < |s| ==> s[i] == '0'
  {
    if s != [] && s[0] == '0' then
      var r := TrimLeadingZeros(s[1..]);
      TrimStep(s, s[1..], r);
      r
    else
      s
  }

  /** Dropping one more leading '0' keeps what `TrimLeadingZeros` promises of its result. */
  lemma TrimStep(s: seq<char>, t: seq<char>, r: seq<char>)
    requires AllDigits(s) && s != [] && s[0] == '0' && t == s[1..]
    requires AllDigits(r) && |r| <= |t| && r == t[|t| - |r|..] && Value(r) == Value(t)
    requires forall i :: 0 <= i < |t| - |r| ==> t[i] == '0'
    requires r == [] <==> forall i :: 0 <= i < |t| ==> t[i] == '0'
    ensures |r| <= |s| && r == s[|s| - |r|..] && Value(r) == Value(s)
    ensures forall i :: 0 <= i < |s| - |r| ==> s[i] == '0'
    ensures r == [] <==> forall i :: 0 <= i < |s| ==> s[i] == '0'
  {
    assert s == [s[0]] + t;
    ValueCons(s[0], t);
    ZeroTimes(Pow10(|t|));
    assert s[|s| - |r|..] == t[|t| - |r|..];
    forall i | 0 < i < |s|
      ensures s[i] == t[i - 1]
    {
    }
    if r != [] {
      var j :| 0 <= j < |t| && t[j] != '0';
      assert s[j + 1] == t[j];
    }
  }

  lemma ZeroTimes(p: nat)
    ensures 0 * p == 0
  {
  }

  /** PHP's `str_pad($s, $n, '0', STR_PAD_LEFT)`. */
  function LeftPad(s: seq<char>, n: nat): (r: seq<char>)
    requires AllDigits(s)
    ensures AllDigits(r) && |r| == if |s| < n then n else |s|
    ensures Value(r) == Value(s)
    ensures r[|r| - |s|..] == s
  {
    if |s| < n then
      ValueZerosPrefix(n - |s|, s);
      Zeros(n - |s|) + s
    else
      s
  }

  /** Every digit string denotes a number below 10 to the power of its length. */
  lemma {:induction false} ValueBound(s: seq<char>)
    requires AllDigits(s)
    ensures Value(s) < Pow10(|s|)
  {
    if s != [] {
      ValueBound(s[..|s| - 1]);
    }
  }

  /** Splitting a digit string splits its value positionally. */
  lemma {:induction false} ValueConcat(x: seq<char>, y: seq<char>)
    requires AllDigits(x) && AllDigits(y)
    ensures AllDigits(x + y)
    ensures Value(x + y) == Value(x) * Pow10(|y|) + Value(y)
  {
    if y == [] {
      assert x + y == x;
    } else {
      var y' := y[..|y| - 1];
      var d := DigitValue(y[|y| - 1]);
      assert (x + y)[..|x + y| - 1] == x + y';
      assert (x + y)[|x + y| - 1] == y[|y| - 1];
      ValueConcat(x, y');
      assert Value(x + y) == Value(x + y') * 10 + d;
      assert Value(y) == Value(y') * 10 + d;
      ShiftDigit(Value(x), Pow10(|y'|), Value(y'), d);
    }
  }

  lemma ShiftDigit(v: nat, p: nat, w: nat, d: nat)
    ensures (v * p + w) * 10 + d == v * (10 * p) + (w * 10 + d)
  {
  }

  /** The leading digit contributes its value times the weight of its position. */
  lemma ValueCons(c: char, s: seq<char>)
    requires IsDigit(c) && AllDigits(s)
    ensures AllDigits([c] + s)
    ensures Value([c] + s) == DigitValue(c) * Pow10(|s|) + Value(s)
  {
    var one := [c];
    assert one[..0] == [];
    assert Value(one) == DigitValue(c);
    ValueConcat(one, s);
  }

  /** The value of the suffix that starts at position `i`. */
  lemma ValueAt(s: seq<char>, i: nat)
    requires AllDigits(s) && i < |s|
    ensures Value(s[i..]) == DigitValue(s[i]) * Pow10(|s| - 1 - i) + Value(s[i + 1..])
  {
    assert s[i..] == [s[i]] + s[i + 1..];
    ValueCons(s[i], s[i + 1..]);
  }

  /** Leading zeros do not change the value. */
  lemma ValueZerosPrefix(n: nat, s: seq<char>)
    requires AllDigits(s)
    ensures Value(Zeros(n) + s) == Value(s)
  {
    ValueConcat(Zeros(n), s);
    ValueOfZeros(n);
  }

  lemma {:induction false} ValueOfZeros(n: nat)
    ensures Value(Zeros(n)) == 0
  {
    if n > 0 {
      assert Zeros(n)[..n - 1] == Zeros(n - 1);
      ValueOfZeros(n - 1);
    }
  }

  /** A digit string with a non-zero leading digit uses all of its positions. */
  lemma ValueLowerBound(s: seq<char>)
    requires AllDigits(s) && s != [] && s[0] != '0'
    ensures Pow10(|s| - 1) <= Value(s)
  {
    ValueAt(s, 0);
    assert s[0..] == s;
    assert DigitValue(s[0]) >= 1;
  }

  /** Two digit strings of the same length that denote the same number are equal. */
  lemma {:induction false} EqualLengthInjective(x: seq<char>, y: seq<char>)
    requires AllDigits(x) && AllDigits(y) && |x| == |y|
    requires Value(x) == Value(y)
    ensures x == y
  {
    if x != [] {
      var n := |x| - 1;
      var x', y' := x[..n], y[..n];
      assert Value(x) == Value(x') * 10 + DigitValue(x[n]);
      assert Value(y) == Value(y') * 10 + DigitValue(y[n]);
      LastDigitsAgree(Value(x'), DigitValue(x[n]), Value(y'), DigitValue(y[n]));
      EqualLengthInjective(x', y');
      assert x == x' + [x[n]] && y == y' + [y[n]];
    }
  }

  lemma LastDigitsAgree(v: nat, d: nat, w: nat, e: nat)
    requires d < 10 && e < 10 && v * 10 + d == w * 10 + e
    ensures v == w && d == e
  {
  }

  /** Digit strings without leading zeros that denote the same number are equal. */
  lemma CanonicalInjective(x: seq<char>, y: seq<char>)
    requires AllDigits(x) && AllDigits(y) && NoLeadingZero(x) && NoLeadingZero(y)
    requires Value(x) == Value(y)
    ensures x == y
  {
    if |x| < |y| {
      ShorterIsSmaller(x, y);
    } else if |y| < |x| {
      ShorterIsSmaller(y, x);
    } else {
      EqualLengthInjective(x, y);
    }
  }

  lemma ShorterIsSmaller(x: seq<char>, y: seq<char>)
    requires AllDigits(x) && AllDigits(y) && NoLeadingZero(y) && |x| < |y|
    ensures Value(x) < Value(y)
  {
    ValueBound(x);
    ValueLowerBound(y);
    Pow10Monotone(|x|, |y| - 1);
  }

  lemma {:induction false} Pow10Monotone(a: nat, b: nat)
    requires a <= b
    ensures Pow10(a) <= Pow10(b)
  {
    if a < b {
      Pow10Monotone(a, b - 1);
    }
  }

  /**
   * Equal-length digit strings are ordered by the first position in which
   * they differ: the one with the smaller digit there is the smaller number.
   */
  lemma FirstDifferenceDecides(a: seq<char>, b: seq<char>, k: nat)
    requires AllDigits(a) && AllDigits(b) && |a| == |b| && k < |a|
    requires a[..k] == b[..k] && DigitValue(a[k]) < DigitValue(b[k])
    ensures Value(a) < Value(b)
  {
    var ta, tb := a[k..], b[k..];
    assert a == a[..k] + ta && b == b[..k] + tb;
    ValueConcat(a[..k], ta);
    ValueConcat(b[..k], tb);
    // the common prefix contributes the same amount to both values
    ValueAt(a, k);
    ValueAt(b, k);
    ValueBound(a[k + 1..]);
    PositionalLess(DigitValue(a[k]), DigitValue(b[k]), Pow10(|a| - 1 - k), Value(a[k + 1..]), Value(b[k + 1..]));
  }

  lemma PositionalLess(va: nat, vb: nat, p: nat, ta: nat, tb: nat)
    requires va < vb && ta < p
    ensures va * p + ta < vb * p + tb
  {
    MulMonotone(va + 1, vb, p);
  }

  lemma MulMonotone(x: nat, y: nat, p: nat)
    requires x <= y
    ensures x * p <= y * p
  {
  }
}
