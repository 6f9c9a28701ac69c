/**
 * The pure-PHP arbitrary-precision signed integer `BigIntegerPhp`: a digit
 * string `_str`, its length `_len` and a sign flag `_neg`.  An instance is
 * never changed once built (every operation builds a fresh result), so it is
 * modelled as a datatype value.
 */
module BigIntegerPhp {
  import opened Decimal

  /** A signed decimal numeral: an optional '-' followed by at least one digit. */
  predicate IsNumeral(s: string)
  {
    |s| >= 1 && if s[0] == '-' then |s| >= 2 && AllDigits(s[1..]) else AllDigits(s)
  }

  /** The digits of a numeral, without its sign. */
  function Magnitude(s: string): (m: string)
    requires IsNumeral(s)
    ensures AllDigits(m) && |m| >= 1
  {
    if s[0] == '-' then s[1..] else s
  }

  /** The integer a numeral denotes. */
  function NumeralValue(s: string): int
    requires IsNumeral(s)
  {
    if s[0] == '-' then -(Value(Magnitude(s)) as int) else Value(Magnitude(s))
  }

  /** The canonical spelling: no leading zero except in "0", and no "-0". */
  predicate IsCanonical(s: string)
  {
    && IsNumeral(s)
    && (Magnitude(s) == "0" || Magnitude(s)[0] != '0')
    && (s[0] == '-' ==> Magnitude(s) != "0")
  }

  /** `_neg`, `_len`, `_str` of one instance. */
  datatype BigInt = BigInt(neg: bool, len: nat, str: string)
  {
    /** `_len` is the digit count, and zero is never negative. */
    predicate Valid()
    {
      AllDigits(str) && |str| >= 1 && len == |str| && (neg ==> Value(str) > 0)
    }
  }

  /** The integer an instance stands for. */
  function SignedValue(x: BigInt): int
    requires AllDigits(x.str)
  {
    if x.neg then -(Value(x.str) as int) else Value(x.str)
  }

  /** `_fromString` (and `_wrap` of a string): keep the digits, drop the sign of a zero. */
  function FromString(s: string): (r: BigInt)
    requires IsNumeral(s)
    ensures r.Valid()
    ensures r.str == Magnitude(s)
    ensures SignedValue(r) == NumeralValue(s)
    ensures r.neg <==> s[0] == '-' && exists i :: 0 <= i < |r.str| && r.str[i] != '0'
  {
    var negative := s[0] == '-';
    var str := if negative then s[1..] else s;
    var trimmed := TrimLeadingZeros(str);
    if trimmed != "" then ValueLowerBound(trimmed); BigInt(negative, |str|, str)
    else BigInt(false, |str|, str)
  }

  /** `__toString`: the canonical numeral of the instance's value. */
  function ToString(x: BigInt): (r: string)
    requires x.Valid()
    ensures IsCanonical(r)
    ensures NumeralValue(r) == SignedValue(x)
    ensures r[0] == '-' <==> x.neg
  {
    var trimmed := TrimLeadingZeros(x.str);
    var ret := if trimmed == "" then "0" else trimmed;
    assert ret == "0" ==> Value(ret) == 0 by {
      if ret == "0" { assert ret[..0] == []; }
    }
    if x.neg then
      assert ("-" + ret)[1..] == ret;
      "-" + ret
    else
      ret
  }

  /** `isNegative`. */
  function IsNegative(x: BigInt): (r: bool)
    requires x.Valid()
    ensures r <==> SignedValue(x) < 0
  {
    x.neg
  }

  /** `absoluteValue`: a copy of the digits with the sign cleared. */
  function AbsoluteValue(x: BigInt): (r: BigInt)
    requires x.Valid()
    ensures r.Valid() && !r.neg
    ensures r.str == x.str && r.len == x.len
    ensures SignedValue(r) == if SignedValue(x) < 0 then -SignedValue(x) else SignedValue(x)
  {
    x.(neg := false)
  }

  /** Two canonical numerals that denote the same integer are the same string. */
  lemma CanonicalUnique(s: string, t: string)
    requires IsCanonical(s) && IsCanonical(t)
    requires NumeralValue(s) == NumeralValue(t)
    ensures s == t
  {
    var ms, mt := Magnitude(s), Magnitude(t);
    assert "0"[..0] == [];
    assert Value("0") == 0;
    if s[0] == '-' && t[0] != '-' {
      ValueLowerBound(ms);
    } else if s[0] != '-' && t[0] == '-' {
      ValueLowerBound(mt);
    } else {
      assert Value(ms) == Value(mt);
      if ms == "0" && mt != "0" {
        ValueLowerBound(mt);
      } else if mt == "0" && ms != "0" {
        ValueLowerBound(ms);
      } else if ms != "0" {
        CanonicalInjective(ms, mt);
      }
      if s[0] == '-' {
        assert s == [s[0]] + ms && t == [t[0]] + mt;
      }
    }
  }

  /** `__toString` depends only on the value, so equal values print equally. */
  lemma ToStringDeterminedByValue(x: BigInt, y: BigInt)
    requires x.Valid() && y.Valid()
    requires SignedValue(x) == SignedValue(y)
    ensures ToString(x) == ToString(y)
  {
    CanonicalUnique(ToString(x), ToString(y));
  }

  /** Printing and re-reading a number gives back its printed form. */
  lemma ToStringFromStringRoundTrip(x: BigInt)
    requires x.Valid()
    ensures IsNumeral(ToString(x))
    ensures SignedValue(FromString(ToString(x))) == SignedValue(x)
    ensures ToString(FromString(ToString(x))) == ToString(x)
  {
    ToStringDeterminedByValue(FromString(ToString(x)), x);
  }

  /** "-0" and "-000" read as non-negative zero and print as "0". */
  lemma NegativeZeroIsZero(zeros: nat)
    requires zeros >= 1
    ensures IsNumeral("-" + Zeros(zeros))
    ensures !IsNegative(FromString("-" + Zeros(zeros)))
    ensures ToString(FromString("-" + Zeros(zeros))) == "0"
  {
    var s := "-" + Zeros(zeros);
    assert s[1..] == Zeros(zeros);
    ValueZerosPrefix(zeros, []);
    assert Zeros(zeros) + [] == Zeros(zeros);
    assert "0"[..0] == [];
    CanonicalUnique(ToString(FromString(s)), "0");
  }

  /**
   * `_equalize`: the common length and both digit strings left-padded with
   * '0' to it.
   */
  function Equalize(a: BigInt, b: BigInt): (r: (nat, string, string))
    requires a.Valid() && b.Valid()
    ensures r.0 == if a.len < b.len then b.len else a.len
    ensures |r.1| == r.0 && |r.2| == r.0
    ensures AllDigits(r.1) && AllDigits(r.2)
    ensures Value(r.1) == Value(a.str) && Value(r.2) == Value(b.str)
    ensures r.1[r.0 - a.len..] == a.str && r.2[r.0 - b.len..] == b.str
  {
    if a.len < b.len then
      (b.len, LeftPad(a.str, b.len), b.str)
    else if a.len > b.len then
      (a.len, a.str, LeftPad(b.str, a.len))
    else
      (a.len, a.str, b.str)
  }

  /**
   * `_raw_compare`: compare equal-length digit strings digit by digit, from
   * the most significant digit, stopping at the first difference.
   */
  method RawCompare(sl: nat, a: string, b: string) returns (r: int)
    requires |a| == sl && |b| == sl && AllDigits(a) && AllDigits(b)
    ensures r == -1 <==> Value(a) < Value(b)
    ensures r == 0 <==> Value(a) == Value(b)
    ensures r == 1 <==> Value(a) > Value(b)
  {
    var ret := 0;
    var i := 0;
    while i < sl
      invariant 0 <= i <= sl
      invariant ret == 0 && a[..i] == b[..i]
    {
      ret := DigitValue(a[i]) - DigitValue(b[i]);
      if ret != 0 {
        break;
      }
      assert a[..i + 1] == a[..i] + [a[i]] && b[..i + 1] == b[..i] + [b[i]];
      i := i + 1;
    }
    if ret < 0 {
      FirstDifferenceDecides(a, b, i);
      r := -1;
    } else if ret > 0 {
      FirstDifferenceDecides(b, a, i);
      r := 1;
    } else {
      assert a == a[..sl] && b == b[..sl];
      r := 0;
    }
  }

  /**
   * `_raw_add`: schoolbook addition from the least significant digit.  The
   * result has `sl` digits, or `sl + 1` with a leading '1' exactly when a
   * carry is left over, that is when the sum needs more than `sl` digits.
   */
  method RawAdd(sl: nat, a: string, b: string) returns (len: nat, s: string)
    requires |a| == sl && |b| == sl && AllDigits(a) && AllDigits(b)
    ensures AllDigits(s) && |s| == len
    ensures Value(s) == Value(a) + Value(b)
    ensures len == sl || (len == sl + 1 && s[0] == '1')
    ensures len == sl + 1 <==> Value(a) + Value(b) >= Pow10(sl)
  {
    var ret := Zeros(sl);
    var carry := 0;
    var i: int := sl - 1;
    while i >= 0
      invariant -1 <= i < sl
      invariant |ret| == sl && AllDigits(ret)
      invariant carry == 0 || carry == 1
      invariant Value(ret[i + 1..]) + CarryWeight(carry, sl - 1 - i) == Value(a[i + 1..]) + Value(b[i + 1..])
    {
      ghost var carryIn := carry;
      var cur := carry + DigitValue(a[i]) + DigitValue(b[i]);
      ghost var sum := cur;
      assert 0 <= sum <= 19;
      carry := 0;
      while cur >= 10
        invariant cur >= 0
        invariant (carry == 0 && cur == sum) || (carry == 1 && cur == sum - 10 && cur < 10)
      {
        cur := cur - 10;
        carry := carry + 1;
      }
      ghost var before, column := ret, i;
      ret := ret[i := DigitChar(cur)];
      i := i - 1;
      AddColumn(sl, a, b, before, ret, column, i, carryIn, carry, cur);
    }
    assert ret[0..] == ret && a[0..] == a && b[0..] == b;
    if carry != 0 {
      FinalCarry(ret, Value(a) + Value(b));
      len, s := sl + 1, "1" + ret;
    } else {
      ValueBound(ret);
      len, s := sl, ret;
    }
  }

  /** A carry out of the most significant column becomes a leading '1'. */
  lemma FinalCarry(ret: string, sum: nat)
    requires AllDigits(ret) && Value(ret) + Pow10(|ret|) == sum
    ensures AllDigits("1" + ret) && Value("1" + ret) == sum && sum >= Pow10(|ret|)
  {
    ValueCons('1', ret);
  }

  /** The weight of a carry or borrow of 0 or 1 that leaves column `k`, counted from the right. */
  function CarryWeight(c: int, k: nat): nat
  {
    if c == 0 then 0 else Pow10(k)
  }

  lemma CarryWeightIsProduct(c: int, k: nat)
    requires c == 0 || c == 1
    ensures CarryWeight(c, k) == c * Pow10(k)
    ensures Pow10(k + 1) == 10 * Pow10(k)
  {
  }

  /** One column of `_raw_add` keeps the partial sum of the processed suffix. */
  lemma AddDigitStep(r: int, a: int, b: int, p: int, carry: int, carry': int, cur: int, da: int, db: int)
    requires r + carry * p == a + b
    requires cur + 10 * carry' == carry + da + db
    ensures (cur * p + r) + carry' * (10 * p) == (da * p + a) + (db * p + b)
  {
    calc {
      (cur * p + r) + carry' * (10 * p);
      (cur + 10 * carry') * p + r;
      (carry + da + db) * p + r;
      da * p + db * p + (r + carry * p);
    }
  }

  /** One column of `_raw_sub` keeps the partial difference of the processed suffix. */
  lemma SubDigitStep(r: int, a: int, b: int, p: int, borrow: int, borrow': int, cur: int, da: int, db: int)
    requires r + b == a + borrow * p
    requires cur - 10 * borrow' == da - db - borrow
    ensures (cur * p + r) + (db * p + b) == (da * p + a) + borrow' * (10 * p)
  {
    calc {
      (cur * p + r) + (db * p + b);
      (cur + db) * p + (r + b);
      (da - borrow + 10 * borrow') * p + (a + borrow * p);
      (da * p + a) + borrow' * (10 * p);
    }
  }

  /**
   * Writing the digit of column `i` extends the partial sum of `_raw_add` by
   * that column; `next` is the column the loop moves on to.
   */
  lemma AddColumn(sl: nat, a: string, b: string, ret: string, ret': string, i: nat, next: int,
                  carry: int, carry': int, cur: nat)
    requires |a| == sl && |b| == sl && |ret| == sl && AllDigits(a) && AllDigits(b) && AllDigits(ret)
    requires i < sl && next == i - 1 && cur < 10 && (carry == 0 || carry == 1) && (carry' == 0 || carry' == 1)
    requires Value(ret[i + 1..]) + CarryWeight(carry, sl - 1 - i) == Value(a[i + 1..]) + Value(b[i + 1..])
    requires cur + 10 * carry' == carry + DigitValue(a[i]) + DigitValue(b[i])
    requires ret' == ret[i := DigitChar(cur)]
    ensures |ret'| == sl && AllDigits(ret')
    ensures Value(ret'[next + 1..]) + CarryWeight(carry', sl - 1 - next) == Value(a[next + 1..]) + Value(b[next + 1..])
  {
    assert ret'[i + 1..] == ret[i + 1..];
    ValueAt(ret', i);
    ValueAt(a, i);
    ValueAt(b, i);
    CarryWeightIsProduct(carry, sl - 1 - i);
    CarryWeightIsProduct(carry', sl - i);
    AddDigitStep(Value(ret[i + 1..]), Value(a[i + 1..]), Value(b[i + 1..]), Pow10(sl - 1 - i),
                 carry, carry', cur, DigitValue(a[i]), DigitValue(b[i]));
  }

  /**
   * Writing the digit of column `i` extends the partial difference of
   * `_raw_sub` by that column; `next` is the column the loop moves on to.
   */
  lemma SubColumn(sl: nat, a: string, b: string, ret: string, ret': string, i: nat, next: int,
                  borrow: int, borrow': int, cur: nat)
    requires |a| == sl && |b| == sl && |ret| == sl && AllDigits(a) && AllDigits(b) && AllDigits(ret)
    requires i < sl && next == i - 1 && cur < 10 && (borrow == 0 || borrow == 1) && (borrow' == 0 || borrow' == 1)
    requires Value(ret[i + 1..]) + Value(b[i + 1..]) == Value(a[i + 1..]) + CarryWeight(borrow, sl - 1 - i)
    requires cur - 10 * borrow' == DigitValue(a[i]) - DigitValue(b[i]) - borrow
    requires ret' == ret[i := DigitChar(cur)]
    ensures |ret'| == sl && AllDigits(ret')
    ensures Value(ret'[next + 1..]) + Value(b[next + 1..]) == Value(a[next + 1..]) + CarryWeight(borrow', sl - 1 - next)
  {
    assert ret'[i + 1..] == ret[i + 1..];
    ValueAt(ret', i);
    ValueAt(a, i);
    ValueAt(b, i);
    CarryWeightIsProduct(borrow, sl - 1 - i);
    CarryWeightIsProduct(borrow', sl - i);
    SubDigitStep(Value(ret[i + 1..]), Value(a[i + 1..]), Value(b[i + 1..]), Pow10(sl - 1 - i),
                 borrow, borrow', cur, DigitValue(a[i]), DigitValue(b[i]));
  }

  /** `ltrim($s, '0')`, falling back to "0", keeps a non-empty string's value without leading zeros. */
  lemma TrimmedOrZero(s: string)
    requires AllDigits(s) && |s| >= 1
    ensures var t := TrimLeadingZeros(s);
            var r := if t == "" then "0" else t;
            AllDigits(r) && 1 <= |r| <= |s| && Value(r) == Value(s) && (r == "0" || r[0] != '0')
  {
    assert "0"[..0] == [];
  }

  /** Since `a` is not below `b`, no borrow is left after the most significant column. */
  lemma NoFinalBorrow(ret: string, a: nat, b: nat, borrow: int)
    requires AllDigits(ret) && (borrow == 0 || borrow == 1) && a >= b
    requires Value(ret) + b == a + CarryWeight(borrow, |ret|)
    ensures borrow == 0 && Value(ret) == a - b
  {
    ValueBound(ret);
  }

  /**
   * `_raw_sub`: schoolbook subtraction of the smaller `b` from `a`, then the
   * leading zeros are stripped down to at least one digit.
   */
  method RawSub(sl: nat, a: string, b: string) returns (len: nat, s: string)
    requires |a| == sl && |b| == sl && AllDigits(a) && AllDigits(b)
    requires sl >= 1 && Value(a) >= Value(b)
    ensures AllDigits(s) && |s| == len && 1 <= len <= sl
    ensures Value(s) == Value(a) - Value(b)
    ensures s == "0" || s[0] != '0'
  {
    var ret := Zeros(sl);
    var borrow := 0;
    var i: int := sl - 1;
    while i >= 0
      invariant -1 <= i < sl
      invariant |ret| == sl && AllDigits(ret)
      invariant borrow == 0 || borrow == 1
      invariant Value(ret[i + 1..]) + Value(b[i + 1..]) == Value(a[i + 1..]) + CarryWeight(borrow, sl - 1 - i)
    {
      ghost var borrowIn := borrow;
      var cur := DigitValue(a[i]) - DigitValue(b[i]) - borrow;
      ghost var diff := cur;
      assert -10 <= diff <= 9;
      borrow := 0;
      while cur < 0
        invariant cur <= 9
        invariant (borrow == 0 && cur == diff) || (borrow == 1 && cur == diff + 10 && cur >= 0)
      {
        cur := cur + 10;
        borrow := borrow + 1;
      }
      ghost var before, column := ret, i;
      ret := ret[i := DigitChar(cur)];
      i := i - 1;
      SubColumn(sl, a, b, before, ret, column, i, borrowIn, borrow, cur);
    }
    assert ret[0..] == ret && a[0..] == a && b[0..] == b;
    NoFinalBorrow(ret, Value(a), Value(b), borrow);
    if ret[0] == '0' {
      ghost var digits := ret;
      ret := TrimLeadingZeros(ret);
      if ret == "" {
        ret := "0";
      }
      TrimmedOrZero(digits);
      return |ret|, ret;
    }
    return sl, ret;
  }

  /** `compare`: -1, 0 or 1 as the first number is below, equal to or above the second. */
  method Compare(x: BigInt, y: BigInt) returns (r: int)
    requires x.Valid() && y.Valid()
    ensures r == -1 <==> SignedValue(x) < SignedValue(y)
    ensures r == 0 <==> SignedValue(x) == SignedValue(y)
    ensures r == 1 <==> SignedValue(x) > SignedValue(y)
  {
    if x.neg != y.neg {
      return if x.neg then -1 else 1;
    }
    var sgn := if x.neg then -1 else 1;
    var (sl, a, b) := Equalize(x, y);
    var raw := RawCompare(sl, a, b);
    r := sgn * raw;
  }

  /** `add`: the signed sum, dispatching on the signs and the larger magnitude. */
  method Add(x: BigInt, y: BigInt) returns (r: BigInt)
    requires x.Valid() && y.Valid()
    ensures r.Valid()
    ensures SignedValue(r) == SignedValue(x) + SignedValue(y)
  {
    var (sl, a, b) := Equalize(x, y);
    if x.neg == y.neg {
      var len, str := RawAdd(sl, a, b);
      r := BigInt(x.neg, len, str);
    } else {
      var c := RawCompare(sl, a, b);
      if c == 0 {
        assert "0"[..0] == [];
        r := BigInt(false, 1, "0");
      } else if c == -1 {
        var len, str := RawSub(sl, b, a);
        r := BigInt(y.neg, len, str);
      } else {
        var len, str := RawSub(sl, a, b);
        r := BigInt(x.neg, len, str);
      }
    }
  }

  /** `subtract`: the signed difference, dispatching as `add` with the second sign flipped. */
  method Subtract(x: BigInt, y: BigInt) returns (r: BigInt)
    requires x.Valid() && y.Valid()
    ensures r.Valid()
    ensures SignedValue(r) == SignedValue(x) - SignedValue(y)
  {
    var (sl, a, b) := Equalize(x, y);
    if x.neg != y.neg {
      var len, str := RawAdd(sl, a, b);
      r := BigInt(x.neg, len, str);
    } else {
      var c := RawCompare(sl, a, b);
      if c == 0 {
        assert "0"[..0] == [];
        r := BigInt(false, 1, "0");
      } else if c == -1 {
        var len, str := RawSub(sl, b, a);
        r := BigInt(!y.neg, len, str);
      } else {
        var len, str := RawSub(sl, a, b);
        r := BigInt(x.neg, len, str);
      }
    }
  }

  /** Adding a number and subtracting it again prints as the original number. */
  method AddThenSubtract(x: BigInt, y: BigInt) returns (r: BigInt)
    requires x.Valid() && y.Valid()
    ensures r.Valid() && SignedValue(r) == SignedValue(x)
    ensures ToString(r) == ToString(x)
  {
    var sum := Add(x, y);
    r := Subtract(sum, y);
    ToStringDeterminedByValue(r, x);
  }

  /** The values of the numerals "9" and "10". */
  lemma NineAndTen()
    ensures IsNumeral("9") && IsNumeral("10")
    ensures NumeralValue("9") == 9 && NumeralValue("10") == 10
  {
    assert "9"[..0] == [];
    assert "10"[..1] == "1";
    assert "1"[..0] == [];
  }

  /** The values of the numerals "-5" and "3". */
  lemma MinusFiveAndThree()
    ensures IsNumeral("-5") && IsNumeral("3")
    ensures NumeralValue("-5") == -5 && NumeralValue("3") == 3
  {
    assert "-5"[1..] == "5";
    assert "5"[..0] == [] && "3"[..0] == [];
  }

  /** A shorter numeral can be the smaller one: 9 is below 10. */
  method CompareNineTen() returns (r: int)
    ensures r == -1
  {
    NineAndTen();
    r := Compare(FromString("9"), FromString("10"));
  }

  /** Mixed signs are decided by the sign: -5 is below 3. */
  method CompareMinusFiveThree() returns (r: int)
    ensures r == -1
  {
    MinusFiveAndThree();
    r := Compare(FromString("-5"), FromString("3"));
  }
}
