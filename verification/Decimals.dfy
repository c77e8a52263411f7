/** Which decimal text keeps its exact value on the way to make_float. */
module Decimals {
  import opened Values
  import opened Numbers

  predicate Digits(ds: Bytes) { forall i :: 0 <= i < |ds| ==> IsDigit(ds[i]) }

  /** The value of the digits `ds` after `m`. */
  function Value(m: nat, ds: Bytes): nat
    requires Digits(ds)
    decreases |ds|
  {
    if ds == [] then m else Value(m * 10 + (ds[0] - 48), ds[1..])
  }

  lemma {:induction false} ValueGrows(m: nat, ds: Bytes)
    requires Digits(ds)
    ensures Value(m, ds) >= m
    decreases |ds|
  {
    if ds != [] {
      ValueGrows(m * 10 + (ds[0] - 48), ds[1..]);
    }
  }

  lemma {:induction false} ValueOfBoth(m: nat, a: Bytes, b: Bytes)
    requires Digits(a) && Digits(b)
    ensures Digits(a + b) && Value(m, a + b) == Value(Value(m, a), b)
    decreases |a|
  {
    if a == [] {
      assert a + b == b;
    } else {
      ValueOfBoth(m * 10 + (a[0] - 48), a[1..], b);
      assert (a + b)[1..] == a[1..] + b;
    }
  }

  lemma FirstDigit(t: Bytes, p: nat, ds: Bytes)
    requires OccursAt(t, p, ds) && ds != []
    ensures Peek(t, p) == ds[0] && OccursAt(t, p + 1, ds[1..])
  {
    OccursFirst(t, p, ds);
    assert ds == ds[..1] + ds[1..];
    OccursSplit(t, p, ds[..1], ds[1..]);
  }

  /** The accumulation takes every digit while the value fits 64 bits. */
  lemma {:induction false} MantissaAdvances(t: Bytes, p: nat, m: nat, ds: Bytes)
    requires OccursAt(t, p, ds) && Digits(ds) && Value(m, ds) <= MAX_UINT
    ensures m <= MAX_UINT && p + |ds| <= |t| && Mantissa(t, p, m) == Mantissa(t, p + |ds|, Value(m, ds))
    decreases |ds|
  {
    ValueGrows(m, ds);
    if ds != [] {
      FirstDigit(t, p, ds);
      ValueGrows(m * 10 + (ds[0] - 48), ds[1..]);
      MantissaAdvances(t, p + 1, m * 10 + (ds[0] - 48), ds[1..]);
    }
  }

  /** The exponent digits are all taken, unless with them the exponent exceeds the float's. */
  lemma {:induction false} ExponentOfDigits(t: Bytes, p: nat, e: nat, ds: Bytes, offset: int)
    requires OccursAt(t, p, ds) && Digits(ds) && !IsDigit(Peek(t, p + |ds|))
    ensures p <= |t|
    ensures Exponent(t, p, e, offset)
         == if ds != [] && Value(e, ds) + offset > EXPONENT_MAX then None else Some((Value(e, ds), p + |ds|))
    decreases |ds|
  {
    if ds != [] {
      FirstDigit(t, p, ds);
      ValueGrows(e * 10 + (ds[0] - 48), ds[1..]);
      ExponentOfDigits(t, p + 1, e * 10 + (ds[0] - 48), ds[1..], offset);
    }
  }

  function Sign(negative: bool): Bytes { if negative then [45] else [] }

  /** How an exponent is marked: with which letter, and with a plus sign or not. */
  datatype Mark = Mark(upper: bool, plus: bool)

  /** An exponent part, when `exp` is not empty. */
  function ExponentText(mark: Mark, negativeExp: bool, exp: Bytes): Bytes {
    if exp == [] then [] else [if mark.upper then 69 else 101] + (ExponentSign(mark, negativeExp) + exp)
  }

  function ExponentSign(mark: Mark, negativeExp: bool): Bytes {
    if negativeExp then [45] else if mark.plus then [43] else []
  }

  /** A sign, digits, a point and digits, and an exponent part. */
  function DecimalText(negative: bool, whole: Bytes, frac: Bytes, mark: Mark, negativeExp: bool, exp: Bytes): Bytes {
    Sign(negative) + (whole + ([46] + (frac + ExponentText(mark, negativeExp, exp))))
  }

  /** The number read from a mantissa, its exponent offset and the exponent written. */
  function ScaledBy(negative: bool, m: nat, offset: int, negativeExp: bool, exp: Bytes): FloatLit
    requires Digits(exp)
  {
    var e := Value(0, exp);
    if exp != [] && e + offset > EXPONENT_MAX then if negativeExp then Zero(negative) else Infinite(negative)
    else Decimal(negative, m, (if negativeExp then 0 - e else e) + offset)
  }

  lemma ScaledText(t: Bytes, p: nat, negative: bool, m: nat, offset: int, mark: Mark, negativeExp: bool, exp: Bytes)
    requires OccursAt(t, p, ExponentText(mark, negativeExp, exp)) && p + |ExponentText(mark, negativeExp, exp)| == |t|
    requires Digits(exp)
    ensures Scaled(t, p, negative, m, offset) == Some(Float(ScaledBy(negative, m, offset, negativeExp, exp)))
  {
    hide OccursAt, Value, Exponent, Digits, ExponentText, ExponentSign;
    NoDigits();
    if exp != [] {
      var q := p + 1 + |ExponentSign(mark, negativeExp)|;
      ExponentParts(t, p, mark, negativeExp, exp);
      ExponentOfDigits(t, q, 0, exp, offset);
      ScaledUnfold(t, p, negative, m, offset, q);
    } else {
      assert ExponentText(mark, negativeExp, exp) == [] by { NoExponent(mark, negativeExp); }
    }
  }

  lemma NoExponent(mark: Mark, negativeExp: bool)
    ensures ExponentText(mark, negativeExp, []) == []
  {
  }

  /** An exponent part whose digits begin at `q`. */
  lemma ScaledUnfold(t: Bytes, p: nat, negative: bool, m: nat, offset: int, q: nat)
    requires p < |t| && (t[p] == 101 || t[p] == 69) && q <= |t|
    requires q == if Peek(t, p + 1) == 45 || Peek(t, p + 1) == 43 then p + 2 else p + 1
    ensures var negativeExp := Peek(t, p + 1) == 45;
      Scaled(t, p, negative, m, offset) ==
        match Exponent(t, q, 0, offset)
        case None => Some(Float(if negativeExp then Zero(negative) else Infinite(negative)))
        case Some((e, r)) =>
          if Peek(t, r) != 0 then None
          else Some(Float(Decimal(negative, m, (if negativeExp then 0 - e else e) + offset)))
  {
    hide Exponent;
  }

  lemma ExponentParts(t: Bytes, p: nat, mark: Mark, negativeExp: bool, exp: Bytes)
    requires OccursAt(t, p, ExponentText(mark, negativeExp, exp)) && p + |ExponentText(mark, negativeExp, exp)| == |t|
    requires Digits(exp) && exp != []
    ensures var sign := ExponentSign(mark, negativeExp); var q := p + 1 + |sign|;
      && OccursAt(t, q, exp) && q + |exp| == |t| && (Peek(t, p) == 101 || Peek(t, p) == 69)
      && (Peek(t, p + 1) == 45 <==> negativeExp) && (Peek(t, p + 1) == 43 <==> sign == [43])
      && q == if Peek(t, p + 1) == 45 || Peek(t, p + 1) == 43 then p + 2 else p + 1
  {
    hide OccursAt;
    var sign := ExponentSign(mark, negativeExp);
    OccursFirst(t, p, ExponentText(mark, negativeExp, exp));
    OccursSplit(t, p, [if mark.upper then 69 else 101], sign + exp);
    OccursSplit(t, p + 1, sign, exp);
    OccursFirst(t, p + 1 + |sign|, exp);
    if sign != [] {
      OccursFirst(t, p + 1, sign);
    }
  }

  lemma NoDigits()
    ensures Value(0, []) == 0
  {
  }

  /** Where the parts of a decimal text lie. */
  lemma DecimalParts(negative: bool, whole: Bytes, frac: Bytes, mark: Mark, negativeExp: bool, exp: Bytes)
    ensures var t, p, tail := DecimalText(negative, whole, frac, mark, negativeExp, exp), |Sign(negative)|,
      ExponentText(mark, negativeExp, exp);
      && (negative ==> Peek(t, 0) == 45) && OccursAt(t, p, whole) && p + |whole| < |t| && Peek(t, p + |whole|) == 46
      && OccursAt(t, p + |whole| + 1, frac) && OccursAt(t, p + |whole| + 1 + |frac|, tail)
      && p + |whole| + 1 + |frac| + |tail| == |t|
  {
    hide OccursAt, ExponentText;
    var t := DecimalText(negative, whole, frac, mark, negativeExp, exp);
    var tail := ExponentText(mark, negativeExp, exp);
    WholeText(t);
    OccursSplit(t, 0, Sign(negative), whole + ([46] + (frac + tail)));
    var p := |Sign(negative)|;
    OccursSplit(t, p, whole, [46] + (frac + tail));
    OccursSplit(t, p + |whole|, [46], frac + tail);
    OccursSplit(t, p + |whole| + 1, frac, tail);
    OccursFirst(t, p + |whole|, [46]);
    if negative {
      OccursFirst(t, 0, Sign(negative));
    }
  }

  lemma WholeText(t: Bytes)
    ensures OccursAt(t, 0, t)
  {
    assert t[0..|t|] == t;
  }

  lemma StartsWithDigitOrPoint(t: Bytes, p: nat, whole: Bytes)
    requires OccursAt(t, p, whole) && Digits(whole) && Peek(t, p + |whole|) == 46
    ensures IsDigit(Peek(t, p)) || Peek(t, p) == 46
  {
    if whole != [] {
      OccursFirst(t, p, whole);
    }
  }

  lemma TailIsNoDigit(t: Bytes, p: nat, mark: Mark, negativeExp: bool, exp: Bytes)
    requires OccursAt(t, p, ExponentText(mark, negativeExp, exp)) && p + |ExponentText(mark, negativeExp, exp)| == |t|
    ensures !IsDigit(Peek(t, p))
  {
    if exp != [] {
      OccursFirst(t, p, ExponentText(mark, negativeExp, exp));
    }
  }

  // ---- Integers too large for 64 bits ----

  /** How many low digits go until a number fits the float's mantissa. */
  function Dropped(n: nat): nat {
    if n > MANTISSA_MAX then 1 + Dropped(n / 10) else 0
  }

  /** Some beginning of the digits is a number from 2^64 to 2^64 + 3. */
  ghost predicate StartsDoubled(ds: Bytes)
    requires Digits(ds)
  {
    exists k :: 0 <= k <= |ds| && MAX_UINT < Value(0, ds[..k]) <= MAX_UINT + 4
  }

  /** The digits without leading zeros. */
  function Significant(ds: Bytes): Bytes {
    if ds != [] && ds[0] == 48 then Significant(ds[1..]) else ds
  }

  /** That is so exactly when the first 20 significant digits are such a number. */
  lemma {:induction false} DoubledIsTwentyDigits(ds: Bytes)
    requires Digits(ds)
    ensures Digits(Significant(ds))
    ensures var s := Significant(ds);
      StartsDoubled(ds) <==> |s| >= 20 && MAX_UINT < Value(0, s[..20]) <= MAX_UINT + 4
    decreases |ds|
  {
    hide Value;
    if ds != [] && ds[0] == 48 {
      DoubledIsTwentyDigits(ds[1..]);
      LeadingZero(ds);
    } else {
      forall k | 0 <= k <= |ds| && MAX_UINT < Value(0, ds[..k]) <= MAX_UINT + 4 ensures k == 20 {
        HasTwentyDigits(ds[..k]);
      }
    }
  }

  lemma LeadingZero(ds: Bytes)
    requires Digits(ds) && ds != [] && ds[0] == 48
    ensures StartsDoubled(ds) <==> StartsDoubled(ds[1..])
  {
    forall k | 0 < k <= |ds| ensures Value(0, ds[..k]) == Value(0, ds[1..][..k - 1]) {
      assert ds[..k][1..] == ds[1..][..k - 1];
    }
    assert Value(0, ds[..0]) == 0;
    if StartsDoubled(ds[1..]) {
      var k :| 0 <= k <= |ds[1..]| && MAX_UINT < Value(0, ds[1..][..k]) <= MAX_UINT + 4;
      assert Value(0, ds[..k + 1]) == Value(0, ds[1..][..k + 1 - 1]);
    }
  }

  lemma HasTwentyDigits(ds: Bytes)
    requires Digits(ds) && (ds != [] ==> ds[0] != 48) && MAX_UINT < Value(0, ds) <= MAX_UINT + 4
    ensures |ds| == 20
  {
    hide Pow10;
    if ds == [] {
      NoDigits();
    } else {
      DigitsBound(ds[0] - 48, ds[1..]);
      var d, p := ds[0] - 48, Pow10(|ds| - 1);
      AtMostTen(d, p);
      Pow10Of20();
      Pow10Of19();
      if |ds| > 20 {
        Pow10Grows(20, |ds| - 1);
      } else if |ds| < 20 {
        Pow10Grows(|ds|, 19);
        assert Pow10(|ds|) == 10 * p by { Pow10Step(|ds|); }
      }
    }
  }

  lemma AtMostTen(d: nat, p: nat)
    requires 1 <= d <= 9
    ensures p <= d * p && (d + 1) * p <= 10 * p
  {
  }

  lemma Pow10Of19()
    ensures Pow10(19) == 10000000000000000000
  {
    Pow10Of20();
    Pow10Step(20);
  }

  lemma Pow10Step(k: nat)
    requires k > 0
    ensures Pow10(k) == 10 * Pow10(k - 1)
  {
  }

  lemma {:induction false} Pow10Grows(i: nat, j: nat)
    requires i <= j
    ensures Pow10(i) <= Pow10(j)
  {
    if i < j {
      Pow10Grows(i, j - 1);
    }
  }

  lemma {:induction false} DigitsBound(m: nat, ds: Bytes)
    requires Digits(ds)
    ensures m * Pow10(|ds|) <= Value(m, ds) < (m + 1) * Pow10(|ds|)
    decreases |ds|
  {
    if ds != [] {
      hide Pow10;
      var d, p := ds[0] - 48, Pow10(|ds| - 1);
      DigitsBound(m * 10 + d, ds[1..]);
      Pow10Step(|ds|);
      DigitShift(m, d, p);
    } else {
      assert Pow10(0) == 1;
    }
  }

  lemma DigitShift(m: nat, d: nat, p: nat)
    requires d <= 9
    ensures m * (10 * p) <= (m * 10 + d) * p && (m * 10 + d + 1) * p <= (m + 1) * (10 * p)
  {
    Distributed(m * 10, d, p);
    Distributed(m * 10, d + 1, p);
    Distributed(m * 10, 10, p);
    Regroup(m, p);
    Regroup(m + 1, p);
    Product(p, d + 1, 10);
  }

  lemma Distributed(a: nat, b: nat, p: nat)
    ensures (a + b) * p == a * p + b * p
  {
  }

  lemma Regroup(m: nat, p: nat)
    ensures m * 10 * p == m * (10 * p)
  {
  }

  /** A number without its last `k` digits. */
  function WithoutLast(n: nat, k: nat): nat { if k == 0 then n else WithoutLast(n / 10, k - 1) }

  /** The leading digits that fit the mantissa. */
  ghost function WholeMantissa(ds: Bytes): nat
    requires Digits(ds)
  {
    var n := Value(0, ds);
    WithoutLast(n, Dropped(n))
  }


  /** The exponent that the digits before the point leave, in an int16_t. */
  ghost function WholeExponent(ds: Bytes): int
    requires Digits(ds)
  {
    Wrap16(Dropped(Value(0, ds)) + if StartsDoubled(ds) then 1 else 0)
  }

  lemma {:induction false} WithoutLastDivides(n: nat, k: nat)
    ensures WithoutLast(n, k) == n / Pow10(k)
  {
    hide Pow10;
    if k == 0 {
      assert Pow10(0) == 1 by { OnePow10(); }
    } else {
      WithoutLastDivides(n / 10, k - 1);
      Pow10Step(k);
      DivideTwice(n, Pow10(k - 1));
    }
  }

  lemma OnePow10()
    ensures Pow10(0) == 1
  {
  }

  lemma DivideTwice(n: nat, p: nat)
    requires p > 0
    ensures n / 10 / p == n / (10 * p)
  {
    var m := n / 10;
    var q, r := m / p, m % p;
    Parts(m, p);
    Regrouped(n, m, p, q, r);
    Whole(10 * p, q, 10 * r + n % 10);
  }

  lemma Parts(m: nat, p: nat)
    requires p > 0
    ensures m == p * (m / p) + m % p && m % p < p
  {
  }

  lemma Regrouped(n: nat, m: nat, p: nat, q: nat, r: nat)
    requires m == n / 10 && m == p * q + r
    ensures n == 10 * p * q + (10 * r + n % 10)
  {
    assert n == 10 * m + n % 10;
  }

  lemma Whole(p: nat, q: nat, r: nat)
    requires p > 0 && r < p
    ensures (p * q + r) / p == q
  {
    var x := (p * q + r) / p;
    if x < q {
      Product(p, x + 1, q);
    } else if x > q {
      Product(p, q + 1, x);
    }
  }

  lemma Product(p: nat, x: nat, y: nat)
    requires x <= y
    ensures p * x <= p * y
  {
  }

  /** Shrinking drops that many digits. */
  lemma {:induction false} ShrinkDrops(m: nat, offset: nat)
    requires offset + Dropped(m) < 0x8000
    ensures Shrink(m, offset) == (WithoutLast(m, Dropped(m)), offset + Dropped(m))
    decreases m
  {
    if m > MANTISSA_MAX {
      ShrinkDrops(m / 10, offset + 1);
    }
  }

  /** What is left when a number too large for the mantissa is shrunk has no room for a digit. */
  lemma {:induction false} ShrunkIsFull(n: nat)
    requires n > MANTISSA_MAX
    ensures MANTISSA_MAX / 10 <= WithoutLast(n, Dropped(n)) <= MANTISSA_MAX
    decreases n
  {
    if n / 10 > MANTISSA_MAX {
      ShrunkIsFull(n / 10);
    }
  }

  lemma DroppedOf64(n: nat)
    requires n <= MAX_UINT
    ensures Dropped(n) <= 4
  {
    var a := n / 10;
    var b := a / 10;
    var c := b / 10;
    assert c / 10 <= MANTISSA_MAX && Dropped(c / 10) == 0;
    assert Dropped(c) <= 1 && Dropped(b) <= 2 && Dropped(a) <= 3;
  }

  lemma {:induction false} WrapAdds(x: int, k: nat)
    ensures Wrap16(Wrap16(x) + k) == Wrap16(x + k)
  {
  }

  /** Digits after those that fit raise the exponent by one each. */
  lemma {:induction false} ExtraDigitsOf(t: Bytes, p: nat, ds: Bytes, offset: int)
    requires OccursAt(t, p, ds) && Digits(ds) && !IsDigit(Peek(t, p + |ds|)) && offset == Wrap16(offset)
    ensures p <= |t| && ExtraDigits(t, p, offset) == (Wrap16(offset + |ds|), p + |ds|)
    decreases |ds|
  {
    hide Wrap16;
    if ds != [] {
      FirstDigit(t, p, ds);
      WrapAdds(offset + 1, |ds| - 1);
      WrapAdds(offset + 1, 0);
      ExtraDigitsOf(t, p + 1, ds[1..], Wrap16(offset + 1));
    }
  }

  /** Digits after `m`: dividing them away gives `m` back, and drops one of them each time. */
  lemma {:induction false} TailDropped(m: nat, ds: Bytes)
    requires Digits(ds) && m > MANTISSA_MAX
    ensures Dropped(Value(m, ds)) == |ds| + Dropped(m)
    ensures WithoutLast(Value(m, ds), |ds| + Dropped(m)) == WithoutLast(m, Dropped(m))
    decreases |ds|
  {
    hide Value, Pow10, Dropped;
    if ds == [] {
      assert Value(m, ds) == m by { ValueOfNone(m); }
    } else {
      var n := |ds| - 1;
      var head := ds[..n];
      LastValue(m, ds);
      TailDropped(m, head);
      ValueGrows(m, head);
      DroppedStep(Value(m, ds));
      assert Value(m, ds) / 10 == Value(m, head);
      assert WithoutLast(Value(m, ds), |ds| + Dropped(m)) == WithoutLast(Value(m, head), |head| + Dropped(m));
    }
  }

  lemma ValueOfNone(m: nat)
    ensures Value(m, []) == m
  {
  }

  lemma DroppedStep(n: nat)
    requires n > MANTISSA_MAX
    ensures Dropped(n) == 1 + Dropped(n / 10)
  {
  }

  lemma LastValue(m: nat, ds: Bytes)
    requires Digits(ds) && ds != []
    ensures Value(m, ds) == Value(m, ds[..|ds| - 1]) * 10 + (ds[|ds| - 1] - 48)
  {
    var n := |ds| - 1;
    assert ds == ds[..n] + [ds[n]];
    ValueOfBoth(m, ds[..n], [ds[n]]);
    LastDigit(Value(m, ds[..n]), ds[n] - 48);
    assert [48 + (ds[n] - 48)] == [ds[n]];
  }

  lemma LastDigit(m: nat, d: nat)
    requires d < 10
    ensures Digits([48 + d]) && Value(m, [48 + d]) == m * 10 + d
  {
    assert [48 + d][1..] == [];
    assert Value(m * 10 + d, []) == m * 10 + d;
  }

  /** Where the accumulation stops: before the digit that does not fit, but, when it would fit
      without its own value, after the place for it was made. */
  lemma {:induction false} MantissaStops(t: Bytes, p: nat, m: nat, ds: Bytes) returns (i: nat)
    requires OccursAt(t, p, ds) && Digits(ds) && m <= MAX_UINT && Value(m, ds) > MAX_UINT
    ensures i < |ds| && p + i < |t| && Digits(ds[..i])
    ensures var h := Value(m, ds[..i]);
      && h <= MAX_UINT && h * 10 + (ds[i] - 48) > MAX_UINT
      && Mantissa(t, p, m) == (if h > MAX_UINT / 10 then h else h * 10, p + i)
    decreases |ds|
  {
    FirstDigit(t, p, ds);
    var next := m * 10 + (ds[0] - 48);
    if next > MAX_UINT {
      i := 0;
      assert Value(m, ds[..0]) == m;
    } else {
      i := MantissaStops(t, p + 1, next, ds[1..]);
      i := i + 1;
      assert ds[..i][1..] == ds[1..][..i - 1];
    }
  }

  /** The doubled beginnings are those on which the accumulation stops half way. */
  lemma DoubledStops(ds: Bytes, i: nat)
    requires Digits(ds) && i < |ds|
    requires Value(0, ds[..i]) <= MAX_UINT < Value(0, ds[..i]) * 10 + (ds[i] - 48)
    ensures StartsDoubled(ds) <==> Value(0, ds[..i]) <= MAX_UINT / 10
  {
    var h := Value(0, ds[..i]);
    PrefixStep(ds, i);
    if StartsDoubled(ds) {
      var k :| 0 <= k <= |ds| && MAX_UINT < Value(0, ds[..k]) <= MAX_UINT + 4;
      if k <= i {
        PrefixGrows(ds, k, i);
      } else if k > i + 1 {
        PrefixGrows(ds, i + 1, k - 1);
        PrefixStep(ds, k - 1);
      }
    }
  }

  lemma PrefixStep(ds: Bytes, i: nat)
    requires Digits(ds) && i < |ds|
    ensures Value(0, ds[..i + 1]) == Value(0, ds[..i]) * 10 + (ds[i] - 48)
  {
    assert ds[..i + 1] == ds[..i] + [ds[i]];
    ValueOfBoth(0, ds[..i], [ds[i]]);
    LastDigit(Value(0, ds[..i]), ds[i] - 48);
    assert [48 + (ds[i] - 48)] == [ds[i]];
  }

  lemma PrefixGrows(ds: Bytes, i: nat, j: nat)
    requires Digits(ds) && i <= j <= |ds|
    ensures Value(0, ds[..i]) <= Value(0, ds[..j])
  {
    assert ds[..j] == ds[..i] + ds[i..j];
    ValueOfBoth(0, ds[..i], ds[i..j]);
    ValueGrows(Value(0, ds[..i]), ds[i..j]);
  }

  /** The digits before the point, when they exceed 64 bits: as many low digits are dropped as
      do not fit the mantissa, and the exponent counts them, and once more after a doubled
      beginning. */
  lemma LargeWhole(t: Bytes, p: nat, ds: Bytes)
    requires OccursAt(t, p, ds) && Digits(ds) && !IsDigit(Peek(t, p + |ds|)) && Value(0, ds) > MAX_UINT
    ensures p <= |t|
    ensures var (mantissa, q) := Mantissa(t, p, 0);
      var (m, shift) := Shrink(mantissa, 0);
      && p <= q < p + |ds| <= |t| && IsDigit(t[q])
      && m == WholeMantissa(ds)
      && ExtraDigits(t, q, shift) == (WholeExponent(ds), p + |ds|)
  {
    hide Mantissa, Shrink, ExtraDigits, Pow10, WithoutLast, Wrap16, Dropped, StartsDoubled, OccursAt, Digits, Value;
    var i := MantissaStops(t, p, 0, ds);
    var h := Value(0, ds[..i]);
    DoubledStops(ds, i);
    var m := if h > MAX_UINT / 10 then h else h * 10;
    DroppedOf64(m);
    ShrinkDrops(m, 0);
    RestOf(t, p, ds, i);
    SmallWraps(Dropped(m));
    ExtraDigitsOf(t, p + i, ds[i..], Dropped(m));
    StoppedMantissa(ds, i);
  }

  lemma RestOf(t: Bytes, p: nat, ds: Bytes, i: nat)
    requires OccursAt(t, p, ds) && Digits(ds) && i < |ds|
    ensures p + |ds| <= |t| && OccursAt(t, p + i, ds[i..]) && Digits(ds[i..]) && t[p + i] == ds[i] && IsDigit(ds[i])
  {
    assert ds == ds[..i] + ds[i..];
    OccursSplit(t, p, ds[..i], ds[i..]);
    OccursFirst(t, p + i, ds[i..]);
  }

  lemma SmallWraps(n: nat)
    requires n < 0x8000
    ensures Wrap16(n) == n
  {
  }

  /** Where the accumulation stopped, against the whole number. */
  lemma StoppedMantissa(ds: Bytes, i: nat)
    requires Digits(ds) && i < |ds|
    requires Value(0, ds[..i]) <= MAX_UINT < Value(0, ds[..i]) * 10 + (ds[i] - 48)
    ensures var h := Value(0, ds[..i]);
      if h > MAX_UINT / 10 then
        Dropped(Value(0, ds)) == Dropped(h) + |ds| - i
        && WithoutLast(Value(0, ds), Dropped(Value(0, ds))) == WithoutLast(h, Dropped(h))
      else
        Dropped(Value(0, ds)) + 1 == Dropped(h * 10) + |ds| - i
        && WithoutLast(Value(0, ds), Dropped(Value(0, ds))) == WithoutLast(h * 10, Dropped(h * 10))
  {
    hide Pow10, Value, Dropped;
    var h := Value(0, ds[..i]);
    assert ds == ds[..i] + ds[i..];
    ValueOfBoth(0, ds[..i], ds[i..]);
    if h > MAX_UINT / 10 {
      TailDropped(h, ds[i..]);
    } else {
      var n := h * 10 + (ds[i] - 48);
      assert ds == ds[..i + 1] + ds[i + 1..];
      PrefixStep(ds, i);
      ValueOfBoth(0, ds[..i + 1], ds[i + 1..]);
      TailDropped(n, ds[i + 1..]);
      assert n / 10 == h && h * 10 / 10 == h;
      DroppedStep(n);
      DroppedStep(h * 10);
      assert WithoutLast(n, 1 + Dropped(h)) == WithoutLast(h, Dropped(h)) == WithoutLast(h * 10, 1 + Dropped(h));
    }
  }

  /** An integer text of any length that 64 bits cannot hold: its digits are truncated to the
      float's mantissa, and the exponent counts the dropped ones. */
  lemma LargeIntegers(negative: bool, ds: Bytes)
    requires Digits(ds) && Value(0, ds) > (if negative then MAX_NEGATIVE else MAX_UINT)
    ensures ParseNumber(Sign(negative) + ds) == Some(Float(Decimal(negative, WholeMantissa(ds), WholeExponent(ds))))
  {
    hide Floating, Value, Mantissa, Pow10, WithoutLast, WholeExponent, OccursAt, ParseNumber;
    var t, p := Sign(negative) + ds, |Sign(negative)|;
    WholeText(t);
    OccursSplit(t, 0, Sign(negative), ds);
    assert ds != [] by { NoDigits(); }
    OccursFirst(t, p, ds);
    SignedStart(t, negative, ds);
    if Value(0, ds) > MAX_UINT {
      LargeWhole(t, p, ds);
      FloatingWhole(t, p, negative, ds);
    } else {
      MantissaAdvances(t, p, 0, ds);
      MantissaAtEnd(t, Value(0, ds));
      FittingWhole(t, negative, ds);
    }
  }

  lemma NumberConstants()
    ensures MAX_NEGATIVE == 9223372036854775808 && MAX_UINT == 18446744073709551615
  {
  }

  /** An integer text that 64 bits can hold. */
  lemma SmallIntegers(negative: bool, ds: Bytes)
    requires Digits(ds) && ds != [] && Value(0, ds) <= (if negative then MAX_NEGATIVE else MAX_UINT)
    ensures ParseNumber(Sign(negative) + ds) == Some(Int(if negative then 0 - Value(0, ds) else Value(0, ds)))
  {
    hide Floating, Mantissa, OccursAt, Value;
    var t, p := Sign(negative) + ds, |Sign(negative)|;
    WholeText(t);
    OccursSplit(t, 0, Sign(negative), ds);
    MantissaAdvances(t, p, 0, ds);
    MantissaAtEnd(t, Value(0, ds));
    assert IsDigit(ds[0]);
    assert t[p] == ds[0] && (negative ==> t[0] == 45);
    if negative {
      NegatedIsMinus(Value(0, ds));
    }
  }

  lemma NegatedIsMinus(m: nat)
    requires m <= MAX_NEGATIVE
    ensures Negated(m) == 0 - m
  {
  }

  lemma MantissaAtEnd(t: Bytes, m: nat)
    requires m <= MAX_UINT
    ensures Mantissa(t, |t|, m) == (m, |t|)
  {
  }

  /** A number that is not an integer continues where its integer digits stopped. */
  lemma SignedStart(t: Bytes, negative: bool, ds: Bytes)
    requires t == Sign(negative) + ds && Digits(ds) && ds != []
    ensures var p := |Sign(negative)|; var (mantissa, q) := Mantissa(t, p, 0);
      Peek(t, q) != 0 || (negative && mantissa > MAX_NEGATIVE) ==> ParseNumber(t) == Floating(t, q, negative, mantissa)
  {
    hide Floating, Mantissa;
    assert IsDigit(ds[0]);
    assert t[|Sign(negative)|] == ds[0] && (negative ==> t[0] == 45);
  }

  lemma FloatingWhole(t: Bytes, p: nat, negative: bool, ds: Bytes)
    requires OccursAt(t, p, ds) && Digits(ds) && |t| == p + |ds| && Value(0, ds) > MAX_UINT
    ensures p <= |t| && Peek(t, Mantissa(t, p, 0).1) != 0
    ensures Floating(t, Mantissa(t, p, 0).1, negative, Mantissa(t, p, 0).0)
         == Some(Float(Decimal(negative, WholeMantissa(ds), WholeExponent(ds))))
  {
    hide Mantissa, Shrink, ExtraDigits, Pow10, WithoutLast, WholeExponent, OccursAt, Value;
    LargeWhole(t, p, ds);
  }

  /** A magnitude between 2^63 and 2^64: every digit was taken. */
  lemma FittingWhole(t: Bytes, negative: bool, ds: Bytes)
    requires Digits(ds) && MAX_NEGATIVE < Value(0, ds) <= MAX_UINT
    ensures Floating(t, |t|, negative, Value(0, ds))
      == Some(Float(Decimal(negative, WholeMantissa(ds), WholeExponent(ds))))
  {
    hide Shrink, Pow10, WithoutLast, Value, Dropped, StartsDoubled;
    var n := Value(0, ds);
    DroppedOf64(n);
    ShrinkDrops(n, 0);
    NotDoubled(ds);
  }

  lemma NotDoubled(ds: Bytes)
    requires Digits(ds) && Value(0, ds) <= MAX_UINT
    ensures !StartsDoubled(ds)
  {
    forall k | 0 <= k <= |ds| ensures Value(0, ds[..k]) <= MAX_UINT {
      PrefixGrows(ds, k, |ds|);
      assert ds[..|ds|] == ds;
    }
  }

  /** So, as long as an int16_t can count the digits, the exponent is the right one exactly
      when the first 20 significant digits are not from 2^64 to 2^64 + 3; there the number
      read is ten times too large. */
  lemma LargeIntegersAreExact(negative: bool, ds: Bytes)
    requires Digits(ds) && |ds| < 0x8000 && Value(0, ds) > (if negative then MAX_NEGATIVE else MAX_UINT)
    ensures var n, r := Value(0, ds), ParseNumber(Sign(negative) + ds);
      && r.Some? && r.value.Float? && r.value.lit.Decimal?
      && r.value.lit.mantissa == n / Pow10(Dropped(n))
      && (r.value.lit.exponent == Dropped(n) <==> !StartsDoubled(ds))
      && (StartsDoubled(ds) && |ds| < 0x7FFF ==> r.value.lit.exponent == Dropped(n) + 1)
  {
    hide ParseNumber, Value, Pow10, WithoutLast;
    LargeIntegers(negative, ds);
    DroppedAtMost(ds);
    WithoutLastDivides(Value(0, ds), Dropped(Value(0, ds)));
  }

  lemma {:induction false} DroppedAtMost(ds: Bytes)
    requires Digits(ds)
    ensures Dropped(Value(0, ds)) <= |ds|
    decreases |ds|
  {
    if ds != [] {
      var n := |ds| - 1;
      DroppedAtMost(ds[..n]);
      PrefixStep(ds, n);
      assert ds[..n + 1] == ds;
    }
  }

  // ---- Decimal texts ----

  /** The digits before the point, however many. */
  lemma WholeRead(t: Bytes, p: nat, ds: Bytes)
    requires OccursAt(t, p, ds) && Digits(ds) && !IsDigit(Peek(t, p + |ds|))
    ensures p <= |t|
    ensures var (mantissa, q) := Mantissa(t, p, 0);
      var (m, shift) := Shrink(mantissa, 0);
      && p <= q <= p + |ds| <= |t| && (q < p + |ds| ==> IsDigit(t[q]))
      && m == WholeMantissa(ds)
      && ExtraDigits(t, q, shift) == (WholeExponent(ds), p + |ds|)
  {
    hide Shrink, ExtraDigits, Pow10, WithoutLast, WholeExponent, OccursAt, Value, Dropped;
    if Value(0, ds) > MAX_UINT {
      hide Mantissa;
      LargeWhole(t, p, ds);
    } else {
      MantissaAdvances(t, p, 0, ds);
      FittingRead(t, p + |ds|, ds);
    }
  }

  lemma FittingRead(t: Bytes, q: nat, ds: Bytes)
    requires Digits(ds) && Value(0, ds) <= MAX_UINT && q <= |t| && !IsDigit(Peek(t, q))
    ensures var (m, shift) := Shrink(Value(0, ds), 0);
      m == WholeMantissa(ds) && ExtraDigits(t, q, shift) == (WholeExponent(ds), q)
  {
    hide Shrink, Pow10, WithoutLast, Value, Dropped, StartsDoubled;
    DroppedOf64(Value(0, ds));
    ShrinkDrops(Value(0, ds), 0);
    NotDoubled(ds);
  }

  /** How many digits of a fraction are taken after the mantissa `m`. */
  function Kept(m: nat, frac: Bytes): (k: nat)
    requires Digits(frac)
    ensures k <= |frac|
    decreases |frac|
  {
    if frac == [] || m >= MANTISSA_MAX / 10 then 0 else 1 + Kept(m * 10 + (frac[0] - 48), frac[1..])
  }

  /** All of them, exactly when there is room for the last. */
  lemma {:induction false} AllKept(m: nat, frac: Bytes)
    requires Digits(frac)
    ensures Kept(m, frac) == |frac| <==> frac == [] || Value(m, frac[..|frac| - 1]) < MANTISSA_MAX / 10
    decreases |frac|
  {
    if frac != [] {
      ValueGrows(m, frac[..|frac| - 1]);
      var rest := frac[1..];
      AllKept(m * 10 + (frac[0] - 48), rest);
      if rest != [] {
        assert frac[..|frac| - 1][1..] == rest[..|rest| - 1];
      }
    }
  }

  lemma {:induction false} FractionOfDigits(t: Bytes, p: nat, m: nat, ds: Bytes, offset: int)
    requires OccursAt(t, p, ds) && Digits(ds) && !IsDigit(Peek(t, p + |ds|)) && offset == Wrap16(offset)
    ensures p <= |t|
    ensures Fraction(t, p, m, offset) == (Value(m, ds[..Kept(m, ds)]), Wrap16(offset - Kept(m, ds)), p + |ds|)
    decreases |ds|
  {
    hide Wrap16;
    if ds == [] {
    } else {
      FirstDigit(t, p, ds);
      if m < MANTISSA_MAX / 10 {
        var k := Kept(m, ds);
        WrapSubtracts(offset - 1, k - 1);
        WrapSubtracts(offset - 1, 0);
        FractionOfDigits(t, p + 1, m * 10 + (ds[0] - 48), ds[1..], Wrap16(offset - 1));
        assert ds[..k][1..] == ds[1..][..k - 1];
      } else {
        FractionOfDigits(t, p + 1, m, ds[1..], offset);
        assert Kept(m, ds[1..]) == 0;
      }
    }
  }

  lemma WrapSubtracts(x: int, k: nat)
    ensures Wrap16(Wrap16(x) - k) == Wrap16(x - k)
  {
  }

  /** How many low digits of a decimal text do not fit the mantissa. */
  ghost function Lost(whole: Bytes, frac: Bytes): nat
    requires Digits(whole) && Digits(frac)
  {
    Dropped(Value(0, whole)) + |frac| - Kept(WholeMantissa(whole), frac)
  }

  /** The exponent that the digits leave: it counts the lost ones and those of the fraction,
      and one more after a doubled beginning. */
  ghost function DigitsExponent(whole: Bytes, frac: Bytes): int
    requires Digits(whole) && Digits(frac)
  {
    Wrap16(Lost(whole, frac) - |frac| + if StartsDoubled(whole) then 1 else 0)
  }

  /** The digits taken are those of the whole number but for the lost ones. */
  lemma KeptDigits(whole: Bytes, frac: Bytes)
    requires Digits(whole) && Digits(frac)
    ensures Digits(whole + frac) && Digits(frac[..Kept(WholeMantissa(whole), frac)])
    ensures var m := WholeMantissa(whole);
      Value(m, frac[..Kept(m, frac)]) == WithoutLast(Value(0, whole + frac), Lost(whole, frac))
  {
    hide Value, Pow10, WithoutLast, Dropped;
    var n := Value(0, whole);
    ValueOfBoth(0, whole, frac);
    if n > MANTISSA_MAX {
      ShrunkIsFull(n);
      assert Kept(WholeMantissa(whole), frac) == 0 && frac[..0] == [];
      ValueOfNone(WholeMantissa(whole));
      TailDropped(n, frac);
    } else {
      assert Dropped(n) == 0 by { NoneDropped(n); }
      NothingDropped(n);
      var k := Kept(n, frac);
      assert frac == frac[..k] + frac[k..];
      ValueOfBoth(n, frac[..k], frac[k..]);
      CutOff(Value(n, frac[..k]), frac[k..]);
    }
  }

  lemma NoneDropped(n: nat)
    requires n <= MANTISSA_MAX
    ensures Dropped(n) == 0
  {
  }

  lemma NothingDropped(n: nat)
    ensures WithoutLast(n, 0) == n
  {
  }

  /** Cutting the last digits off. */
  lemma {:induction false} CutOff(m: nat, ds: Bytes)
    requires Digits(ds)
    ensures WithoutLast(Value(m, ds), |ds|) == m
    decreases |ds|
  {
    if ds != [] {
      LastValue(m, ds);
      CutOff(m, ds[..|ds| - 1]);
    }
  }

  /** Any decimal text, with a whole part and a fraction of any length: the number read has all
      its digits but the lost ones, and the exponent that belongs to them, one more after a
      doubled beginning. */
  lemma DecimalTextIsTruncated(negative: bool, whole: Bytes, frac: Bytes, mark: Mark, negativeExp: bool, exp: Bytes)
    requires Digits(whole) && Digits(frac) && Digits(exp)
    ensures Digits(whole + frac)
    ensures ParseNumber(DecimalText(negative, whole, frac, mark, negativeExp, exp))
      == Some(Float(ScaledBy(negative, WithoutLast(Value(0, whole + frac), Lost(whole, frac)),
                             DigitsExponent(whole, frac), negativeExp, exp)))
  {
    hide OccursAt, Value, Fraction, Scaled, Digits, ExponentText, Floating, DecimalText, Mantissa, Shrink, ExtraDigits;
    hide WholeExponent, WholeMantissa, Pow10, WithoutLast, ParseNumber, Kept, Lost, DigitsExponent, ScaledBy;
    var t, p := DecimalText(negative, whole, frac, mark, negativeExp, exp), |Sign(negative)|;
    DecimalParts(negative, whole, frac, mark, negativeExp, exp);
    WholeRead(t, p, whole);
    DecimalStart(t, negative, whole);
    TailIsNoDigit(t, p + |whole| + 1 + |frac|, mark, negativeExp, exp);
    PointPart(t, p, negative, whole);
    var m := WholeMantissa(whole);
    OffsetsAdd(whole, frac);
    FractionOfDigits(t, p + |whole| + 1, m, frac, WholeExponent(whole));
    KeptDigits(whole, frac);
    ScaledText(t, p + |whole| + 1 + |frac|, negative, Value(m, frac[..Kept(m, frac)]), DigitsExponent(whole, frac),
               mark, negativeExp, exp);
  }

  lemma OffsetsAdd(whole: Bytes, frac: Bytes)
    requires Digits(whole) && Digits(frac)
    ensures WholeExponent(whole) == Wrap16(WholeExponent(whole))
    ensures Wrap16(WholeExponent(whole) - Kept(WholeMantissa(whole), frac)) == DigitsExponent(whole, frac)
  {
    hide Wrap16, Dropped, Kept, StartsDoubled, WholeMantissa;
    var x := Dropped(Value(0, whole)) + if StartsDoubled(whole) then 1 else 0;
    WrapSubtracts(x, Kept(WholeMantissa(whole), frac));
    WrapSubtracts(x, 0);
  }

  /** A text of digits and a point continues where its integer digits stopped. */
  lemma DecimalStart(t: Bytes, negative: bool, whole: Bytes)
    requires var p := |Sign(negative)|;
      && OccursAt(t, p, whole) && Digits(whole) && p + |whole| < |t| && Peek(t, p + |whole|) == 46
      && (negative ==> Peek(t, 0) == 45)
    requires var p := |Sign(negative)|; var q := Mantissa(t, p, 0).1;
      q <= p + |whole| && (q < p + |whole| ==> IsDigit(t[q]))
    ensures var p := |Sign(negative)|; var (mantissa, q) := Mantissa(t, p, 0);
      ParseNumber(t) == Floating(t, q, negative, mantissa)
  {
    hide Floating, Mantissa, OccursAt;
    StartsWithDigitOrPoint(t, |Sign(negative)|, whole);
  }

  lemma PointPart(t: Bytes, p: nat, negative: bool, whole: Bytes)
    requires OccursAt(t, p, whole) && Digits(whole) && p + |whole| < |t| && Peek(t, p + |whole|) == 46
    ensures p <= |t|
    ensures var (mantissa, q) := Mantissa(t, p, 0);
      var f := Fraction(t, p + |whole| + 1, WholeMantissa(whole), WholeExponent(whole));
      Floating(t, q, negative, mantissa) == Scaled(t, f.2, negative, f.0, f.1)
  {
    hide Mantissa, Shrink, ExtraDigits, WholeMantissa, WholeExponent, OccursAt, Fraction, Scaled;
    WholeRead(t, p, whole);
  }

  /** And without a point, when an exponent is there. */
  lemma ScaledTextIsTruncated(negative: bool, whole: Bytes, mark: Mark, negativeExp: bool, exp: Bytes)
    requires Digits(whole) && whole != [] && Digits(exp) && exp != []
    ensures ParseNumber(Sign(negative) + (whole + ExponentText(mark, negativeExp, exp)))
      == Some(Float(ScaledBy(negative, WholeMantissa(whole), WholeExponent(whole), negativeExp, exp)))
  {
    hide *;
    var tail, p := ExponentText(mark, negativeExp, exp), |Sign(negative)|;
    var t := Sign(negative) + (whole + tail);
    ScaledParts(t, negative, whole, mark, negativeExp, exp);
    StopsBeforeEnd(t, p, whole);
    SignedText(t, negative, whole, tail);
    EPart(t, p, negative, whole);
    ScaledText(t, p + |whole|, negative, WholeMantissa(whole), WholeExponent(whole), mark, negativeExp, exp);
  }

  /** Where its parts lie. */
  lemma ScaledParts(t: Bytes, negative: bool, whole: Bytes, mark: Mark, negativeExp: bool, exp: Bytes)
    requires exp != [] && t == Sign(negative) + (whole + ExponentText(mark, negativeExp, exp))
    ensures var p, tail := |Sign(negative)|, ExponentText(mark, negativeExp, exp);
      && OccursAt(t, p, whole) && OccursAt(t, p + |whole|, tail) && p + |whole| + |tail| == |t| && p + |whole| < |t|
      && (Peek(t, p + |whole|) == 101 || Peek(t, p + |whole|) == 69)
  {
    hide OccursAt, ExponentText;
    var p, tail := |Sign(negative)|, ExponentText(mark, negativeExp, exp);
    StartsWithE(mark, negativeExp, exp);
    WholeText(t);
    OccursSplit(t, 0, Sign(negative), whole + tail);
    OccursSplit(t, p, whole, tail);
    OccursFirst(t, p + |whole|, tail);
  }

  lemma StartsWithE(mark: Mark, negativeExp: bool, exp: Bytes)
    requires exp != []
    ensures var tail := ExponentText(mark, negativeExp, exp); tail != [] && (tail[0] == 101 || tail[0] == 69)
  {
  }

  /** The digits stop at a digit or at the exponent, and not at the end. */
  lemma StopsBeforeEnd(t: Bytes, p: nat, whole: Bytes)
    requires OccursAt(t, p, whole) && Digits(whole) && p + |whole| < |t|
    requires Peek(t, p + |whole|) == 101 || Peek(t, p + |whole|) == 69
    ensures p <= |t| && Peek(t, Mantissa(t, p, 0).1) != 0
  {
    hide Mantissa, Shrink, ExtraDigits, WholeMantissa, WholeExponent, OccursAt;
    WholeRead(t, p, whole);
  }

  lemma SignedText(t: Bytes, negative: bool, ds: Bytes, tail: Bytes)
    requires t == Sign(negative) + (ds + tail) && Digits(ds) && ds != []
    ensures var p := |Sign(negative)|; var (mantissa, q) := Mantissa(t, p, 0);
      Peek(t, q) != 0 ==> ParseNumber(t) == Floating(t, q, negative, mantissa)
  {
    hide Floating, Mantissa;
    assert IsDigit(ds[0]);
    assert t[|Sign(negative)|] == ds[0] && (negative ==> t[0] == 45);
  }

  lemma EPart(t: Bytes, p: nat, negative: bool, whole: Bytes)
    requires OccursAt(t, p, whole) && Digits(whole) && p + |whole| < |t|
    requires Peek(t, p + |whole|) == 101 || Peek(t, p + |whole|) == 69
    ensures p <= |t|
    ensures var (mantissa, q) := Mantissa(t, p, 0);
      Floating(t, q, negative, mantissa) == Scaled(t, p + |whole|, negative, WholeMantissa(whole), WholeExponent(whole))
  {
    hide Mantissa, Shrink, ExtraDigits, WholeMantissa, WholeExponent, OccursAt, Scaled;
    WholeRead(t, p, whole);
  }

  lemma {:induction false} TakenStaysFull(m: nat, frac: Bytes)
    requires Digits(frac) && m <= MANTISSA_MAX
    ensures var k := Kept(m, frac);
      && Digits(frac[..k]) && Value(m, frac[..k]) <= MANTISSA_MAX
      && (k < |frac| ==> Value(m, frac[..k]) >= MANTISSA_MAX / 10)
    decreases |frac|
  {
    var k := Kept(m, frac);
    if k > 0 {
      TakenStaysFull(m * 10 + (frac[0] - 48), frac[1..]);
      assert frac[..k][1..] == frac[1..][..k - 1];
    }
  }

  /** Digits are lost only when 15 are kept already. */
  lemma LostMeansFull(whole: Bytes, frac: Bytes)
    requires Digits(whole) && Digits(frac)
    ensures Digits(whole + frac)
    ensures var n := WithoutLast(Value(0, whole + frac), Lost(whole, frac));
      n <= 4503599627370495 && (Lost(whole, frac) > 0 ==> n >= 450359962737049)
  {
    hide Value, Kept, WithoutLast;
    KeptDigits(whole, frac);
    var n := Value(0, whole);
    if n > MANTISSA_MAX {
      ShrunkIsFull(n);
    } else {
      NoneDropped(n);
      NothingDropped(n);
    }
    TakenStaysFull(WholeMantissa(whole), frac);
    if n > MANTISSA_MAX {
      FullKeepsNone(WholeMantissa(whole), frac);
    }
  }

  lemma FullKeepsNone(m: nat, frac: Bytes)
    requires Digits(frac) && m >= MANTISSA_MAX / 10
    ensures Kept(m, frac) == 0 && Value(m, frac[..0]) == m
  {
  }

  /** So, as long as an int16_t can count the digits, a decimal text is read as its value, cut
      off after the digits that fit, exactly when it does not begin doubled; else as ten times
      that. Its own exponent must not exceed what a float can hold. */
  lemma DecimalsAreExact(negative: bool, whole: Bytes, frac: Bytes, mark: Mark, negativeExp: bool, exp: Bytes)
    requires Digits(whole) && Digits(frac) && Digits(exp) && |whole| + |frac| < 0x7FFF
    ensures Digits(whole + frac)
    ensures var e, lost, r := Value(0, exp), Lost(whole, frac),
        ParseNumber(DecimalText(negative, whole, frac, mark, negativeExp, exp));
      exp == [] || e + DigitsExponent(whole, frac) <= EXPONENT_MAX ==>
        && r.Some? && r.value.Float? && r.value.lit.Decimal?
        && r.value.lit.mantissa == Value(0, whole + frac) / Pow10(lost) <= 4503599627370495
        && (lost > 0 ==> r.value.lit.mantissa >= 450359962737049)
        && var exact := (if negativeExp then 0 - e else e) + lost - |frac|;
           r.value.lit.exponent == if StartsDoubled(whole) then exact + 1 else exact
  {
    hide ParseNumber, DecimalText, Value, Pow10, WithoutLast, Lost, DigitsExponent, StartsDoubled, Digits;
    DecimalTextIsTruncated(negative, whole, frac, mark, negativeExp, exp);
    WithoutLastDivides(Value(0, whole + frac), Lost(whole, frac));
    LostMeansFull(whole, frac);
    ExponentFits(whole, frac);
  }

  lemma ExponentFits(whole: Bytes, frac: Bytes)
    requires Digits(whole) && Digits(frac) && |whole| + |frac| < 0x7FFF
    ensures DigitsExponent(whole, frac) == Lost(whole, frac) - |frac| + if StartsDoubled(whole) then 1 else 0
  {
    hide Value, Kept, StartsDoubled, WholeMantissa;
    DroppedAtMost(whole);
  }

  /** An exponent part makes infinity, or zero when it is negative, exactly when its magnitude
      and the exponent of the digits add up to more than 308. */
  lemma ExponentTooLarge(negative: bool, whole: Bytes, frac: Bytes, mark: Mark, negativeExp: bool, exp: Bytes)
    requires Digits(whole) && Digits(frac) && Digits(exp) && exp != []
    ensures var r := ParseNumber(DecimalText(negative, whole, frac, mark, negativeExp, exp));
      && r.Some? && r.value.Float?
      && (r.value.lit.Decimal? <==> Value(0, exp) + DigitsExponent(whole, frac) <= 308)
      && (!r.value.lit.Decimal? ==> r.value.lit == if negativeExp then Zero(negative) else Infinite(negative))
  {
    hide ParseNumber, DecimalText, Value, Pow10, WithoutLast, Lost, DigitsExponent, Digits;
    DecimalTextIsTruncated(negative, whole, frac, mark, negativeExp, exp);
  }

  /** Two texts for which that is wrong: 0e309 is zero but read as infinity, for the mantissa is
      not looked at; 100e-309 is ten to the -307, a normal double, but read as zero, for the
      exponent is tested before it is negated. */
  lemma ExponentCases()
    ensures ParseNumber([48, 101, 51, 48, 57]) == Some(Float(Infinite(false)))
    ensures ParseNumber([49, 48, 48, 101, 45, 51, 48, 57]) == Some(Float(Zero(false)))
  {
    hide ParseNumber;
    var e: Bytes := [51, 48, 57];
    var mark := Mark(false, false);
    ThreeDigits(51, 48, 57);
    ThreeDigits(49, 48, 48);
    assert Value(0, [48]) == 0 by { LastDigit(0, 0); }
    SmallWhole([48]);
    SmallWhole([49, 48, 48]);
    ScaledTextIsTruncated(false, [48], mark, false, e);
    ScaledTextIsTruncated(false, [49, 48, 48], mark, true, e);
    assert Sign(false) + ([48] + ExponentText(mark, false, e)) == [48, 101, 51, 48, 57];
    assert Sign(false) + ([49, 48, 48] + ExponentText(mark, true, e)) == [49, 48, 48, 101, 45, 51, 48, 57];
  }

  lemma ThreeDigits(a: Byte, b: Byte, c: Byte)
    requires IsDigit(a) && IsDigit(b) && IsDigit(c)
    ensures Value(0, [a, b, c]) == ((a - 48) * 10 + (b - 48)) * 10 + (c - 48)
  {
    assert [a, b, c][1..] == [b, c] && [b, c][1..] == [c] && [c][1..] == [];
    var x, y := a - 48, (a - 48) * 10 + (b - 48);
    assert Value(0, [a, b, c]) == Value(x, [b, c]) == Value(y, [c]) == Value(y * 10 + (c - 48), []);
  }

  lemma SmallWhole(ds: Bytes)
    requires Digits(ds) && Value(0, ds) <= MANTISSA_MAX
    ensures WholeExponent(ds) == 0
  {
    hide StartsDoubled, Value;
    NotDoubled(ds);
  }

  /** In particular nothing is lost when there is room for the last digit. */
  lemma DecimalTextIsExact(negative: bool, whole: Bytes, frac: Bytes, mark: Mark, negativeExp: bool, exp: Bytes)
    requires Digits(whole) && Digits(frac) && Digits(exp)
    requires Value(0, whole) <= MANTISSA_MAX && |frac| < 0x8000
    requires frac != [] ==> Value(Value(0, whole), frac[..|frac| - 1]) < MANTISSA_MAX / 10
    requires Value(0, exp) - |frac| <= EXPONENT_MAX
    ensures Digits(whole + frac)
    ensures var e := Value(0, exp);
      ParseNumber(DecimalText(negative, whole, frac, mark, negativeExp, exp))
        == Some(Float(Decimal(negative, Value(0, whole + frac), (if negativeExp then 0 - e else e) - |frac|)))
  {
    hide ParseNumber, Value, Pow10, WithoutLast, Kept, StartsDoubled, Dropped;
    NoneDropped(Value(0, whole));
    NothingDropped(Value(0, whole));
    AllKept(Value(0, whole), frac);
    NotDoubled(whole);
    DecimalTextIsTruncated(negative, whole, frac, mark, negativeExp, exp);
    NothingDropped(Value(0, whole + frac));
  }

  /** Forty integers of 21 digits that are read ten times too large: 2^64, 2^64 + 1, 2^64 + 2
      and 2^64 + 3, each with one more digit. */
  lemma TwentyOneDigits(k: nat, d: nat)
    requires MAX_UINT < k <= MAX_UINT + 4 && d < 10
    ensures ParseNumber(PrintNat(10 * k + d)) == Some(Float(Decimal(false, (10 * k + d) / 100000, 6)))
  {
    var ds := PrintNat(10 * k + d);
    assert ds == PrintNat(k) + [48 + d];
    ValueOfPrinted(10 * k + d);
    ValueOfPrinted(k);
    assert ds[..|PrintNat(k)|] == PrintNat(k);
    assert [] + ds == ds;
    LargeIntegers(false, ds);
    var n := 10 * k + d;
    assert n / 10 == k;
    DroppedDoubled(k);
    WithoutLastDivides(n, 5);
    Pow10s();
  }

  lemma DroppedDoubled(k: nat)
    requires MAX_UINT < k <= MAX_UINT + 4
    ensures Dropped(k) == 4
  {
    var a := k / 10;
    var b := a / 10;
    var c := b / 10;
    assert c / 10 <= MANTISSA_MAX < c && Dropped(c / 10) == 0;
    assert Dropped(c) == 1 && Dropped(b) == 2 && Dropped(a) == 3;
  }

  lemma Pow10s()
    ensures Pow10(5) == 100000
  {
  }

  lemma {:induction false} ValueOfPrinted(n: nat)
    ensures Digits(PrintNat(n)) && Value(0, PrintNat(n)) == n
  {
    if n >= 10 {
      ValueOfPrinted(n / 10);
      ValueOfBoth(0, PrintNat(n / 10), [48 + n % 10]);
      LastDigit(n / 10, n % 10);
    } else {
      LastDigit(0, n);
    }
  }
}
