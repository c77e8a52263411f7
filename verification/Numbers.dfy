/** Numbers as text: parseNumber's loops, integer printing, and the decimal scaling of
    make_float over exact reals. */
module Numbers {
  import opened Values

  const MAX_UINT: nat := 0xFFFF_FFFF_FFFF_FFFF
  const MAX_NEGATIVE: nat := 0x8000_0000_0000_0000
  const MANTISSA_MAX: nat := 0xF_FFFF_FFFF_FFFF
  const EXPONENT_MAX := 308
  const TABLE_SIZE := 9

  /** The byte at `p`, or the terminator past the end of the text. */
  function Peek(t: Bytes, p: nat): Byte {
    if p < |t| then t[p] else 0
  }

  predicate IsDigit(c: Byte) { 48 <= c <= 57 }

  /** An int16_t keeps its value modulo 2^16. */
  function Wrap16(x: int): int { (x + 0x8000) % 0x1_0000 - 0x8000 }

  // ---- What parseNumber computes, one function per loop ----

  /** Accumulates digits while they fit in 64 bits: the mantissa and where it stopped. */
  function Mantissa(t: Bytes, p: nat, m: nat): (r: (nat, nat))
    requires p <= |t| && m <= MAX_UINT
    ensures p <= r.1 <= |t|
    ensures r.0 <= MAX_UINT
    decreases |t| - p
  {
    var c := Peek(t, p);
    if !IsDigit(c) || m > MAX_UINT / 10 then (m, p)
    else if m * 10 > MAX_UINT - (c - 48) then (m * 10, p)
    else Mantissa(t, p + 1, m * 10 + (c - 48))
  }

  /** Drops low digits until the mantissa fits in the float's. */
  function Shrink(m: nat, offset: int): (r: (nat, int))
    ensures r.0 <= MANTISSA_MAX
  {
    if m > MANTISSA_MAX then Shrink(m / 10, Wrap16(offset + 1)) else (m, offset)
  }

  /** Digits that no longer fit only raise the exponent. */
  function ExtraDigits(t: Bytes, p: nat, offset: int): (r: (int, nat))
    requires p <= |t|
    ensures p <= r.1 <= |t| && !IsDigit(Peek(t, r.1))
    decreases |t| - p
  {
    if IsDigit(Peek(t, p)) then ExtraDigits(t, p + 1, Wrap16(offset + 1)) else (offset, p)
  }

  function Fraction(t: Bytes, p: nat, m: nat, offset: int): (r: (nat, int, nat))
    requires p <= |t|
    ensures p <= r.2 <= |t| && !IsDigit(Peek(t, r.2))
    decreases |t| - p
  {
    var c := Peek(t, p);
    if !IsDigit(c) then (m, offset, p)
    else if m < MANTISSA_MAX / 10 then Fraction(t, p + 1, m * 10 + (c - 48), Wrap16(offset - 1))
    else Fraction(t, p + 1, m, offset)
  }

  /** Exponent digits; None when the exponent exceeds what a float can hold. */
  function Exponent(t: Bytes, p: nat, e: nat, offset: int): (r: Option<(nat, nat)>)
    requires p <= |t|
    ensures r.Some? ==> p <= r.value.1 <= |t|
    decreases |t| - p
  {
    var c := Peek(t, p);
    if !IsDigit(c) then Some((e, p))
    else if e * 10 + (c - 48) + offset > EXPONENT_MAX then None
    else Exponent(t, p + 1, e * 10 + (c - 48), offset)
  }

  /** The exponent part at `p`, when there is one, and the end-of-text test. */
  function Scaled(t: Bytes, p: nat, negative: bool, m: nat, offset: int): (r: Option<Value>)
    requires p <= |t|
    ensures r.Some? ==> r.value.Float?
  {
    if Peek(t, p) == 101 || Peek(t, p) == 69 then
      var negativeExponent := Peek(t, p + 1) == 45;
      var q := if negativeExponent || Peek(t, p + 1) == 43 then p + 2 else p + 1;
      match Exponent(t, q, 0, offset)
      case None => Some(Float(if negativeExponent then Zero(negative) else Infinite(negative)))
      case Some((e, r)) =>
        if Peek(t, r) != 0 then None
        else Some(Float(Decimal(negative, m, (if negativeExponent then 0 - e else e) + offset)))
    else if Peek(t, p) != 0 then None
    else Some(Float(Decimal(negative, m, offset)))
  }

  /** The float reading of a number whose integer digits stopped at `p`. */
  function Floating(t: Bytes, p: nat, negative: bool, mantissa: nat): (r: Option<Value>)
    requires p <= |t|
    ensures r.Some? ==> r.value.Float?
  {
    var (m, shift) := Shrink(mantissa, 0);
    var (offset, q) := ExtraDigits(t, p, shift);
    if Peek(t, q) == 46 then
      var (m', offset', r) := Fraction(t, q + 1, m, offset);
      Scaled(t, r, negative, m', offset')
    else
      Scaled(t, q, negative, m, offset)
  }

  /** The two's complement reading of ~mantissa + 1 in 64 bits. */
  function Negated(mantissa: nat): int
    requires mantissa <= MAX_UINT
  {
    var bits := (MAX_UINT - mantissa + 1) % (MAX_UINT + 1);
    if bits >= MAX_NEGATIVE then bits - (MAX_UINT + 1) else bits
  }

  /** parseNumber: None when the text is not a number. */
  function ParseNumber(t: Bytes): (r: Option<Value>)
    ensures r.Some? ==> r.value.Int? || r.value.Float?
  {
    var negative := Peek(t, 0) == 45;
    var p: nat := if negative || Peek(t, 0) == 43 then 1 else 0;
    if !IsDigit(Peek(t, p)) && Peek(t, p) != 46 then None
    else
      var (mantissa, q) := Mantissa(t, p, 0);
      if Peek(t, q) == 0 && !negative then Some(Int(mantissa))
      else if Peek(t, q) == 0 && mantissa <= MAX_NEGATIVE then Some(Int(Negated(mantissa)))
      else Floating(t, q, negative, mantissa)
  }

  /** An integer is stored as a signed one when it has a minus sign, else as an unsigned one. */
  lemma ParsedIntegerFits(t: Bytes)
    ensures var v := ParseNumber(t);
      v.Some? && v.value.Int? ==>
        if Peek(t, 0) == 45 then 0 - MAX_NEGATIVE <= v.value.n <= 0 else 0 <= v.value.n <= MAX_UINT
  {
    hide Floating, Mantissa;
  }

  /** The digit loops of parseNumber, run on the text's own cursor. */
  method ReadNumber(t: Bytes) returns (result: Option<Value>)
    ensures result == ParseNumber(t)
  {
    var s: nat := 0;
    var negative := false;
    if Peek(t, 0) == 45 {
      negative := true;
      s := 1;
    } else if Peek(t, 0) == 43 {
      s := 1;
    }
    if !IsDigit(Peek(t, s)) && Peek(t, s) != 46 {
      return None;
    }
    var mantissa: nat := 0;
    while IsDigit(Peek(t, s))
      invariant s <= |t| && mantissa <= MAX_UINT
      invariant Mantissa(t, s, mantissa) == Mantissa(t, if negative || Peek(t, 0) == 43 then 1 else 0, 0)
      decreases |t| - s
    {
      var digit := Peek(t, s) - 48;
      if mantissa > MAX_UINT / 10 { break; }
      if mantissa * 10 > MAX_UINT - digit {
        mantissa := mantissa * 10;
        break;
      }
      mantissa := mantissa * 10 + digit;
      s := s + 1;
    }
    assert Mantissa(t, if negative || Peek(t, 0) == 43 then 1 else 0, 0) == (mantissa, s);
    if Peek(t, s) == 0 {
      if negative {
        if mantissa <= MAX_NEGATIVE {
          return Some(Int(Negated(mantissa)));
        }
      } else {
        return Some(Int(mantissa));
      }
    }
    result := ReadFloat(t, s, negative, mantissa);
  }

  /** The rest of parseNumber, from the first character that is not part of an integer. */
  method ReadFloat(t: Bytes, start: nat, negative: bool, digits: nat) returns (result: Option<Value>)
    requires start <= |t|
    ensures result == Floating(t, start, negative, digits)
  {
    var s: nat, mantissa: nat, offset: int := start, digits, 0;
    while mantissa > MANTISSA_MAX
      invariant Shrink(mantissa, offset) == Shrink(digits, 0)
      decreases mantissa
    {
      mantissa, offset := mantissa / 10, Wrap16(offset + 1);
    }
    while IsDigit(Peek(t, s))
      invariant start <= s <= |t|
      invariant ExtraDigits(t, s, offset) == ExtraDigits(t, start, Shrink(digits, 0).1)
      decreases |t| - s
    {
      s, offset := s + 1, Wrap16(offset + 1);
    }
    if Peek(t, s) == 46 {
      s := s + 1;
      ghost var from, m0, o0 := s, mantissa, offset;
      while IsDigit(Peek(t, s))
        invariant from <= s <= |t|
        invariant Fraction(t, s, mantissa, offset) == Fraction(t, from, m0, o0)
        decreases |t| - s
      {
        if mantissa < MANTISSA_MAX / 10 {
          mantissa, offset := mantissa * 10 + (Peek(t, s) - 48), Wrap16(offset - 1);
        }
        s := s + 1;
      }
    }
    result := ReadExponent(t, s, negative, mantissa, offset);
  }

  /** The exponent part and the end-of-text test. */
  method ReadExponent(t: Bytes, start: nat, negative: bool, mantissa: nat, offset: int)
    returns (result: Option<Value>)
    requires start <= |t|
    ensures result == Scaled(t, start, negative, mantissa, offset)
  {
    var s := start;
    var exponent: nat, negativeExponent := 0, false;
    if Peek(t, s) == 101 || Peek(t, s) == 69 {
      s := s + 1;
      if Peek(t, s) == 45 {
        negativeExponent := true;
        s := s + 1;
      } else if Peek(t, s) == 43 {
        s := s + 1;
      }
      ghost var from := s;
      while IsDigit(Peek(t, s))
        invariant from <= s <= |t|
        invariant Exponent(t, s, exponent, offset) == Exponent(t, from, 0, offset)
        decreases |t| - s
      {
        exponent := exponent * 10 + (Peek(t, s) - 48);
        if exponent + offset > EXPONENT_MAX {
          return Some(Float(if negativeExponent then Zero(negative) else Infinite(negative)));
        }
        s := s + 1;
      }
    }
    if Peek(t, s) != 0 {
      return None;
    }
    var signed := if negativeExponent then 0 - exponent else exponent;
    return Some(Float(Decimal(negative, mantissa, signed + offset)));
  }

  // ---- Integers are exact ----

  /** The number that the digits at `p` continue `m` to, of any size. */
  function DigitsValue(t: Bytes, p: nat, m: nat): (v: nat)
    requires p <= |t|
    ensures v >= m
    decreases |t| - p
  {
    if IsDigit(Peek(t, p)) then DigitsValue(t, p + 1, m * 10 + (Peek(t, p) - 48)) else m
  }

  predicate AllDigits(t: Bytes, p: nat) {
    p < |t| && forall i :: p <= i < |t| ==> IsDigit(t[i])
  }

  /** The mantissa loop computes the exact value, or stops on a digit. */
  lemma {:induction false} MantissaIsExact(t: Bytes, p: nat, m: nat)
    requires p <= |t| && m <= MAX_UINT
    requires forall i :: p <= i < |t| ==> IsDigit(t[i])
    ensures DigitsValue(t, p, m) <= MAX_UINT ==> Mantissa(t, p, m) == (DigitsValue(t, p, m), |t|)
    ensures DigitsValue(t, p, m) > MAX_UINT ==> Mantissa(t, p, m).1 < |t|
    decreases |t| - p
  {
    if p < |t| {
      var d := t[p] - 48;
      assert DigitsValue(t, p, m) == DigitsValue(t, p + 1, m * 10 + d) >= m * 10 + d;
      if m * 10 + d <= MAX_UINT {
        MantissaIsExact(t, p + 1, m * 10 + d);
      }
    }
  }

  /** The magnitude a digit string denotes, after an optional sign. */
  function Magnitude(t: Bytes): nat
    requires |t| > 0
  {
    DigitsValue(t, if t[0] == 45 || t[0] == 43 then 1 else 0, 0)
  }

  /** Every signed digit string is accepted; it is stored as an integer, with exactly
      its value, if and only if that value fits in 64 bits. */
  lemma IntegerTextIsExact(t: Bytes)
    requires |t| > 0 && AllDigits(t, if t[0] == 45 || t[0] == 43 then 1 else 0)
    ensures ParseNumber(t).Some?
    ensures ParseNumber(t).value.Int? <==>
      Magnitude(t) <= if t[0] == 45 then 9223372036854775808 else 18446744073709551615
    ensures ParseNumber(t).value.Int? ==>
      ParseNumber(t).value.n == if t[0] == 45 then 0 - Magnitude(t) else Magnitude(t)
  {
    var p := if t[0] == 45 || t[0] == 43 then 1 else 0;
    MantissaIsExact(t, p, 0);
    var (mantissa, q) := Mantissa(t, p, 0);
    assert IsDigit(t[p]);
    if Peek(t, q) != 0 || (t[0] == 45 && mantissa > MAX_NEGATIVE) {
      var (m, shift) := Shrink(mantissa, 0);
      var (offset, r) := ExtraDigits(t, q, shift);
      assert r == |t|;
    }
  }

  // ---- Printing integers ----

  /** writeInteger's digits for an unsigned value. */
  function PrintNat(n: nat): (t: Bytes)
    ensures |t| > 0 && forall i :: 0 <= i < |t| ==> IsDigit(t[i])
  {
    if n < 10 then [48 + n] else PrintNat(n / 10) + [48 + n % 10]
  }

  function PrintInt(n: int): Bytes {
    if n < 0 then [45] + PrintNat(-n) else PrintNat(n)
  }

  function Pow10(k: nat): (r: nat)
    ensures r > 0
  {
    if k == 0 then 1 else 10 * Pow10(k - 1)
  }

  lemma {:induction false} PrintedLength(n: nat, k: nat)
    requires n < Pow10(k + 1)
    ensures |PrintNat(n)| <= k + 1
  {
    if n >= 10 {
      assert k > 0;
      PrintedLength(n / 10, k - 1);
    }
  }

  lemma {:induction false} DigitsOfPrinted(pre: Bytes, n: nat, m: nat, post: Bytes)
    requires post == [] || !IsDigit(post[0])
    ensures DigitsValue(pre + PrintNat(n) + post, |pre|, m) == m * Pow10(|PrintNat(n)|) + n
    decreases n
  {
    var t := pre + PrintNat(n) + post;
    DigitsSplit(t, |pre|, |PrintNat(n)|, m);
    DigitRunOfPrinted(t, |pre|, n, m);
    var end := |pre| + |PrintNat(n)|;
    assert Peek(t, end) == Peek(post, 0);
  }

  /** The value of exactly `k` digits after `m`. */
  function RunValue(t: Bytes, p: nat, k: nat, m: nat): nat
    requires p + k <= |t| && forall i :: p <= i < p + k ==> IsDigit(t[i])
  {
    if k == 0 then m
    else
      assert IsDigit(t[p + k - 1]);
      RunValue(t, p, k - 1, m) * 10 + (t[p + k - 1] as int - 48)
  }

  lemma {:induction false} RunStep(t: Bytes, p: nat, k: nat, m: nat)
    requires 0 < k && p + k <= |t| && forall i :: p <= i < p + k ==> IsDigit(t[i])
    ensures RunValue(t, p, k, m) == RunValue(t, p + 1, k - 1, m * 10 + (t[p] - 48))
  {
    if k > 1 {
      RunStep(t, p, k - 1, m);
    }
  }

  lemma {:induction false} DigitsSplit(t: Bytes, p: nat, k: nat, m: nat)
    requires p + k <= |t| && forall i :: p <= i < p + k ==> IsDigit(t[i])
    ensures DigitsValue(t, p, m) == DigitsValue(t, p + k, RunValue(t, p, k, m))
    decreases k
  {
    if k > 0 {
      RunStep(t, p, k, m);
      DigitsSplit(t, p + 1, k - 1, m * 10 + (t[p] - 48));
    }
  }

  lemma {:induction false} DigitRunOfPrinted(t: Bytes, p: nat, n: nat, m: nat)
    requires p + |PrintNat(n)| <= |t| && t[p..p + |PrintNat(n)|] == PrintNat(n)
    ensures forall i :: p <= i < p + |PrintNat(n)| ==> IsDigit(t[i])
    ensures RunValue(t, p, |PrintNat(n)|, m) == m * Pow10(|PrintNat(n)|) + n
    decreases n
  {
    var k := |PrintNat(n)|;
    forall i | p <= i < p + k ensures t[i] == PrintNat(n)[i - p] {
      assert t[p..p + k][i - p] == t[i];
    }
    if n < 10 {
      assert RunValue(t, p, 1, m) == RunValue(t, p, 0, m) * 10 + n;
      assert Pow10(1) == 10 * Pow10(0);
    } else {
      assert PrintNat(n)[..k - 1] == PrintNat(n / 10);
      assert t[p..p + k - 1] == PrintNat(n)[..k - 1];
      DigitRunOfPrinted(t, p, n / 10, m);
      PowStep(m, k);
    }
  }

  lemma PowStep(m: nat, k: nat)
    requires k > 0
    ensures m * Pow10(k) == m * Pow10(k - 1) * 10
  {
  }

  /** Printing a 64-bit integer and parsing the text gives the integer back, and the
      digits fit in the 22-byte buffer they are written to. */
  lemma PrintedIntegerParses(n: int)
    requires 0 - MAX_NEGATIVE <= n <= MAX_UINT
    ensures ParseNumber(PrintInt(n)) == Some(Int(n))
    ensures |PrintNat(if n < 0 then -n else n)| <= 20
  {
    hide ParseNumber, DigitsValue, Pow10;
    var t := PrintInt(n);
    var magnitude: nat := if n < 0 then -n else n;
    var pre: Bytes := if n < 0 then [45] else [];
    assert t == pre + PrintNat(magnitude) + [];
    DigitsOfPrinted(pre, magnitude, 0, []);
    IntegerTextIsExact(t);
    Pow10Of20();
    PrintedLength(magnitude, 19);
  }

  lemma Pow10Of20()
    ensures Pow10(20) == 100000000000000000000
  {
    assert Pow10(5) == 100000;
    assert Pow10(10) == 10000000000;
    assert Pow10(15) == 1000000000000000;
  }

  // ---- The exponent stays in the table ----

  lemma {:induction false} ShrinkBound(m: nat, offset: int, k: nat)
    requires m < Pow10(k) && 0 <= offset && offset + k < 1000
    ensures offset <= Shrink(m, offset).1 <= offset + k
    decreases m
  {
    if m > MANTISSA_MAX {
      assert k > 0;
      ShrinkBound(m / 10, offset + 1, k - 1);
    }
  }

  lemma {:induction false} ExtraDigitsBound(t: Bytes, p: nat, offset: int)
    requires p <= |t| && 0 <= offset && offset + |t| - p < 1000
    ensures offset <= ExtraDigits(t, p, offset).0 <= offset + ExtraDigits(t, p, offset).1 - p
    decreases |t| - p
  {
    if IsDigit(Peek(t, p)) {
      ExtraDigitsBound(t, p + 1, offset + 1);
    }
  }

  lemma {:induction false} FractionBound(t: Bytes, p: nat, m: nat, offset: int)
    requires p <= |t| && offset - |t| + p > -1000 && offset < 1000
    ensures var r := Fraction(t, p, m, offset); offset - (r.2 - p) <= r.1 <= offset
    decreases |t| - p
  {
    if IsDigit(Peek(t, p)) {
      if m < MANTISSA_MAX / 10 {
        FractionBound(t, p + 1, m * 10 + (Peek(t, p) - 48), offset - 1);
      } else {
        FractionBound(t, p + 1, m, offset);
      }
    }
  }

  lemma {:induction false} ExponentBound(t: Bytes, p: nat, e: nat, offset: int)
    requires p <= |t| && e <= Max(0, if EXPONENT_MAX < offset then 0 else EXPONENT_MAX - offset)
    ensures var r := Exponent(t, p, e, offset);
      r.Some? ==> r.value.0 <= Max(0, if EXPONENT_MAX < offset then 0 else EXPONENT_MAX - offset)
    decreases |t| - p
  {
    var c := Peek(t, p);
    if IsDigit(c) && e * 10 + (c - 48) + offset <= EXPONENT_MAX {
      ExponentBound(t, p + 1, e * 10 + (c - 48), offset);
    }
  }

  /** No token that fits in the 64-byte buffer makes make_float look past its table. */
  lemma ExponentStaysInTable(t: Bytes)
    requires |t| <= 63
    requires ParseNumber(t).Some? && ParseNumber(t).value.Float? && ParseNumber(t).value.lit.Decimal?
    ensures -512 < ParseNumber(t).value.lit.exponent < 512
    ensures ParseNumber(t).value.lit.mantissa <= MANTISSA_MAX
  {
    hide Shrink, ExtraDigits, Fraction, Scaled, Pow10;
    var negative := Peek(t, 0) == 45;
    var p: nat := if negative || Peek(t, 0) == 43 then 1 else 0;
    var (mantissa, q) := Mantissa(t, p, 0);
    var (m, shift) := Shrink(mantissa, 0);
    Pow10Of20();
    ShrinkBound(mantissa, 0, 20);
    var (offset, r) := ExtraDigits(t, q, shift);
    ExtraDigitsBound(t, q, shift);
    if Peek(t, r) == 46 {
      var (m', offset', u) := Fraction(t, r + 1, m, offset);
      FractionBound(t, r + 1, m, offset);
      FractionMantissa(t, r + 1, m, offset);
      ScaledBound(t, u, negative, m', offset');
    } else {
      ScaledBound(t, r, negative, m, offset);
    }
  }

  lemma {:induction false} FractionMantissa(t: Bytes, p: nat, m: nat, offset: int)
    requires p <= |t| && m <= MANTISSA_MAX
    ensures Fraction(t, p, m, offset).0 <= MANTISSA_MAX
    decreases |t| - p
  {
    var c := Peek(t, p);
    if IsDigit(c) {
      if m < MANTISSA_MAX / 10 {
        FractionMantissa(t, p + 1, m * 10 + (c - 48), Wrap16(offset - 1));
      } else {
        FractionMantissa(t, p + 1, m, offset);
      }
    }
  }

  lemma ScaledBound(t: Bytes, p: nat, negative: bool, m: nat, offset: int)
    requires p <= |t| && -63 <= offset <= 83
    requires m <= MANTISSA_MAX
    ensures var v := Scaled(t, p, negative, m, offset);
      v.Some? && v.value.Float? && v.value.lit.Decimal? ==>
        -512 < v.value.lit.exponent < 512 && v.value.lit.mantissa <= MANTISSA_MAX
  {
    if Peek(t, p) == 101 || Peek(t, p) == 69 {
      var negativeExponent := Peek(t, p + 1) == 45;
      var q := if negativeExponent || Peek(t, p + 1) == 43 then p + 2 else p + 1;
      ExponentBound(t, q, 0, offset);
    }
  }

  // ---- make_float over exact reals ----

  /** 10^e for any integer e. */
  function Power(e: int): real
    decreases if e < 0 then -e else e
  {
    if e == 0 then 1.0 else if e > 0 then 10.0 * Power(e - 1) else Power(e + 1) / 10.0
  }

  /** The two tables of binary powers of ten. */
  const POSITIVE_POWERS: seq<real> := [1e1, 1e2, 1e4, 1e8, 1e16, 1e32, 1e64, 1e128, 1e256]
  const NEGATIVE_POWERS: seq<real> := [1e-1, 1e-2, 1e-4, 1e-8, 1e-16, 1e-32, 1e-64, 1e-128, 1e-256]

  function TableEntry(positive: bool, index: nat): real
    requires index < TABLE_SIZE
  {
    if positive then POSITIVE_POWERS[index] else NEGATIVE_POWERS[index]
  }

  function Times(a: real, b: real): real { a * b }

  lemma NextPow2(index: nat)
    requires index > 0
    ensures Pow2(index) == Pow2(index - 1) + Pow2(index - 1)
  {
  }

  lemma EntryIsSquare(positive: bool, index: nat)
    requires 0 < index < TABLE_SIZE
    ensures TableEntry(positive, index) == Times(TableEntry(positive, index - 1), TableEntry(positive, index - 1))
  {
  }

  function Pow2(k: nat): nat { if k == 0 then 1 else 2 * Pow2(k - 1) }

  function Signed(positive: bool, k: nat): int { if positive then k else 0 - k }

  lemma PowerStep(a: nat, positive: bool)
    requires a > 0
    ensures Power(Signed(positive, a)) == Times(if positive then 10.0 else 0.1, Power(Signed(positive, a - 1)))
  {
  }

  lemma Regroup(m: real, entry: real, rest: real)
    ensures Times(Times(m, entry), rest) == Times(m, Times(entry, rest))
  {
  }

  lemma TimesOne(x: real)
    ensures Times(1.0, x) == x
  {
  }

  lemma {:induction false} PowerAdds(a: nat, b: nat, positive: bool)
    ensures Power(Signed(positive, a + b)) == Times(Power(Signed(positive, a)), Power(Signed(positive, b)))
  {
    if a == 0 {
      hide Times;
      assert Power(Signed(positive, 0)) == 1.0;
      TimesOne(Power(Signed(positive, b)));
    } else {
      hide Power, Signed, Times;
      PowerAdds(a - 1, b, positive);
      PowerStep(a, positive);
      PowerStep(a + b, positive);
      Regroup(if positive then 10.0 else 0.1, Power(Signed(positive, a - 1)), Power(Signed(positive, b)));
    }
  }

  lemma FirstEntry(positive: bool)
    ensures TableEntry(positive, 0) == Power(if positive then Pow2(0) else 0 - Pow2(0))
  {
    assert Pow2(0) == 1;
    assert Power(1) == 10.0 * Power(0);
    assert Power(-1) == Power(0) / 10.0;
  }

  lemma {:induction false} TableHoldsPowers(positive: bool, index: nat)
    requires index < TABLE_SIZE
    ensures TableEntry(positive, index) == Power(if positive then Pow2(index) else 0 - Pow2(index))
  {
    if index > 0 {
      hide TableEntry, Power, Pow2, Times;
      TableHoldsPowers(positive, index - 1);
      EntryIsSquare(positive, index);
      PowerAdds(Pow2(index - 1), Pow2(index - 1), positive);
      NextPow2(index);
    } else {
      FirstEntry(positive);
    }
  }

  /** The loop of make_float: scales `m` by the table entries that the bits of `e` select. */
  function Scale(positive: bool, m: real, e: nat, index: nat): real
    requires index <= TABLE_SIZE && e < Pow2(TABLE_SIZE - index)
    decreases e
  {
    if e == 0 then m
    else if e % 2 == 1 then Scale(positive, Times(m, TableEntry(positive, index)), e / 2, index + 1)
    else Scale(positive, m, e / 2, index + 1)
  }

  /** The number whose binary digits from `index` on are those of `e`. */
  function Weight(e: nat, index: nat): nat {
    if e == 0 then 0 else (if e % 2 == 1 then Pow2(index) else 0) + Weight(e / 2, index + 1)
  }

  lemma {:induction false} WeightOf(e: nat, index: nat)
    ensures Weight(e, index) == e * Pow2(index)
    decreases e
  {
    if e > 0 {
      WeightOf(e / 2, index + 1);
      assert e == e / 2 * 2 + e % 2;
      Distribute(e / 2, e % 2, Pow2(index));
    }
  }

  lemma Distribute(a: int, b: int, p: int)
    ensures (a * 2 + b) * p == a * (2 * p) + b * p
  {
  }

  lemma {:induction false} ScaleIsPower(positive: bool, m: real, e: nat, index: nat)
    requires index <= TABLE_SIZE && e < Pow2(TABLE_SIZE - index)
    ensures Scale(positive, m, e, index) == Times(m, Power(Signed(positive, Weight(e, index))))
    decreases e
  {
    if e == 0 {
      ZeroWeight(positive, m, index);
    } else {
      hide *;
      HalfFits(e, index);
      ScaleStep(positive, m, e, index);
      var rest := Weight(e / 2, index + 1);
      if e % 2 == 1 {
        ScaleIsPower(positive, Times(m, TableEntry(positive, index)), e / 2, index + 1);
        OddStep(positive, m, index, rest);
      } else {
        ScaleIsPower(positive, m, e / 2, index + 1);
      }
    }
  }

  lemma ZeroWeight(positive: bool, m: real, index: nat)
    ensures Power(Signed(positive, Weight(0, index))) == 1.0 && Times(m, 1.0) == m
  {
  }

  lemma ScaleStep(positive: bool, m: real, e: nat, index: nat)
    requires index < TABLE_SIZE && 0 < e < Pow2(TABLE_SIZE - index) && e / 2 < Pow2(TABLE_SIZE - (index + 1))
    ensures var m' := if e % 2 == 1 then Times(m, TableEntry(positive, index)) else m;
      Scale(positive, m, e, index) == Scale(positive, m', e / 2, index + 1)
    ensures Weight(e, index) == (if e % 2 == 1 then Pow2(index) else 0) + Weight(e / 2, index + 1)
  {
    hide Times, TableEntry, Pow2;
  }

  lemma HalfFits(e: nat, index: nat)
    requires index <= TABLE_SIZE && 0 < e < Pow2(TABLE_SIZE - index)
    ensures index < TABLE_SIZE && e / 2 < Pow2(TABLE_SIZE - (index + 1))
  {
  }

  lemma OddStep(positive: bool, m: real, index: nat, rest: nat)
    requires index < TABLE_SIZE
    ensures Times(Times(m, TableEntry(positive, index)), Power(Signed(positive, rest)))
         == Times(m, Power(Signed(positive, Pow2(index) + rest)))
  {
    hide TableEntry, Power, Pow2, Times;
    TableHoldsPowers(positive, index);
    PowerAdds(Pow2(index), rest, positive);
    Regroup(m, TableEntry(positive, index), Power(Signed(positive, rest)));
  }

  lemma NineEntries()
    ensures Pow2(TABLE_SIZE) == 512
  {
    assert Pow2(9) == 512;
  }

  lemma NothingToScale(positive: bool, m: real, index: nat)
    requires index <= TABLE_SIZE && 0 < Pow2(TABLE_SIZE - index)
    ensures Scale(positive, m, 0, index) == m
  {
  }

  /** All bits of the exponent make its power. */
  lemma ScaledByAll(mantissa: real, exponent: int)
    requires -512 < exponent < 512
    ensures var positive := exponent > 0; var e: nat := if positive then exponent else 0 - exponent;
      e < Pow2(TABLE_SIZE) && Scale(positive, mantissa, e, 0) == mantissa * Power(exponent)
  {
    hide Scale, Power, Pow2, Weight;
    NineEntries();
    var positive := exponent > 0;
    var e: nat := if positive then exponent else 0 - exponent;
    ScaleIsPower(positive, mantissa, e, 0);
    WeightOf(e, 0);
    assert Pow2(0) == 1 by { OnePow2(); }
  }

  lemma OnePow2()
    ensures Pow2(0) == 1
  {
  }

  /** Scales by the bits of the exponent; the table index never passes its nine entries. */
  method MakeFloat(mantissa: real, exponent: int) returns (m: real)
    requires -512 < exponent < 512
    ensures m == mantissa * Power(exponent)
  {
    hide Scale, Power, Pow2, Times, TableEntry, Weight;
    var positive := exponent > 0;
    var e: nat := if exponent <= 0 then -exponent else exponent;
    ghost var magnitude := e;
    m := mantissa;
    var index: nat := 0;
    NineEntries();
    while e != 0
      invariant index <= TABLE_SIZE && e < Pow2(TABLE_SIZE - index)
      invariant Scale(positive, m, e, index) == Scale(positive, mantissa, magnitude, 0)
      decreases e
    {
      HalfFits(e, index);
      ScaleStep(positive, m, e, index);
      if e % 2 == 1 {
        m := Times(m, TableEntry(positive, index));
      }
      e := e / 2;
      index := index + 1;
    }
    NothingToScale(positive, m, index);
    ScaledByAll(mantissa, exponent);
  }
}
