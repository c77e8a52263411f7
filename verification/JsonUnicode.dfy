/** Escaped Unicode: a string of \uXXXX escapes parses to the UTF-8 of its code points. */
module JsonUnicode {
  import opened Values
  import opened Unicode
  import opened JsonText
  import opened JsonPrinter

  /** A Unicode scalar value: any code point but the surrogates. */
  predicate IsScalar(cp: nat) { cp < 0xD800 || 0xE000 <= cp < 0x110000 }

  /** UTF-16 as section 2.1 of RFC 2781 defines it. */
  function Utf16(cp: nat): (units: seq<nat>)
    requires IsScalar(cp)
    ensures forall i :: 0 <= i < |units| ==> units[i] < 0x1_0000
  {
    if cp < 0x1_0000 then [cp] else [0xD800 + (cp - 0x1_0000) / 0x400, 0xDC00 + (cp - 0x1_0000) % 0x400]
  }

  /** `t` is an escape of the code unit, its four digits in either case. */
  predicate Escapes(t: Bytes, unit: nat) {
    && |t| == 6 && t[0] == 92 && t[1] == 117
    && IsHexDigit(t[2], unit / 0x1000) && IsHexDigit(t[3], unit / 0x100 % 16)
    && IsHexDigit(t[4], unit / 0x10 % 16) && IsHexDigit(t[5], unit % 16)
  }

  predicate IsHexDigit(c: Byte, d: nat) {
    (d < 10 && c == 48 + d) || (10 <= d < 16 && (c == 65 + d - 10 || c == 97 + d - 10))
  }

  /** `t` escapes the code point: as one escape, or as a surrogate pair above U+FFFF. */
  predicate EscapesPoint(t: Bytes, cp: nat)
    requires IsScalar(cp)
  {
    if cp < 0x1_0000 then Escapes(t, cp)
    else |t| == 12 && Escapes(t[..6], Utf16(cp)[0]) && Escapes(t[6..], Utf16(cp)[1])
  }

  function Utf8All(cps: seq<nat>): Bytes
    requires forall i :: 0 <= i < |cps| ==> IsScalar(cps[i])
  {
    if cps == [] then []
    else
      assert IsScalar(cps[0]);
      Utf8(cps[0]) + Utf8All(cps[1..])
  }

  function Concat(ts: seq<Bytes>): Bytes { if ts == [] then [] else ts[0] + Concat(ts[1..]) }

  lemma HexDigitDecodes(c: Byte, d: nat)
    requires IsHexDigit(c, d)
    ensures c != 0 && DecodeHex(c) == d < 16
  {
  }

  lemma EscapeParses(s: Bytes, p: nat, t: Bytes, unit: nat)
    requires Escapes(t, unit) && unit < 0x1_0000 && OccursAt(s, p, t)
    ensures p + 6 <= |s| && Peek(s, p) == BACKSLASH && Peek(s, p + 1) == 117
    ensures ParseHex(s, p + 2, 4, 0) == Ok(unit, p + 6)
  {
    forall i | 0 <= i < 6 ensures t[i] == Peek(s, p + i) {
      assert s[p..p + |t|][i] == s[p + i];
    }
    assert t[0] == Peek(s, p) && t[1] == Peek(s, p + 1);
    HexDigitDecodes(t[2], unit / 0x1000);
    HexDigitDecodes(t[3], unit / 0x100 % 16);
    HexDigitDecodes(t[4], unit / 0x10 % 16);
    HexDigitDecodes(t[5], unit % 16);
    FourDigits(s, p + 2, unit / 0x1000, unit / 0x100 % 16, unit / 0x10 % 16, unit % 16);
    HexParts(unit);
  }

  lemma HexParts(unit: nat)
    requires unit < 0x1_0000
    ensures (((unit / 0x1000) * 16 + unit / 0x100 % 16) * 16 + unit / 0x10 % 16) * 16 + unit % 16 == unit
  {
    LastHexDigit(unit, 0x10);
    LastHexDigit(unit / 0x10, 0x10);
    LastHexDigit(unit / 0x100, 0x10);
    assert unit / 0x10 / 0x10 == unit / 0x100 && unit / 0x100 / 0x10 == unit / 0x1000;
  }

  lemma LastHexDigit(n: nat, base: nat)
    requires base == 0x10
    ensures n / base * 16 + n % 16 == n
  {
  }

  lemma FourDigits(s: Bytes, p: nat, a: nat, b: nat, c: nat, d: nat)
    requires p + 4 <= |s| && a < 16 && b < 16 && c < 16 && d < 16
    requires Peek(s, p) != 0 && Peek(s, p + 1) != 0 && Peek(s, p + 2) != 0 && Peek(s, p + 3) != 0
    requires DecodeHex(Peek(s, p)) == a && DecodeHex(Peek(s, p + 1)) == b
    requires DecodeHex(Peek(s, p + 2)) == c && DecodeHex(Peek(s, p + 3)) == d
    ensures ParseHex(s, p, 4, 0) == Ok(((a * 16 + b) * 16 + c) * 16 + d, p + 4)
  {
    hide DecodeHex, Peek;
    var whole := ((a * 16 + b) * 16 + c) * 16 + d;
    HexStep(s, p + 3, 1, (a * 16 + b) * 16 + c, whole);
    HexStep(s, p + 2, 2, a * 16 + b, whole);
    HexStep(s, p + 1, 3, a, whole);
    HexStep(s, p, 4, 0, whole);
  }

  /** One more digit of a code unit, the `n`th from the right. */
  lemma HexStep(s: Bytes, p: nat, n: nat, unit: nat, whole: nat)
    requires p < |s| && n > 0 && unit < 0x1000 && Peek(s, p) != 0 && DecodeHex(Peek(s, p)) < 16
    requires n == 1 ==> unit * 16 + DecodeHex(Peek(s, p)) == whole
    requires n > 1 ==> ParseHex(s, p + 1, n - 1, unit * 16 + DecodeHex(Peek(s, p))) == Ok(whole, p + n)
    ensures ParseHex(s, p, n, unit) == Ok(whole, p + n)
  {
  }

  lemma {:induction false} OneEscape(s: Bytes, p: nat, stop: Byte, t: Bytes, unit: nat, high: nat, acc: Bytes)
    requires IsQuote(stop)
    requires Escapes(t, unit) && unit < 0x1_0000 && high < 0x400 && OccursAt(s, p, t)
    ensures p + 6 <= |s| && |t| == 6
    ensures ParseQuoted(s, p, stop, high, acc) ==
      if IsHighSurrogate(unit) then ParseQuoted(s, p + 6, stop, unit % 0x400, acc)
      else ParseQuoted(s, p + 6, stop, high, acc + Utf8(Codepoint(high, unit)))
  {
    hide OccursAt, ParseHex, Utf8, Codepoint;
    EscapeParses(s, p, t, unit);
    assert acc + [] == acc;
    assert ReadEscape(s, p + 1, high) == Ok(UnitEscape(high, unit), p + 6);
  }

  /** One code point; returns the surrogate bits the parser is left with. */
  lemma PointParses(s: Bytes, p: nat, stop: Byte, cp: nat, t: Bytes, high: nat, acc: Bytes) returns (h: nat)
    requires IsQuote(stop)
    requires IsScalar(cp) && EscapesPoint(t, cp) && high < 0x400 && OccursAt(s, p, t)
    ensures h < 0x400 && p + |t| <= |s|
    ensures ParseQuoted(s, p, stop, high, acc) == ParseQuoted(s, p + |t|, stop, h, acc + Utf8(cp))
  {
    hide OccursAt, ParseQuoted, Escapes, Utf8;
    if cp < 0x1_0000 {
      OneEscape(s, p, stop, t, cp, high, acc);
      return high;
    } else {
      var u := Utf16(cp);
      assert t == t[..6] + t[6..];
      OccursSplit(s, p, t[..6], t[6..]);
      OneEscape(s, p, stop, t[..6], u[0], high, acc);
      OneEscape(s, p + 6, stop, t[6..], u[1], u[0] % 0x400, acc);
      PairIsCodepoint(cp);
      return u[0] % 0x400;
    }
  }

  lemma PairIsCodepoint(cp: nat)
    requires 0x1_0000 <= cp < 0x110000
    ensures var u := Utf16(cp);
      && IsHighSurrogate(u[0]) && IsLowSurrogate(u[1])
      && Codepoint(u[0] % 0x400, u[1]) == cp
  {
  }

  /** For every sequence of scalar values, however each digit is spelled, the escaped
      text parses to their UTF-8 encoding. */
  lemma {:induction false} EscapesParseToUtf8(s: Bytes, p: nat, cps: seq<nat>, ts: seq<Bytes>, high: nat, acc: Bytes)
    requires |ts| == |cps| && high < 0x400
    requires forall i :: 0 <= i < |cps| ==> IsScalar(cps[i]) && EscapesPoint(ts[i], cps[i])
    requires OccursAt(s, p, Concat(ts) + [QUOTE])
    ensures ParseQuoted(s, p, QUOTE, high, acc) == Ok(acc + Utf8All(cps), p + |Concat(ts)| + 1)
    decreases |cps|
  {
    hide OccursAt, ParseQuoted, Utf8, EscapesPoint, IsScalar, Concat, Utf8All;
    if cps == [] {
      NoPoints();
      assert ts == [] && Concat(ts) + [QUOTE] == [QUOTE];
      OccursFirst(s, p, [QUOTE]);
      QuoteEnds(s, p, high, acc);
    } else {
      var rest := Concat(ts[1..]) + [QUOTE];
      FirstPoint(cps, ts);
      assert Concat(ts) + [QUOTE] == ts[0] + rest;
      OccursSplit(s, p, ts[0], rest);
      var h := PointParses(s, p, QUOTE, cps[0], ts[0], high, acc);
      EscapesParseToUtf8(s, p + |ts[0]|, cps[1..], ts[1..], h, acc + Utf8(cps[0]));
      assert acc + Utf8(cps[0]) + Utf8All(cps[1..]) == acc + (Utf8(cps[0]) + Utf8All(cps[1..]));
    }
  }

  // ---- Any code units ----

  /** The bits of the last high surrogate among the code units, or those there were before. */
  function LastHigh(units: seq<nat>, high: nat): (h: nat)
    requires high < 0x400
    ensures h < 0x400
  {
    if units == [] then high
    else
      var last := units[|units| - 1];
      if 0xD800 <= last < 0xDC00 then last - 0xD800 else LastHigh(units[..|units| - 1], high)
  }

  /** What the code units add: a high surrogate nothing, a low one the code point that it makes
      with the last high one before it, used already or not, or with none; others themselves. */
  function UnitsUtf8(units: seq<nat>, high: nat): Bytes
    requires high < 0x400 && forall i :: 0 <= i < |units| ==> units[i] < 0x1_0000
  {
    if units == [] then []
    else
      var before, last := units[..|units| - 1], units[|units| - 1];
      UnitsUtf8(before, high) +
        if 0xD800 <= last < 0xDC00 then []
        else if 0xDC00 <= last < 0xE000 then Utf8(0x1_0000 + LastHigh(before, high) * 0x400 + (last - 0xDC00))
        else Utf8(last)
  }

  lemma UnitsUnfold(units: seq<nat>, high: nat)
    requires units != [] && high < 0x400 && forall i :: 0 <= i < |units| ==> units[i] < 0x1_0000
    ensures var before, last := units[..|units| - 1], units[|units| - 1];
      UnitsUtf8(units, high) == UnitsUtf8(before, high) +
        if IsHighSurrogate(last) then [] else Utf8(Codepoint(LastHigh(before, high), last))
  {
    hide Utf8, LastHigh;
  }

  /** The escapes of any code units, paired or not. */
  lemma {:induction false} UnitsParse(
    s: Bytes, p: nat, stop: Byte, units: seq<nat>, ts: seq<Bytes>, high: nat, acc: Bytes)
    requires IsQuote(stop) && |ts| == |units| && high < 0x400 && p <= |s|
    requires forall i :: 0 <= i < |units| ==> units[i] < 0x1_0000 && Escapes(ts[i], units[i])
    requires forall i :: 0 <= i < |units| ==> OccursAt(s, p + 6 * i, ts[i])
    ensures p + 6 * |units| <= |s|
    ensures ParseQuoted(s, p, stop, high, acc)
         == ParseQuoted(s, p + 6 * |units|, stop, LastHigh(units, high), acc + UnitsUtf8(units, high))
    decreases |units|
  {
    hide OccursAt, ParseQuoted, Utf8, Escapes;
    if units == [] {
      assert acc + [] == acc;
    } else {
      var n := |units| - 1;
      UnitsParse(s, p, stop, units[..n], ts[..n], high, acc);
      var h, more := LastHigh(units[..n], high), acc + UnitsUtf8(units[..n], high);
      var last := units[n];
      OneEscape(s, p + 6 * n, stop, ts[n], last, h, more);
      assert p + 6 * n + 6 == p + 6 * |units|;
      assert IsHighSurrogate(last) ==> last % 0x400 == last - 0xD800;
      assert IsLowSurrogate(last) ==> last % 0x400 == last - 0xDC00;
      UnitsUnfold(units, high);
      assert acc + UnitsUtf8(units, high) == if IsHighSurrogate(last) then more else more + Utf8(Codepoint(h, last));
    }
  }

  lemma NoPoints()
    ensures Concat([]) == [] && Utf8All([]) == []
  {
  }

  lemma FirstPoint(cps: seq<nat>, ts: seq<Bytes>)
    requires |ts| == |cps| > 0 && forall i :: 0 <= i < |cps| ==> IsScalar(cps[i])
    ensures IsScalar(cps[0]) && cps[0] < 0x110000
    ensures Concat(ts) == ts[0] + Concat(ts[1..]) && Utf8All(cps) == Utf8(cps[0]) + Utf8All(cps[1..])
  {
    hide Utf8;
  }

  /** A document that is one string written in escapes: it parses to the UTF-8 encoding of
      its code points, which determines them. */
  lemma EscapedStringParses(cps: seq<nat>, ts: seq<Bytes>, limit: nat)
    requires |ts| == |cps|
    requires forall i :: 0 <= i < |cps| ==> IsScalar(cps[i]) && EscapesPoint(ts[i], cps[i])
    ensures var text := [QUOTE] + Concat(ts) + [QUOTE];
      Parse(text, Bool(true), limit) == Ok(Str(Utf8All(cps)), |text|)
    ensures DecodeUtf8(Utf8All(cps)) == Some(cps)
  {
    hide IsScalar, EscapesPoint, ParseQuoted, Utf8, DecodeUtf8;
    var text := [QUOTE] + Concat(ts) + [QUOTE];
    assert text[1..1 + |Concat(ts) + [QUOTE]|] == Concat(ts) + [QUOTE];
    EscapesParseToUtf8(text, 1, cps, ts, 0, []);
    assert [] + Utf8All(cps) == Utf8All(cps);
    Utf8IsDecodable(cps);
  }

  lemma QuoteEnds(s: Bytes, p: nat, high: nat, acc: Bytes)
    requires p < |s| && Peek(s, p) == QUOTE && high < 0x400
    ensures ParseQuoted(s, p, QUOTE, high, acc) == Ok(acc + [], p + 1)
  {
    assert acc + [] == acc;
  }

  // ---- UTF-8 is read back ----

  /** A decoder for the table of section 3 of RFC 3629. */
  function DecodeUtf8(b: Bytes): Option<seq<nat>> {
    if b == [] then Some([])
    else
      var n := if b[0] < 0x80 then 1 else if b[0] < 0xE0 then 2 else if b[0] < 0xF0 then 3 else 4;
      if |b| < n then None
      else
        var cp := if n == 1 then b[0] as int
                  else if n == 2 then (b[0] as int - 0xC0) * 64 + (b[1] as int - 0x80)
                  else if n == 3 then (b[0] as int - 0xE0) * 4096 + (b[1] as int - 0x80) * 64 + (b[2] as int - 0x80)
                  else (b[0] as int - 0xF0) * 262144 + (b[1] as int - 0x80) * 4096
                       + (b[2] as int - 0x80) * 64 + (b[3] as int - 0x80);
        match DecodeUtf8(b[n..])
        case None => None
        case Some(cps) => if cp < 0 then None else Some([cp] + cps)
  }

  /** The bytes a parsed string receives determine the code points that were escaped. */
  lemma {:induction false} Utf8IsDecodable(cps: seq<nat>)
    requires forall i :: 0 <= i < |cps| ==> IsScalar(cps[i])
    ensures DecodeUtf8(Utf8All(cps)) == Some(cps)
  {
    hide Utf8;
    if cps != [] {
      var u, rest := Utf8(cps[0]), Utf8All(cps[1..]);
      Utf8IsDecodable(cps[1..]);
      DecodeFirst(cps[0], rest, cps[1..]);
      assert [cps[0]] + cps[1..] == cps;
    }
  }

  lemma DecodeFirst(cp: nat, rest: Bytes, cps: seq<nat>)
    requires IsScalar(cp) && DecodeUtf8(rest) == Some(cps)
    ensures DecodeUtf8(Utf8(cp) + rest) == Some([cp] + cps)
  {
    var b := Utf8(cp) + rest;
    assert b[|Utf8(cp)|..] == rest;
    SplitCodepoint(cp);
  }

  lemma SplitCodepoint(cp: nat)
    requires cp < 0x110000
    ensures cp == cp / 64 * 64 + cp % 64
    ensures cp / 64 == cp / 4096 * 64 + cp / 64 % 64
    ensures cp / 4096 == cp / 262144 * 64 + cp / 4096 % 64
  {
  }
}
