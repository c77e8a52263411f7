/** Nothing else is accepted: what the parser reads is a text of the grammar, in which numbers may
    lack digits and hexadecimal digits may be those that decodeHex takes for such. */
module JsonWritten {
  import opened Values
  import opened Unicode
  import opened JsonText
  import opened JsonReading
  import opened JsonFilter
  import opened JsonGrammar
  import Numbers
  import D = Decimals
  import P = JsonPrinter

  // ---- What is accepted ----

  /** The escape of any code unit. */
  predicate IsUnitText(t: Bytes) {
    && |t| == 6 && t[0] == 92 && t[1] == 117
    && forall i :: 2 <= i < 6 ==> 48 <= t[i] <= 63 || 65 <= t[i] <= 70 || 96 <= t[i] <= 102
  }

  predicate IsWrittenChar(ch: Char, quote: Byte) {
    match ch
    case Plain(c) => c != 0 && c != quote && c != 92
    case Letter(letter) => LetterMeaning(letter).Some?
    case Point(_, text) => IsUnitText(text)
  }

  predicate IsWrittenString(quote: Byte, chars: seq<Char>) {
    (quote == 34 || quote == 39) && forall i :: 0 <= i < |chars| ==> IsWrittenChar(chars[i], quote)
  }

  predicate IsWrittenName(name: Name) {
    match name
    case Quoted(quote, chars) => IsWrittenString(quote, chars)
    case Bare(_) => IsName(name)
  }

  /** A sign, digits, a point with digits, and an exponent; there are digits or a point. */
  predicate IsNumberParts(sign: Bytes, whole: Bytes, frac: Bytes, tail: Bytes) {
    && (sign == [] || sign == [45] || sign == [43])
    && AllDigits(whole) && (frac == [] || (frac[0] == 46 && AllDigits(frac[1..]))) && (whole != [] || frac != [])
    && (tail == [] || ((tail[0] == 101 || tail[0] == 69) && IsExponentText(WithoutSign(tail[1..]))))
  }

  function WithoutSign(t: Bytes): Bytes { if t != [] && (t[0] == 45 || t[0] == 43) then t[1..] else t }

  /** Digits; after those that make the exponent too large, no character is looked at. */
  predicate IsExponentText(t: Bytes) {
    AllDigits(t) || exists k :: 0 <= k <= |t| && AllDigits(t[..k]) && D.Value(0, t[..k]) > 225
  }

  function Joined(a: Bytes, b: Bytes, c: Bytes, d: Bytes): Bytes { a + (b + (c + d)) }

  ghost predicate IsNumberToken(t: Bytes) {
    && |t| <= 63 && (forall i :: 0 <= i < |t| ==> IsNumberChar(t[i]))
    && exists sign, whole, frac, tail :: t == Joined(sign, whole, frac, tail) && IsNumberParts(sign, whole, frac, tail)
  }

  ghost predicate IsWritten(x: Json) {
    match x
    case Word(_) => true
    case Number(num) => IsNumberToken(SpelledNumber(num))
    case Text(quote, chars) => IsWrittenString(quote, chars)
    case Array(blank, items) => IsBlank(blank) && forall i :: 0 <= i < |items| ==> IsWrittenItem(items[i])
    case Object(blank, pairs) => IsBlank(blank) && forall i :: 0 <= i < |pairs| ==> IsWrittenPair(pairs[i])
  }

  ghost predicate IsWrittenItem(item: Item) { IsBlank(item.before) && IsBlank(item.after) && IsWritten(item.val) }

  ghost predicate IsWrittenPair(pair: Pair) {
    IsBlank(pair.before) && IsWrittenName(pair.name) && IsBlank(pair.afterName) && IsWrittenItem(pair.item)
  }

  // ---- Pieces of a text ----

  lemma Glue(s: Bytes, p: nat, q: nat, r: nat)
    requires p <= q <= r <= |s|
    ensures s[p..r] == s[p..q] + s[q..r]
  {
  }

  lemma GlueOne(s: Bytes, p: nat, r: nat)
    requires p < r <= |s|
    ensures s[p..r] == [s[p]] + s[p + 1..r]
  {
  }

  lemma {:induction false} SpacesAreBlank(s: Bytes, p: nat)
    requires p <= |s|
    ensures IsBlank(s[p..SkipSpaces(s, p)])
    decreases |s| - p
  {
    if IsSpace(Peek(s, p)) {
      SpacesAreBlank(s, p + 1);
      GlueOne(s, p, SkipSpaces(s, p));
    }
  }

  // ---- Strings ----

  lemma {:induction false} HexWritten(s: Bytes, p: nat, n: nat, unit: nat)
    requires p <= |s| && unit < 0x1_0000 && ParseHex(s, p, n, unit).Ok?
    ensures p + n <= |s|
    ensures forall i :: p <= i < p + n ==> 48 <= s[i] <= 63 || 65 <= s[i] <= 70 || 96 <= s[i] <= 102
    decreases n
  {
    if n > 0 {
      HexWritten(s, p + 1, n - 1, (unit * 16 + DecodeHex(Peek(s, p))) % 0x1_0000);
    }
  }

  lemma {:induction false} EscapeWritten(s: Bytes, p: nat, quote: Byte, high: nat) returns (ch: Char)
    requires p < |s| && s[p] == 92 && high < 0x400 && ReadEscape(s, p + 1, high).Ok?
    ensures IsWrittenChar(ch, quote) && s[p..ReadEscape(s, p + 1, high).pos] == SpelledChar(ch)
  {
    hide ParseHex, UnitEscape;
    if s[p + 1] == 117 {
      HexWritten(s, p + 2, 4, 0);
      ch := Point(0, s[p..p + 6]);
    } else {
      ch := Letter(s[p + 1]);
    }
  }

  lemma {:induction false} CharsWritten(s: Bytes, p: nat, quote: Byte, high: nat, acc: Bytes) returns (chars: seq<Char>)
    requires p <= |s| && (quote == 34 || quote == 39) && high < 0x400 && ParseQuoted(s, p, quote, high, acc).Ok?
    ensures IsWrittenString(quote, chars)
    ensures s[p..ParseQuoted(s, p, quote, high, acc).pos] == SpelledChars(chars) + [quote]
    decreases |s| - p
  {
    hide ReadEscape, SpelledChar, IsWrittenChar;
    var c, end := Peek(s, p), ParseQuoted(s, p, quote, high, acc).pos;
    chars := [];
    if c != quote {
      var ch, next, rest;
      if c == BACKSLASH {
        var e := ReadEscape(s, p + 1, high);
        next := e.pos;
        ch := EscapeWritten(s, p, quote, high);
        rest := CharsWritten(s, next, quote, e.val.high, acc + e.val.more);
      } else {
        next := p + 1;
        ch := PlainWritten(s, p, quote);
        rest := CharsWritten(s, next, quote, high, acc + [c]);
      }
      Glue(s, p, next, end);
      chars := [ch] + rest;
      assert chars[1..] == rest;
    }
  }

  lemma PlainWritten(s: Bytes, p: nat, quote: Byte) returns (ch: Char)
    requires p < |s| && s[p] != quote && s[p] != 0 && s[p] != 92
    ensures IsWrittenChar(ch, quote) && s[p..p + 1] == SpelledChar(ch)
  {
    ch := Plain(s[p]);
  }

  lemma {:induction false} BareWritten(s: Bytes, p: nat)
    requires p <= |s|
    ensures forall i :: p <= i < NonQuotedEnd(s, p) ==> 48 <= s[i] <= 57 || 65 <= s[i] <= 90 || 95 <= s[i] <= 122
    decreases |s| - p
  {
    if CanBeInNonQuotedString(Peek(s, p)) {
      BareWritten(s, p + 1);
    }
  }

  lemma NameWritten(s: Bytes, p: nat) returns (name: Name)
    requires p <= |s| && ParseKey(s, p).Ok?
    ensures IsWrittenName(name) && s[p..ParseKey(s, p).pos] == SpelledName(name)
  {
    hide ParseQuoted, NonQuotedEnd, SpelledChars;
    var end := ParseKey(s, p).pos;
    if IsQuote(Peek(s, p)) {
      var chars := CharsWritten(s, p + 1, s[p], 0, []);
      GlueOne(s, p, end);
      name := Quoted(s[p], chars);
    } else {
      BareWritten(s, p);
      name := Bare(s[p..end]);
    }
  }

  // ---- Numbers ----

  lemma {:induction false} TokenChars(s: Bytes, p: nat, room: nat)
    requires p <= |s|
    ensures forall i :: p <= i < NumberEnd(s, p, room) ==> IsNumberChar(s[i])
    decreases |s| - p
  {
    if CanBeInNumber(Peek(s, p)) && room > 0 {
      TokenChars(s, p + 1, room - 1);
    }
  }

  lemma {:induction false} MantissaDigits(t: Bytes, p: nat, m: nat)
    requires p <= |t| && m <= Numbers.MAX_UINT
    ensures AllDigits(t[p..Numbers.Mantissa(t, p, m).1])
    decreases |t| - p
  {
    var c := Numbers.Peek(t, p);
    if Numbers.IsDigit(c) && m <= Numbers.MAX_UINT / 10 && m * 10 <= Numbers.MAX_UINT - (c - 48) {
      MantissaDigits(t, p + 1, m * 10 + (c - 48));
      GlueOne(t, p, Numbers.Mantissa(t, p, m).1);
    }
  }

  lemma {:induction false} ExtraAreDigits(t: Bytes, p: nat, offset: int)
    requires p <= |t|
    ensures AllDigits(t[p..Numbers.ExtraDigits(t, p, offset).1])
    decreases |t| - p
  {
    if Numbers.IsDigit(Numbers.Peek(t, p)) {
      ExtraAreDigits(t, p + 1, Numbers.Wrap16(offset + 1));
      GlueOne(t, p, Numbers.ExtraDigits(t, p, offset).1);
    }
  }

  lemma {:induction false} FractionDigits(t: Bytes, p: nat, m: nat, offset: int)
    requires p <= |t|
    ensures AllDigits(t[p..Numbers.Fraction(t, p, m, offset).2])
    decreases |t| - p
  {
    hide Numbers.Wrap16;
    var c := Numbers.Peek(t, p);
    if Numbers.IsDigit(c) {
      if m < Numbers.MANTISSA_MAX / 10 {
        FractionDigits(t, p + 1, m * 10 + (c - 48), Numbers.Wrap16(offset - 1));
      } else {
        FractionDigits(t, p + 1, m, offset);
      }
      GlueOne(t, p, Numbers.Fraction(t, p, m, offset).2);
    }
  }

  /** The digits of an exponent from `from` on, read up to `p`. */
  lemma {:induction false} ExponentWritten(t: Bytes, from: nat, p: nat, e: nat, offset: int)
    requires from <= p <= |t| && offset <= 83 && AllDigits(t[from..p]) && D.Value(0, t[from..p]) == e
    requires var r := Numbers.Exponent(t, p, e, offset); r.Some? ==> r.value.1 == |t|
    ensures IsExponentText(t[from..])
    decreases |t| - p
  {
    hide D.Value;
    var c := Numbers.Peek(t, p);
    if p < |t| && Numbers.IsDigit(c) {
      Glue(t, from, p, p + 1);
      assert t[p..p + 1] == [c];
      OneMoreDigit(t[from..p], c);
      if e * 10 + (c - 48) + offset > 308 {
        assert t[from..][..p + 1 - from] == t[from..p + 1];
      } else {
        ExponentWritten(t, from, p + 1, e * 10 + (c - 48), offset);
      }
    } else {
      assert t[from..] == t[from..p];
    }
  }

  lemma OneMoreDigit(t: Bytes, c: Byte)
    requires AllDigits(t) && 48 <= c <= 57
    ensures AllDigits(t + [c]) && D.Value(0, t + [c]) == D.Value(0, t) * 10 + (c - 48)
  {
    assert (t + [c])[..|t|] == t;
    D.LastValue(0, t + [c]);
  }

  lemma TailWritten(t: Bytes, p: nat, negative: bool, m: nat, offset: int)
    requires p <= |t| && 0 !in t && offset <= 83 && Numbers.Scaled(t, p, negative, m, offset).Some?
    ensures t[p..] == [] || ((t[p] == 101 || t[p] == 69) && IsExponentText(WithoutSign(t[p + 1..])))
  {
    hide Numbers.Exponent;
    if p < |t| {
      var signed := p + 1 < |t| && (t[p + 1] == 45 || t[p + 1] == 43);
      var q := if signed then p + 2 else p + 1;
      D.ValueOfNone(0);
      ExponentWritten(t, q, q, 0, offset);
      assert WithoutSign(t[p + 1..]) == t[q..];
    }
  }

  /** The parts of a number end at `p`, `r` and `u`. */
  predicate PartsEnd(t: Bytes, p: nat, r: nat, u: nat) {
    && p <= r <= u <= |t| && (p == 0 || (p == 1 && (t[0] == 45 || t[0] == 43)))
    && AllDigits(t[p..r]) && (u == r || (t[r] == 46 && AllDigits(t[r + 1..u]))) && p < u
    && (t[u..] == [] || ((t[u] == 101 || t[u] == 69) && IsExponentText(WithoutSign(t[u + 1..]))))
  }

  lemma PartsMakeToken(t: Bytes, p: nat, r: nat, u: nat)
    requires |t| <= 63 && (forall i :: 0 <= i < |t| ==> IsNumberChar(t[i])) && PartsEnd(t, p, r, u)
    ensures IsNumberToken(t)
  {
    hide AllDigits, IsExponentText, WithoutSign, Joined;
    var sign, whole, frac, tail := t[..p], t[p..r], t[r..u], t[u..];
    if u != r {
      AfterOne(t, r, u);
    }
    if tail != [] {
      AfterOne(t, u, |t|);
      assert t[u..|t|] == t[u..] && t[u + 1..|t|] == t[u + 1..];
    }
    assert IsNumberParts(sign, whole, frac, tail);
    PartsJoin(t, p, r, u);
  }

  lemma AfterOne(t: Bytes, p: nat, r: nat)
    requires p < r <= |t|
    ensures t[p..r][0] == t[p] && t[p..r][1..] == t[p + 1..r]
  {
  }

  lemma PartsJoin(t: Bytes, p: nat, r: nat, u: nat)
    requires p <= r <= u <= |t|
    ensures t == Joined(t[..p], t[p..r], t[r..u], t[u..])
  {
    assert t[r..] == t[r..u] + t[u..];
    assert t[p..] == t[p..r] + t[r..];
    assert t == t[..p] + t[p..];
  }

  lemma NumberShape(t: Bytes)
    requires |t| <= 63 && (forall i :: 0 <= i < |t| ==> IsNumberChar(t[i])) && Numbers.ParseNumber(t).Some?
    ensures IsNumberToken(t)
  {
    hide Numbers.Mantissa, Numbers.Shrink, Numbers.ExtraDigits, Numbers.Fraction, Numbers.Scaled, Numbers.Wrap16;
    hide Numbers.Pow10, AllDigits, IsExponentText, WithoutSign, IsNumberToken;
    var negative := Numbers.Peek(t, 0) == 45;
    var p: nat := if negative || Numbers.Peek(t, 0) == 43 then 1 else 0;
    var (mantissa, q) := Numbers.Mantissa(t, p, 0);
    MantissaDigits(t, p, 0);
    if Numbers.Peek(t, q) == 0 {
      assert t[|t|..] == [];
      PartsMakeToken(t, p, |t|, |t|);
    } else {
      FloatShape(t, p, q, negative, mantissa);
    }
  }

  lemma FloatShape(t: Bytes, p: nat, q: nat, negative: bool, mantissa: nat)
    requires |t| <= 63 && (forall i :: 0 <= i < |t| ==> IsNumberChar(t[i])) && mantissa <= Numbers.MAX_UINT
    requires p <= q <= |t| && (p == 0 || (p == 1 && (t[0] == 45 || t[0] == 43))) && AllDigits(t[p..q])
    requires p < |t| && (t[p] == 46 || Numbers.IsDigit(t[p])) && Numbers.Floating(t, q, negative, mantissa).Some?
    ensures IsNumberToken(t)
  {
    hide Numbers.Shrink, Numbers.ExtraDigits, Numbers.Fraction, Numbers.Scaled, Numbers.Wrap16;
    hide Numbers.Pow10, AllDigits, IsExponentText, WithoutSign, IsNumberToken;
    var (m, shift) := Numbers.Shrink(mantissa, 0);
    var (offset, r) := Numbers.ExtraDigits(t, q, shift);
    WholeWritten(t, p, q, mantissa);
    if r < |t| && t[r] == 46 {
      var (m', offset', u) := Numbers.Fraction(t, r + 1, m, offset);
      Numbers.FractionBound(t, r + 1, m, offset);
      FractionDigits(t, r + 1, m, offset);
      TailWritten(t, u, negative, m', offset');
      PartsMakeToken(t, p, r, u);
    } else {
      TailWritten(t, r, negative, m, offset);
      PartsMakeToken(t, p, r, r);
    }
  }

  lemma WholeWritten(t: Bytes, p: nat, q: nat, mantissa: nat)
    requires p <= q <= |t| <= 63 && AllDigits(t[p..q]) && mantissa <= Numbers.MAX_UINT
    ensures var (offset, r) := Numbers.ExtraDigits(t, q, Numbers.Shrink(mantissa, 0).1);
      0 <= offset <= 83 && AllDigits(t[p..r])
  {
    hide Numbers.Shrink, Numbers.ExtraDigits, Numbers.Wrap16, Numbers.Pow10, AllDigits;
    var shift := Numbers.Shrink(mantissa, 0).1;
    Numbers.Pow10Of20();
    Numbers.ShrinkBound(mantissa, 0, 20);
    var r := Numbers.ExtraDigits(t, q, shift).1;
    Numbers.ExtraDigitsBound(t, q, shift);
    ExtraAreDigits(t, q, shift);
    BothAreDigits(t[p..q], t[q..r]);
    Glue(t, p, q, r);
  }

  lemma BothAreDigits(a: Bytes, b: Bytes)
    requires AllDigits(a) && AllDigits(b)
    ensures AllDigits(a + b)
  {
  }

  // ---- Values ----

  lemma NumberWritten(s: Bytes, p: nat) returns (x: Json)
    requires p <= |s| && ParseNumeric(s, p).Ok?
    ensures IsWritten(x) && x.Number? && s[p..ParseNumeric(s, p).pos] == Spelled(x)
  {
    hide Numbers.ParseNumber, NumberEnd, IsNumberToken;
    var q := NumberEnd(s, p, MAX_TOKEN);
    TokenChars(s, p, MAX_TOKEN);
    NumberShape(s[p..q]);
    var num := NumberText(false, s[p..q], [], D.Mark(false, false), false, []);
    assert SpelledNumber(num) == s[p..q];
    x := Number(num);
  }

  lemma TokenWritten(s: Bytes, p: nat) returns (x: Json)
    requires p < |s| && Peek(s, p) != 0 && ReadToken(s, p).Ok?
    ensures IsWritten(x) && s[p..ReadToken(s, p).pos] == Spelled(x)
    ensures x.Number? <==> ReadToken(s, p).val.Int? || ReadToken(s, p).val.Float?
  {
    hide ParseNumeric, ParseQuoted, SpelledChars;
    var c, end := s[p], ReadToken(s, p).pos;
    if IsQuote(c) {
      var chars := CharsWritten(s, p + 1, c, 0, []);
      GlueOne(s, p, end);
      x := Text(c, chars);
    } else if c == 116 || c == 102 || c == 110 {
      x := Word(if c == 116 then Some(true) else if c == 102 then Some(false) else None);
    } else {
      x := NumberWritten(s, p);
    }
  }

  /** What is read as a value is white space and a text. */
  lemma {:induction false} ValueWritten(s: Bytes, p: nat, limit: nat, found: bool) returns (before: Bytes, x: Json)
    requires p <= |s| && ReadVariant(s, p, limit, found).Ok?
    ensures IsBlank(before) && IsWritten(x)
    ensures var r := ReadVariant(s, p, limit, found);
      s[p..r.pos] == before + Spelled(x) && (x.Number? <==> r.val.Int? || r.val.Float?)
    decreases |s| - p, 2
  {
    hide ReadToken, Spelled, IsWritten, ReadArray, ReadObject;
    var q, end := SkipSpaces(s, p), ReadVariant(s, p, limit, found).pos;
    SpacesAreBlank(s, p);
    before := s[p..q];
    Glue(s, p, q, end);
    if Peek(s, q) == LEFT_BRACKET {
      x := ArrayWritten(s, q, limit);
    } else if Peek(s, q) == LEFT_BRACE {
      x := ObjectWritten(s, q, limit);
    } else {
      x := TokenWritten(s, q);
    }
  }

  lemma {:induction false} ArrayWritten(s: Bytes, p: nat, limit: nat) returns (x: Json)
    requires p < |s| && s[p] == 91 && ReadArray(s, p, limit).Ok?
    ensures IsWritten(x) && !x.Number? && s[p..ReadArray(s, p, limit).pos] == Spelled(x)
    decreases |s| - p, 1
  {
    hide ReadElems, SpelledItems, IsWrittenItem;
    var q, end := SkipSpaces(s, p + 1), ReadArray(s, p, limit).pos;
    GlueOne(s, p, end);
    if Peek(s, q) == RIGHT_BRACKET {
      SpacesAreBlank(s, p + 1);
      Glue(s, p + 1, q, end);
      x := Array(s[p + 1..q], []);
    } else {
      SameElems(s, p + 1, q, limit);
      var items := ItemsWritten(s, p + 1, limit);
      x := Array([], items);
    }
  }

  lemma SameElems(s: Bytes, p: nat, q: nat, limit: nat)
    requires p <= |s| && q == SkipSpaces(s, p) && limit > 0
    ensures ReadElems(s, p, limit) == ReadElems(s, q, limit)
  {
    assert Space(s, p, true) == Space(s, q, true);
    assert ReadVariant(s, p, limit - 1, true) == ReadVariant(s, q, limit - 1, true);
  }

  lemma {:induction false} ItemsWritten(s: Bytes, p: nat, limit: nat) returns (items: seq<Item>)
    requires p <= |s| && limit > 0 && ReadElems(s, p, limit).Ok?
    ensures items != [] && forall i :: 0 <= i < |items| ==> IsWrittenItem(items[i])
    ensures s[p..ReadElems(s, p, limit).pos] == SpelledItems(items)
    decreases |s| - p, 3
  {
    hide ReadVariant, Spelled, SpelledItem, SpelledItems, IsWritten, IsBlank;
    var end := ReadElems(s, p, limit).pos;
    var before, x := ValueWritten(s, p, limit - 1, true);
    var q := ReadVariant(s, p, limit - 1, true).pos;
    var r := SkipSpaces(s, q);
    SpacesAreBlank(s, q);
    var item := Item(before, x, s[q..r]);
    ItemSpelled(s, p, q, r, item);
    items := [item];
    if Peek(s, r) != RIGHT_BRACKET {
      var rest := ItemsWritten(s, r + 1, limit);
      items := [item] + rest;
      assert items[1..] == rest;
    }
    ItemsSpelled(s, p, r, end, items);
  }

  lemma ItemsSpelled(s: Bytes, p: nat, r: nat, end: nat, items: seq<Item>)
    requires p <= r < end <= |s| && items != [] && s[p..r] == SpelledItem(items[0])
    requires if |items| == 1 then s[r] == 93 && end == r + 1
             else s[r] == 44 && s[r + 1..end] == SpelledItems(items[1..])
    ensures s[p..end] == SpelledItems(items)
  {
    hide SpelledItem;
    Glue(s, p, r, end);
    GlueOne(s, r, end);
  }

  lemma {:induction false} ObjectWritten(s: Bytes, p: nat, limit: nat) returns (x: Json)
    requires p < |s| && s[p] == 123 && ReadObject(s, p, limit).Ok?
    ensures IsWritten(x) && !x.Number? && s[p..ReadObject(s, p, limit).pos] == Spelled(x)
    decreases |s| - p, 1
  {
    hide ReadMembers, SpelledPairs, IsWrittenPair;
    var q, end := SkipSpaces(s, p + 1), ReadObject(s, p, limit).pos;
    GlueOne(s, p, end);
    SpacesAreBlank(s, p + 1);
    if Peek(s, q) == RIGHT_BRACE {
      Glue(s, p + 1, q, end);
      x := Object(s[p + 1..q], []);
    } else {
      var pairs := PairsWritten(s, p + 1, q, limit);
      x := Object([], pairs);
    }
  }

  /** White space from `b` on, and members from `p` on. */
  lemma {:induction false} PairsWritten(s: Bytes, b: nat, p: nat, limit: nat) returns (pairs: seq<Pair>)
    requires b <= p <= |s| && IsBlank(s[b..p]) && limit > 0 && ReadMembers(s, p, limit).Ok?
    ensures pairs != [] && forall i :: 0 <= i < |pairs| ==> IsWrittenPair(pairs[i])
    ensures s[b..ReadMembers(s, p, limit).pos] == SpelledPairs(pairs)
    decreases |s| - p, 4
  {
    hide ReadMember, SpelledFromName, SpelledPairs, IsWrittenPair, IsBlank;
    var end := ReadMembers(s, p, limit).pos;
    var q := ReadMember(s, p, limit).pos;
    var r := SkipSpaces(s, q);
    SpacesAreBlank(s, q);
    var pair := PairWritten(s, s[b..p], p, q, r, limit);
    pairs := [pair];
    if Peek(s, r) != RIGHT_BRACE {
      var n := SkipSpaces(s, r + 1);
      SpacesAreBlank(s, r + 1);
      var rest := PairsWritten(s, r + 1, n, limit);
      pairs := [pair] + rest;
      assert pairs[1..] == rest;
    }
    PairsSpelled(s, b, p, r, end, pairs);
  }

  lemma PairsSpelled(s: Bytes, b: nat, p: nat, r: nat, end: nat, pairs: seq<Pair>)
    requires b <= p <= r < end <= |s| && pairs != []
    requires s[b..p] == pairs[0].before && s[p..r] == SpelledFromName(pairs[0])
    requires if |pairs| == 1 then s[r] == 125 && end == r + 1
             else s[r] == 44 && s[r + 1..end] == SpelledPairs(pairs[1..])
    ensures s[b..end] == SpelledPairs(pairs)
  {
    hide SpelledFromName;
    Glue(s, b, p, end);
    Glue(s, p, r, end);
    GlueOne(s, r, end);
  }

  lemma {:induction false} PairWritten(s: Bytes, blank: Bytes, p: nat, q: nat, r: nat, limit: nat) returns (pair: Pair)
    requires p <= q <= r <= |s| && limit > 0 && ReadMember(s, p, limit).Ok? && ReadMember(s, p, limit).pos == q
    requires IsBlank(blank) && IsBlank(s[q..r])
    ensures IsWrittenPair(pair) && pair.before == blank && s[p..r] == SpelledFromName(pair)
    decreases |s| - p, 3
  {
    hide ReadVariant, ParseKey, Spelled, SpelledName, SpelledItem, SpelledFromName, IsWritten, IsWrittenName, IsBlank;
    var name := NameWritten(s, p);
    var k := ParseKey(s, p).pos;
    var c := SkipSpaces(s, k);
    SpacesAreBlank(s, k);
    var before, x := ValueWritten(s, c + 1, limit - 1, true);
    var item := Item(before, x, s[q..r]);
    ItemSpelled(s, c + 1, q, r, item);
    pair := Pair(blank, name, s[k..c], item);
    FromNameSpelled(s, p, k, c, r, pair);
  }

  lemma ItemSpelled(s: Bytes, p: nat, q: nat, r: nat, item: Item)
    requires p <= q <= r <= |s| && s[p..q] == item.before + Spelled(item.val) && s[q..r] == item.after
    ensures s[p..r] == SpelledItem(item)
  {
    hide Spelled;
    Glue(s, p, q, r);
  }

  lemma FromNameSpelled(s: Bytes, p: nat, k: nat, c: nat, r: nat, pair: Pair)
    requires p <= k <= c < r <= |s| && s[c] == 58
    requires s[p..k] == SpelledName(pair.name) && s[k..c] == pair.afterName && s[c + 1..r] == SpelledItem(pair.item)
    ensures s[p..r] == SpelledFromName(pair)
  {
    hide SpelledName, SpelledItem;
    Glue(s, p, k, r);
    Glue(s, k, c, r);
    GlueOne(s, c, r);
  }

  /** Every accepted input begins, after white space, with a text of this grammar; nothing follows
      it when it is a number. */
  lemma AcceptedIsWritten(s: Bytes, limit: nat) returns (before: Bytes, x: Json)
    requires Parse(s, Bool(true), limit).Ok?
    ensures IsBlank(before) && IsWritten(x)
    ensures var end := Parse(s, Bool(true), limit).pos;
      end <= |s| && s[..end] == before + Spelled(x) && (x.Number? ==> Peek(s, end) == 0)
  {
    hide ReadVariant, Spelled, IsWritten;
    UnfilteredIsReading(s, limit);
    before, x := ValueWritten(s, 0, limit, false);
  }
}
