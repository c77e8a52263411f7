/** JSON texts as RFC 8259 spells them, byte by byte, and what they mean: the parser accepts
    them with that meaning, and the printers write them. */
module JsonGrammar {
  import opened Values
  import opened Unicode
  import opened JsonText
  import opened JsonReading
  import JsonUnicode
  import JsonFilter
  import JsonDepth
  import Numbers
  import D = Decimals
  import P = JsonPrinter

  // ---- The grammar ----

  /** A character of a string: a byte that stands for itself, an escape of one letter, or the
      escape of a code point, in four hexadecimal digits or two times four. */
  datatype Char = Plain(c: Byte) | Letter(letter: Byte) | Point(cp: nat, text: Bytes)

  /** A number: a sign, digits, the digits after a point, and an exponent. */
  datatype NumberText = NumberText(
    negative: bool, whole: Bytes, frac: Bytes, mark: D.Mark, negativeExp: bool, exp: Bytes)

  /** A string between its quotes, or a bare key. */
  datatype Name = Quoted(quote: Byte, chars: seq<Char>) | Bare(text: Bytes)

  /** A text and its parts; white space stands where the grammar allows it. */
  datatype Json =
    | Word(b: Option<bool>)
    | Number(num: NumberText)
    | Text(quote: Byte, chars: seq<Char>)
    | Array(blank: Bytes, items: seq<Item>)
    | Object(blank: Bytes, pairs: seq<Pair>)

  datatype Item = Item(before: Bytes, val: Json, after: Bytes)

  datatype Pair = Pair(before: Bytes, name: Name, afterName: Bytes, item: Item)

  predicate IsBlank(t: Bytes) { forall i :: 0 <= i < |t| ==> t[i] == 32 || t[i] == 9 || t[i] == 10 || t[i] == 13 }

  predicate AllDigits(t: Bytes) { forall i :: 0 <= i < |t| ==> 48 <= t[i] <= 57 }

  /** The letters of the short escapes, and the byte each stands for. */
  function LetterMeaning(letter: Byte): Option<Byte> {
    if letter == 34 then Some(34)
    else if letter == 92 then Some(92)
    else if letter == 47 then Some(47)
    else if letter == 98 then Some(8)
    else if letter == 102 then Some(12)
    else if letter == 110 then Some(10)
    else if letter == 114 then Some(13)
    else if letter == 116 then Some(9)
    else None
  }

  predicate IsChar(ch: Char, quote: Byte) {
    match ch
    case Plain(c) => c != 0 && c != quote && c != 92
    case Letter(letter) => LetterMeaning(letter).Some?
    case Point(cp, text) => JsonUnicode.IsScalar(cp) && JsonUnicode.EscapesPoint(text, cp)
  }

  predicate IsString(quote: Byte, chars: seq<Char>) {
    (quote == 34 || quote == 39) && forall i :: 0 <= i < |chars| ==> IsChar(chars[i], quote)
  }

  predicate IsName(name: Name) {
    match name
    case Quoted(quote, chars) => IsString(quote, chars)
    case Bare(text) =>
      text != [] && forall i :: 0 <= i < |text| ==> 48 <= text[i] <= 57 || 65 <= text[i] <= 90 || 95 <= text[i] <= 122
  }

  predicate IsNumber(num: NumberText) {
    num.whole != [] && AllDigits(num.whole) && AllDigits(num.frac) && AllDigits(num.exp)
  }

  /** What the parser takes for JSON: besides the texts of the RFC, strings in single quotes or
      with control characters, bare keys, and leading zeros. */
  predicate IsJson(x: Json) {
    match x
    case Word(_) => true
    case Number(num) => IsNumber(num)
    case Text(quote, chars) => IsString(quote, chars)
    case Array(blank, items) => IsBlank(blank) && forall i :: 0 <= i < |items| ==> IsItem(items[i])
    case Object(blank, pairs) => IsBlank(blank) && forall i :: 0 <= i < |pairs| ==> IsPair(pairs[i])
  }

  predicate IsItem(item: Item) { IsBlank(item.before) && IsBlank(item.after) && IsJson(item.val) }

  predicate IsPair(pair: Pair) {
    IsBlank(pair.before) && IsName(pair.name) && IsBlank(pair.afterName) && IsItem(pair.item)
  }

  // ---- Spelling ----

  function SpelledChar(ch: Char): Bytes {
    match ch
    case Plain(c) => [c]
    case Letter(letter) => [92, letter]
    case Point(_, text) => text
  }

  function SpelledChars(chars: seq<Char>): Bytes {
    if chars == [] then [] else SpelledChar(chars[0]) + SpelledChars(chars[1..])
  }

  function SpelledName(name: Name): Bytes {
    match name
    case Quoted(quote, chars) => [quote] + (SpelledChars(chars) + [quote])
    case Bare(text) => text
  }

  function SpelledFraction(frac: Bytes): Bytes { if frac == [] then [] else [46] + frac }

  function SpelledExponent(num: NumberText): Bytes {
    var sign := if num.negativeExp then [45] else if num.mark.plus then [43] else [];
    if num.exp == [] then [] else [if num.mark.upper then 69 else 101] + (sign + num.exp)
  }

  function SpelledNumber(num: NumberText): Bytes {
    (if num.negative then [45] else []) + (num.whole + (SpelledFraction(num.frac) + SpelledExponent(num)))
  }

  function Spelled(x: Json): Bytes
    decreases x, 0
  {
    match x
    case Word(None) => [110, 117, 108, 108]
    case Word(Some(b)) => if b then [116, 114, 117, 101] else [102, 97, 108, 115, 101]
    case Number(num) => SpelledNumber(num)
    case Text(quote, chars) => [quote] + (SpelledChars(chars) + [quote])
    case Array(blank, items) => [91] + if items == [] then blank + [93] else SpelledItems(items)
    case Object(blank, pairs) => [123] + if pairs == [] then blank + [125] else SpelledPairs(pairs)
  }

  function SpelledItem(item: Item): Bytes
    decreases item, 1
  {
    item.before + (Spelled(item.val) + item.after)
  }

  /** Items between commas, and the bracket. */
  function SpelledItems(items: seq<Item>): Bytes
    requires items != []
    decreases items, 2
  {
    SpelledItem(items[0]) + if |items| == 1 then [93] else [44] + SpelledItems(items[1..])
  }

  /** A key, a colon and a value, from the key on. */
  function SpelledFromName(pair: Pair): Bytes
    decreases pair, 2
  {
    SpelledName(pair.name) + (pair.afterName + ([58] + SpelledItem(pair.item)))
  }

  function SpelledPairs(pairs: seq<Pair>): Bytes
    requires pairs != []
    decreases pairs, 3
  {
    pairs[0].before + (SpelledFromName(pairs[0]) + if |pairs| == 1 then [125] else [44] + SpelledPairs(pairs[1..]))
  }

  // ---- Meaning ----

  function CharMeaning(ch: Char): Bytes {
    match ch
    case Plain(c) => [c]
    case Letter(letter) => if LetterMeaning(letter).Some? then [LetterMeaning(letter).value] else []
    case Point(cp, _) => if cp < 0x110000 then Utf8(cp) else []
  }

  function CharsMeaning(chars: seq<Char>): Bytes {
    if chars == [] then [] else CharMeaning(chars[0]) + CharsMeaning(chars[1..])
  }

  function NameMeaning(name: Name): Bytes {
    match name
    case Quoted(_, chars) => CharsMeaning(chars)
    case Bare(text) => text
  }

  /** An integer when it is written as one and fits 64 bits; else the decimal number, cut off to
      the digits that a double holds. */
  ghost function NumberMeaning(num: NumberText): Value
    requires IsNumber(num)
  {
    assert D.Digits(num.whole) && D.Digits(num.frac) && D.Digits(num.exp);
    var n := D.Value(0, num.whole);
    if num.frac != [] then
      assert D.Digits(num.whole + num.frac);
      Float(D.ScaledBy(num.negative, D.WithoutLast(D.Value(0, num.whole + num.frac), D.Lost(num.whole, num.frac)),
                       D.DigitsExponent(num.whole, num.frac), num.negativeExp, num.exp))
    else if num.exp != [] then
      Float(D.ScaledBy(num.negative, D.WholeMantissa(num.whole), D.WholeExponent(num.whole), num.negativeExp, num.exp))
    else if n <= (if num.negative then 9223372036854775808 else 18446744073709551615) then
      Int(if num.negative then 0 - n else n)
    else Float(FloatLit.Decimal(num.negative, D.WholeMantissa(num.whole), D.WholeExponent(num.whole)))
  }

  ghost function Meaning(x: Json): Value
    requires IsJson(x)
    decreases x, 0
  {
    match x
    case Word(None) => Null
    case Word(Some(b)) => Bool(b)
    case Number(num) => NumberMeaning(num)
    case Text(_, chars) => Str(CharsMeaning(chars))
    case Array(_, items) => Arr(ItemsMeaning(items))
    case Object(_, pairs) => Obj(PairsMeaning(pairs))
  }

  ghost function ItemsMeaning(items: seq<Item>): seq<Value>
    requires forall i :: 0 <= i < |items| ==> IsItem(items[i])
    decreases items, 1
  {
    if items == [] then []
    else
      assert IsItem(items[0]);
      [Meaning(items[0].val)] + ItemsMeaning(items[1..])
  }

  ghost function PairsMeaning(pairs: seq<Pair>): seq<Member>
    requires forall i :: 0 <= i < |pairs| ==> IsPair(pairs[i])
    decreases pairs, 1
  {
    if pairs == [] then []
    else
      assert IsPair(pairs[0]) && IsItem(pairs[0].item);
      [Member(NameMeaning(pairs[0].name), Meaning(pairs[0].item.val))] + PairsMeaning(pairs[1..])
  }

  /** Every number is short enough for the parser's buffer of 63 characters. */
  predicate IsShort(x: Json) {
    match x
    case Number(num) => |SpelledNumber(num)| <= 63
    case Array(_, items) => forall i :: 0 <= i < |items| ==> IsShort(items[i].val)
    case Object(_, pairs) => forall i :: 0 <= i < |pairs| ==> IsShort(pairs[i].item.val)
    case _ => true
  }

  predicate IsNumberChar(c: Byte) { 48 <= c <= 57 || c == 43 || c == 45 || c == 46 || c == 69 || c == 101 }

  // ---- White space ----

  lemma BlankSkipped(s: Bytes, p: nat, blank: Bytes, found: bool)
    requires IsBlank(blank) && OccursAt(s, p, blank)
    requires var c := Peek(s, p + |blank|); c != 0 && c != 32 && c != 9 && c != 10 && c != 13
    ensures Space(s, p, found) == At(p + |blank|)
  {
    P.SpaceBefore(s, p, blank, found);
  }

  // ---- Strings ----

  lemma {:induction false} CharsStand(s: Bytes, p: nat, stop: Byte, chars: seq<Char>, high: nat, acc: Bytes)
    requires IsString(stop, chars) && high < 0x400 && OccursAt(s, p, SpelledChars(chars) + [stop])
    ensures ParseQuoted(s, p, stop, high, acc) == Ok(acc + CharsMeaning(chars), p + |SpelledChars(chars)| + 1)
    decreases |chars|
  {
    hide OccursAt, ParseQuoted, IsChar, SpelledChar, CharMeaning;
    if chars == [] {
      assert SpelledChars(chars) + [stop] == [stop];
      OccursFirst(s, p, [stop]);
      StringCloses(s, p, stop, high, acc);
      assert acc + CharsMeaning(chars) == acc;
    } else {
      var first, rest := SpelledChar(chars[0]), SpelledChars(chars[1..]) + [stop];
      assert SpelledChars(chars) + [stop] == first + rest;
      OccursSplit(s, p, first, rest);
      var h := CharStands(s, p, stop, chars[0], high, acc);
      CharsStand(s, p + |first|, stop, chars[1..], h, acc + CharMeaning(chars[0]));
      assert acc + CharMeaning(chars[0]) + CharsMeaning(chars[1..]) == acc + CharsMeaning(chars);
    }
  }

  lemma StringCloses(s: Bytes, p: nat, stop: Byte, high: nat, acc: Bytes)
    requires p < |s| && Peek(s, p) == stop != 0 && high < 0x400
    ensures ParseQuoted(s, p, stop, high, acc) == Ok(acc, p + 1)
  {
  }

  lemma CharStands(s: Bytes, p: nat, stop: Byte, ch: Char, high: nat, acc: Bytes) returns (h: nat)
    requires (stop == 34 || stop == 39) && IsChar(ch, stop) && high < 0x400 && OccursAt(s, p, SpelledChar(ch))
    ensures h < 0x400 && p + |SpelledChar(ch)| <= |s|
    ensures ParseQuoted(s, p, stop, high, acc) == ParseQuoted(s, p + |SpelledChar(ch)|, stop, h, acc + CharMeaning(ch))
  {
    match ch
    case Plain(c) =>
      OccursFirst(s, p, [c]);
      h := high;
    case Letter(letter) =>
      LetterStands(s, p, stop, letter, high, acc);
      h := high;
    case Point(cp, text) =>
      h := JsonUnicode.PointParses(s, p, stop, cp, text, high, acc);
  }

  lemma LetterStands(s: Bytes, p: nat, stop: Byte, letter: Byte, high: nat, acc: Bytes)
    requires (stop == 34 || stop == 39) && LetterMeaning(letter).Some? && high < 0x400 && OccursAt(s, p, [92, letter])
    ensures p + 2 <= |s|
    ensures ParseQuoted(s, p, stop, high, acc) == ParseQuoted(s, p + 2, stop, high, acc + [LetterMeaning(letter).value])
  {
    assert s[p..p + 2][0] == Peek(s, p) && s[p..p + 2][1] == Peek(s, p + 1);
    LetterIsUnescaped(letter);
    assert ReadEscape(s, p + 1, high) == Ok(Escape([LetterMeaning(letter).value], high), p + 2);
  }

  lemma LetterIsUnescaped(letter: Byte)
    requires LetterMeaning(letter).Some?
    ensures UnescapeChar(letter) == LetterMeaning(letter).value != 0 && letter != 117 && letter != 0
  {
  }

  lemma StringStands(s: Bytes, p: nat, quote: Byte, chars: seq<Char>)
    requires IsString(quote, chars) && OccursAt(s, p, [quote] + (SpelledChars(chars) + [quote]))
    ensures p < |s| && s[p] == quote
    ensures ParseQuoted(s, p + 1, quote, 0, []) == Ok(CharsMeaning(chars), p + |SpelledChars(chars)| + 2)
  {
    hide OccursAt, ParseQuoted;
    OccursSplit(s, p, [quote], SpelledChars(chars) + [quote]);
    OccursFirst(s, p, [quote]);
    CharsStand(s, p + 1, quote, chars, 0, []);
    assert [] + CharsMeaning(chars) == CharsMeaning(chars);
  }

  lemma {:induction false} BareStands(s: Bytes, p: nat, text: Bytes)
    requires forall i :: 0 <= i < |text| ==> CanBeInNonQuotedString(text[i])
    requires OccursAt(s, p, text) && !CanBeInNonQuotedString(Peek(s, p + |text|))
    ensures p <= |s| && NonQuotedEnd(s, p) == p + |text|
    decreases |text|
  {
    if text != [] {
      OccursFirst(s, p, text);
      assert text == text[..1] + text[1..];
      OccursSplit(s, p, text[..1], text[1..]);
      BareStands(s, p + 1, text[1..]);
    }
  }

  /** After a key comes white space or a colon. */
  lemma NameStands(s: Bytes, p: nat, name: Name)
    requires IsName(name) && OccursAt(s, p, SpelledName(name))
    requires var c := Peek(s, p + |SpelledName(name)|); c == 32 || c == 9 || c == 10 || c == 13 || c == 58
    ensures p < |s| && p + |SpelledName(name)| <= |s|
    ensures ParseKey(s, p) == Ok(NameMeaning(name), p + |SpelledName(name)|)
    ensures s[p] != 0 && s[p] != 32 && s[p] != 9 && s[p] != 10 && s[p] != 13 && s[p] != 125
  {
    hide ParseQuoted, NonQuotedEnd;
    match name
    case Quoted(quote, chars) => StringStands(s, p, quote, chars);
    case Bare(text) =>
      OccursFirst(s, p, text);
      BareStands(s, p, text);
  }

  // ---- Numbers ----

  lemma NumberParses(num: NumberText)
    requires IsNumber(num)
    ensures Numbers.ParseNumber(SpelledNumber(num)) == Some(NumberMeaning(num))
  {
    hide Numbers.ParseNumber, D.Value, D.ScaledBy, D.WithoutLast, D.Lost, D.DigitsExponent, D.WholeMantissa;
    hide D.WholeExponent;
    assert D.Digits(num.whole) && D.Digits(num.frac) && D.Digits(num.exp);
    var sign := if num.negative then [45] else [];
    if num.frac != [] {
      D.DecimalTextIsTruncated(num.negative, num.whole, num.frac, num.mark, num.negativeExp, num.exp);
      DecimalSpelled(num);
    } else if num.exp != [] {
      D.ScaledTextIsTruncated(num.negative, num.whole, num.mark, num.negativeExp, num.exp);
      ScaledSpelled(num);
    } else {
      assert SpelledNumber(num) == D.Sign(num.negative) + num.whole;
      D.NumberConstants();
      if D.Value(0, num.whole) <= (if num.negative then 9223372036854775808 else 18446744073709551615) {
        D.SmallIntegers(num.negative, num.whole);
      } else {
        D.LargeIntegers(num.negative, num.whole);
      }
    }
  }

  lemma DecimalSpelled(num: NumberText)
    requires num.frac != []
    ensures SpelledNumber(num) == D.DecimalText(num.negative, num.whole, num.frac, num.mark, num.negativeExp, num.exp)
  {
    var tail := D.ExponentText(num.mark, num.negativeExp, num.exp);
    assert ([46] + num.frac) + tail == [46] + (num.frac + tail);
  }

  lemma ScaledSpelled(num: NumberText)
    requires num.frac == [] && num.exp != []
    ensures SpelledNumber(num)
      == D.Sign(num.negative) + (num.whole + D.ExponentText(num.mark, num.negativeExp, num.exp))
  {
    var tail := D.ExponentText(num.mark, num.negativeExp, num.exp);
    assert [] + tail == tail;
  }

  predicate AllNumberChars(t: Bytes) { forall i :: 0 <= i < |t| ==> CanBeInNumber(t[i]) }

  lemma BothNumberChars(a: Bytes, b: Bytes)
    requires AllNumberChars(a) && AllNumberChars(b)
    ensures AllNumberChars(a + b)
  {
  }

  lemma NumberChars(num: NumberText)
    requires IsNumber(num)
    ensures var t := SpelledNumber(num);
      && t != [] && (t[0] == 45 || 48 <= t[0] <= 57) && forall i :: 0 <= i < |t| ==> CanBeInNumber(t[i])
  {
    var sign := if num.negativeExp then [45] else if num.mark.plus then [43] else [];
    var frac, exp := SpelledFraction(num.frac), SpelledExponent(num);
    assert AllNumberChars(num.whole) && AllNumberChars(num.frac) && AllNumberChars(num.exp) && AllNumberChars(sign);
    BothNumberChars(sign, num.exp);
    BothNumberChars([if num.mark.upper then 69 else 101], sign + num.exp);
    BothNumberChars([46], num.frac);
    BothNumberChars(frac, exp);
    BothNumberChars(num.whole, frac + exp);
    BothNumberChars(if num.negative then [45] else [], num.whole + (frac + exp));
  }

  lemma {:induction false} LongToken(s: Bytes, p: nat, t: Bytes, room: nat)
    requires OccursAt(s, p, t) && |t| > room && forall i :: 0 <= i < |t| ==> CanBeInNumber(t[i])
    ensures p <= |s| && NumberEnd(s, p, room) == p + room && CanBeInNumber(Peek(s, p + room))
    decreases room
  {
    OccursFirst(s, p, t);
    if room > 0 {
      assert t == t[..1] + t[1..];
      OccursSplit(s, p, t[..1], t[1..]);
      LongToken(s, p + 1, t[1..], room - 1);
    }
  }

  /** A number is read whole when it is short; else reading stops inside it or fails. */
  lemma NumberStands(s: Bytes, p: nat, num: NumberText)
    requires IsNumber(num) && OccursAt(s, p, SpelledNumber(num)) && !IsNumberChar(Peek(s, p + |SpelledNumber(num)|))
    ensures p < |s| && (s[p] == 45 || 48 <= s[p] <= 57)
    ensures var r := ReadToken(s, p);
      if |SpelledNumber(num)| <= 63 then r == Ok(NumberMeaning(num), p + |SpelledNumber(num)|)
      else r.Ok? ==> CanBeInNumber(Peek(s, r.pos)) && !IsEnclosed(r.val)
  {
    hide Numbers.ParseNumber, NumberMeaning, SpelledNumber, NumberEnd;
    var t := SpelledNumber(num);
    NumberChars(num);
    OccursFirst(s, p, t);
    NumberParses(num);
    if |t| <= 63 {
      P.TokenEnd(s, p, t, 63);
      assert s[p..p + |t|] == t;
    } else {
      LongToken(s, p, t, 63);
    }
  }

  // ---- Words, arrays and objects ----

  lemma WordStands(s: Bytes, p: nat, b: Option<bool>)
    requires OccursAt(s, p, Spelled(Word(b)))
    ensures p < |s| && s[p] == Spelled(Word(b))[0]
    ensures ReadToken(s, p) == Ok(Meaning(Word(b)), p + |Spelled(Word(b))|)
  {
    hide SkipKeyword;
    OccursFirst(s, p, Spelled(Word(b)));
  }

  /** No text starts like white space or with a closing bracket. */
  lemma Starts(x: Json)
    requires IsJson(x)
    ensures var t := Spelled(x);
      && t != [] && t[0] != 0 && t[0] != 32 && t[0] != 9 && t[0] != 10 && t[0] != 13 && t[0] != 93
      && (t[0] == 91 <==> x.Array?) && (t[0] == 123 <==> x.Object?)
  {
    hide SpelledItems, SpelledPairs, SpelledChars, SpelledNumber, IsNumber, IsString;
    match x
    case Number(num) => NumberChars(num);
    case Text(quote, _) => assert quote == 34 || quote == 39 by { StringQuote(x); }
    case _ =>
  }

  lemma StringQuote(x: Json)
    requires IsJson(x) && x.Text?
    ensures x.quote == 34 || x.quote == 39
  {
  }

  /** What follows an item: white space or the next separator, and no number goes on there. */
  lemma AfterItem(s: Bytes, p: nat, blank: Bytes, c: Byte)
    requires IsBlank(blank) && OccursAt(s, p, blank + [c]) && (c == 44 || c == 93 || c == 125 || c == 58)
    ensures p + |blank| < |s| && Peek(s, p + |blank|) == c && Space(s, p, true) == At(p + |blank|)
    ensures !IsNumberChar(Peek(s, p)) && (blank != [] ==> Peek(s, p) == blank[0]) && (blank == [] ==> Peek(s, p) == c)
  {
    hide OccursAt, Space;
    OccursSplit(s, p, blank, [c]);
    OccursFirst(s, p + |blank|, [c]);
    if blank != [] {
      OccursFirst(s, p, blank);
    }
    BlankSkipped(s, p, blank, true);
  }

  lemma BlankIsSpace(blank: Bytes)
    requires IsBlank(blank)
    ensures forall i :: 0 <= i < |blank| ==> IsSpace(blank[i])
  {
  }

  /** Wherever a text stands, it is read as its meaning, keys cut at a NUL. */
  lemma {:induction false} TextStands(s: Bytes, p: nat, x: Json, limit: nat, found: bool)
    requires IsJson(x) && IsShort(x) && Nesting(Meaning(x)) <= limit && OccursAt(s, p, Spelled(x))
    requires x.Number? ==> !IsNumberChar(Peek(s, p + |Spelled(x)|))
    ensures p <= |s| && ReadVariant(s, p, limit, found) == Ok(CutKeys(Meaning(x)), p + |Spelled(x)|)
    decreases x, 0
  {
    hide ReadArray, ReadObject, ReadToken, SpelledItems, SpelledPairs, NumberMeaning, SpelledNumber, IsNumber;
    hide ItemsMeaning, PairsMeaning, CutElems, CutMembers, NestingOfElems, NestingOfMembers, OccursAt;
    Starts(x);
    OccursFirst(s, p, Spelled(x));
    match x
    case Word(b) => WordStands(s, p, b);
    case Number(num) =>
      NumberStands(s, p, num);
      NumberIsPlain(num);
    case Text(quote, chars) =>
      StringStands(s, p, quote, chars);
      TextIsString(s, p, quote, chars);
    case Array(blank, items) => ArrayStands(s, p, blank, items, limit);
    case Object(blank, pairs) => ObjectStands(s, p, blank, pairs, limit);
  }

  lemma NumberIsPlain(num: NumberText)
    requires IsNumber(num)
    ensures var v := NumberMeaning(num); CutKeys(v) == v && Nesting(v) == 0 && !IsEnclosed(v)
  {
  }

  lemma TextIsString(s: Bytes, p: nat, quote: Byte, chars: seq<Char>)
    requires IsString(quote, chars) && p < |s| && s[p] == quote
    requires ParseQuoted(s, p + 1, quote, 0, []) == Ok(CharsMeaning(chars), p + |SpelledChars(chars)| + 2)
    ensures ReadToken(s, p) == Ok(Str(CharsMeaning(chars)), p + |SpelledChars(chars)| + 2)
  {
    hide ParseQuoted;
  }

  /** A closing bracket at once. */
  lemma EmptyStands(s: Bytes, p: nat, open: Byte, blank: Bytes, close: Byte)
    requires IsBlank(blank) && OccursAt(s, p, [open] + (blank + [close])) && (close == 93 || close == 125)
    ensures p < |s| && Space(s, p + 1, true) == At(p + 1 + |blank|) && Peek(s, p + 1 + |blank|) == close
    ensures p + |blank| + 2 <= |s|
  {
    hide OccursAt, Space;
    OccursSplit(s, p, [open], blank + [close]);
    AfterItem(s, p + 1, blank, close);
    OccursFirst(s, p, [open]);
  }

  lemma {:induction false} ArrayStands(s: Bytes, p: nat, blank: Bytes, items: seq<Item>, limit: nat)
    requires var x := Array(blank, items);
      IsJson(x) && IsShort(x) && Nesting(Meaning(x)) <= limit && OccursAt(s, p, Spelled(x))
    ensures p < |s|
    ensures ReadArray(s, p, limit) == Ok(CutElems(ItemsMeaning(items)), p + |Spelled(Array(blank, items))|)
    decreases items, 4
  {
    hide ReadElems, SpelledItems, Space, OccursAt, ItemsMeaning, NestingOfElems, IsItem, IsShort, IsBlank, CutElems;
    OccursFirst(s, p, Spelled(Array(blank, items)));
    if items == [] {
      EmptyStands(s, p, 91, blank, 93);
      NothingMeant();
    } else {
      OccursSplit(s, p, [91], SpelledItems(items));
      ShortItems(blank, items);
      ItemsStand(s, p + 1, items, limit);
      FirstItem(s, p + 1, items);
      P.ElemsAfterSpace(s, p + 1, items[0].before, limit) by {
        BlankIsSpace(items[0].before);
      }
    }
  }

  lemma NothingMeant()
    ensures CutElems(ItemsMeaning([])) == [] && CutMembers(PairsMeaning([])) == []
  {
  }

  lemma ShortItems(blank: Bytes, items: seq<Item>)
    requires IsJson(Array(blank, items)) && IsShort(Array(blank, items))
    ensures forall i :: 0 <= i < |items| ==> IsItem(items[i]) && IsShort(items[i].val)
    ensures Nesting(Meaning(Array(blank, items))) == 1 + NestingOfElems(ItemsMeaning(items))
  {
    hide NestingOfElems, IsItem;
  }

  /** Before the first item there is only white space. */
  lemma FirstItem(s: Bytes, p: nat, items: seq<Item>)
    requires items != [] && IsItem(items[0]) && OccursAt(s, p, SpelledItems(items))
    ensures var blank := items[0].before;
      && IsBlank(blank) && OccursAt(s, p, blank) && Space(s, p, true) == At(p + |blank|)
      && Peek(s, p + |blank|) != 93
  {
    hide OccursAt, Space, Spelled, IsJson, IsBlank;
    var item := items[0];
    assert IsBlank(item.before) && IsJson(item.val) by { ItemParts(item); }
    var more := if |items| == 1 then [93] else [44] + SpelledItems(items[1..]);
    var rest := Spelled(item.val) + item.after + more;
    assert SpelledItems(items) == item.before + rest;
    OccursSplit(s, p, item.before, rest);
    Starts(item.val);
    OccursFirst(s, p + |item.before|, rest);
    BlankSkipped(s, p, item.before, true);
  }

  lemma ItemParts(item: Item)
    requires IsItem(item)
    ensures IsBlank(item.before) && IsBlank(item.after) && IsJson(item.val)
  {
  }

  /** An item and the character after it. */
  lemma {:induction false} ItemStands(s: Bytes, p: nat, item: Item, c: Byte, limit: nat)
    requires IsItem(item) && IsShort(item.val) && Nesting(Meaning(item.val)) <= limit
    requires OccursAt(s, p, SpelledItem(item) + [c]) && (c == 44 || c == 93 || c == 125)
    ensures p <= |s|
    ensures ReadVariant(s, p, limit, true)
         == Ok(CutKeys(Meaning(item.val)), p + |item.before| + |Spelled(item.val)|)
    ensures ItemEnds(s, p, item, c)
    decreases item, 1
  {
    hide OccursAt, Spelled, Meaning, CutKeys, ReadVariant, Nesting, IsJson, IsBlank, IsShort;
    ItemParts(item);
    ItemSplit(s, p, item, c);
    TextStands(s, p + |item.before|, item.val, limit, true);
    P.VariantAfterSpace(s, p, item.before, limit) by {
      BlankIsSpace(item.before);
    }
  }

  /** The white space after an item ends at that character. */
  predicate ItemEnds(s: Bytes, p: nat, item: Item, c: Byte) {
    var q := p + |item.before| + |Spelled(item.val)|;
    && q <= |s| && Space(s, q, true) == At(p + |SpelledItem(item)|)
    && p + |SpelledItem(item)| < |s| && Peek(s, p + |SpelledItem(item)|) == c
  }

  lemma ItemSplit(s: Bytes, p: nat, item: Item, c: Byte)
    requires IsBlank(item.before) && IsBlank(item.after)
    requires OccursAt(s, p, SpelledItem(item) + [c]) && (c == 44 || c == 93 || c == 125)
    ensures OccursAt(s, p, item.before) && OccursAt(s, p + |item.before|, Spelled(item.val))
    ensures !IsNumberChar(Peek(s, p + |item.before| + |Spelled(item.val)|)) && ItemEnds(s, p, item, c)
  {
    hide OccursAt, Spelled, Space, IsBlank;
    var text := Spelled(item.val);
    assert SpelledItem(item) + [c] == item.before + (text + (item.after + [c]));
    OccursSplit(s, p, item.before, text + (item.after + [c]));
    OccursSplit(s, p + |item.before|, text, item.after + [c]);
    AfterItem(s, p + |item.before| + |text|, item.after, c);
  }

  lemma {:induction false} ItemsStand(s: Bytes, p: nat, items: seq<Item>, limit: nat)
    requires items != [] && forall i :: 0 <= i < |items| ==> IsItem(items[i]) && IsShort(items[i].val)
    requires NestingOfElems(ItemsMeaning(items)) < limit && OccursAt(s, p, SpelledItems(items))
    ensures p <= |s| && ReadElems(s, p, limit) == Ok(CutElems(ItemsMeaning(items)), p + |SpelledItems(items)|)
    decreases items, 3
  {
    hide OccursAt, SpelledItem, Spelled, Meaning, CutKeys, ReadVariant, Nesting, IsItem, IsShort, Space, ReadElems;
    hide CutElems, ItemsMeaning, NestingOfElems, SpelledItems;
    var item := items[0];
    assert IsItem(item) && IsShort(item.val);
    ItemParts(item);
    ItemsMeaningParts(items);
    var c: Byte := if |items| == 1 then 93 else 44;
    ItemsSplit(s, p, items);
    ItemStands(s, p, item, c, limit - 1);
    var q, r := p + |item.before| + |Spelled(item.val)|, p + |SpelledItem(item)|;
    var v := CutKeys(Meaning(item.val));
    if |items| > 1 {
      ItemsStand(s, r + 1, items[1..], limit);
      ElemsStep(s, p, limit, v, q, r, CutElems(ItemsMeaning(items[1..])), p + |SpelledItems(items)|);
    } else {
      ElemsStep(s, p, limit, v, q, r, [], 0);
      assert items[1..] == [];
      NothingMeant();
      assert [v] + [] == [v];
    }
  }

  lemma ItemsSplit(s: Bytes, p: nat, items: seq<Item>)
    requires items != [] && OccursAt(s, p, SpelledItems(items))
    ensures var r := p + |SpelledItem(items[0])|;
      && OccursAt(s, p, SpelledItem(items[0]) + [if |items| == 1 then 93 else 44])
      && (|items| == 1 ==> p + |SpelledItems(items)| == r + 1)
      && (|items| > 1 ==>
        OccursAt(s, r + 1, SpelledItems(items[1..])) && p + |SpelledItems(items)| == r + 1 + |SpelledItems(items[1..])|)
  {
    hide OccursAt, SpelledItem;
    var c: Byte := if |items| == 1 then 93 else 44;
    var more := if |items| == 1 then [] else SpelledItems(items[1..]);
    assert SpelledItems(items) == (SpelledItem(items[0]) + [c]) + more;
    OccursSplit(s, p, SpelledItem(items[0]) + [c], more);
  }

  lemma ItemsMeaningParts(items: seq<Item>)
    requires items != [] && forall i :: 0 <= i < |items| ==> IsItem(items[i])
    ensures IsJson(items[0].val) && (forall i :: 0 <= i < |items[1..]| ==> IsItem(items[1..][i]))
    ensures ItemsMeaning(items) == [Meaning(items[0].val)] + ItemsMeaning(items[1..])
    ensures CutElems(ItemsMeaning(items)) == [CutKeys(Meaning(items[0].val))] + CutElems(ItemsMeaning(items[1..]))
    ensures Nesting(Meaning(items[0].val)) <= NestingOfElems(ItemsMeaning(items))
    ensures NestingOfElems(ItemsMeaning(items[1..])) <= NestingOfElems(ItemsMeaning(items))
  {
    hide Meaning, CutKeys, Nesting, IsJson;
    ItemParts(items[0]);
    assert IsItem(items[0]);
    assert ItemsMeaning(items)[1..] == ItemsMeaning(items[1..]);
  }

  lemma {:induction false} ObjectStands(s: Bytes, p: nat, blank: Bytes, pairs: seq<Pair>, limit: nat)
    requires var x := Object(blank, pairs);
      IsJson(x) && IsShort(x) && Nesting(Meaning(x)) <= limit && OccursAt(s, p, Spelled(x))
    ensures p < |s|
    ensures ReadObject(s, p, limit) == Ok(CutMembers(PairsMeaning(pairs)), p + |Spelled(Object(blank, pairs))|)
    decreases pairs, 5
  {
    hide ReadMembers, SpelledPairs, Space, OccursAt, PairsMeaning, NestingOfMembers, IsPair, IsShort, IsBlank;
    hide CutMembers;
    OccursFirst(s, p, Spelled(Object(blank, pairs)));
    if pairs == [] {
      EmptyStands(s, p, 123, blank, 125);
      NothingMeant();
    } else {
      OccursSplit(s, p, [123], SpelledPairs(pairs));
      ShortPairs(blank, pairs);
      PairsStand(s, p + 1, pairs, limit);
      FirstPair(s, p + 1, pairs);
    }
  }

  lemma ShortPairs(blank: Bytes, pairs: seq<Pair>)
    requires IsJson(Object(blank, pairs)) && IsShort(Object(blank, pairs))
    ensures forall i :: 0 <= i < |pairs| ==> IsPair(pairs[i]) && IsShort(pairs[i].item.val)
    ensures Nesting(Meaning(Object(blank, pairs))) == 1 + NestingOfMembers(PairsMeaning(pairs))
  {
    hide NestingOfMembers, IsPair;
  }

  /** Before a key there is only white space. */
  lemma FirstPair(s: Bytes, p: nat, pairs: seq<Pair>)
    requires pairs != [] && IsPair(pairs[0]) && OccursAt(s, p, SpelledPairs(pairs))
    ensures Space(s, p, true) == At(p + |pairs[0].before|) && Peek(s, p + |pairs[0].before|) != 125
  {
    hide OccursAt, Space, SpelledItem, SpelledName, IsName, IsItem, IsBlank;
    var pair := pairs[0];
    PairParts(pair);
    var more := if |pairs| == 1 then [125] else [44] + SpelledPairs(pairs[1..]);
    OccursSplit(s, p, pair.before, SpelledFromName(pair) + more);
    NameStarts(pair.name);
    OccursFirst(s, p + |pair.before|, SpelledFromName(pair) + more);
    BlankSkipped(s, p, pair.before, true);
  }

  lemma NameStarts(name: Name)
    requires IsName(name)
    ensures var t := SpelledName(name);
      t != [] && t[0] != 0 && t[0] != 32 && t[0] != 9 && t[0] != 10 && t[0] != 13 && t[0] != 125
  {
  }

  lemma PairParts(pair: Pair)
    requires IsPair(pair)
    ensures IsBlank(pair.before) && IsName(pair.name) && IsBlank(pair.afterName) && IsItem(pair.item)
      && IsJson(pair.item.val)
  {
    ItemParts(pair.item);
  }

  /** A key, a colon, a value, and the character after it. */
  lemma {:induction false} PairStands(s: Bytes, p: nat, pair: Pair, c: Byte, limit: nat)
    requires IsPair(pair) && IsJson(pair.item.val) && IsShort(pair.item.val) && Nesting(Meaning(pair.item.val)) < limit
    requires OccursAt(s, p, SpelledFromName(pair) + [c]) && (c == 44 || c == 125)
    ensures p <= |s| && PairEnds(s, p, pair, c)
    ensures ReadMember(s, p, limit) ==
      Ok(Member(CStr(NameMeaning(pair.name)), CutKeys(Meaning(pair.item.val))),
         p + |SpelledFromName(pair)| - |pair.item.after|)
    decreases pair, 2
  {
    hide OccursAt, Spelled, Meaning, CutKeys, ReadVariant, Nesting, IsJson, IsBlank, IsShort, SpelledName, ParseKey;
    hide SpelledItem, IsName, IsItem, CStr, Space, NameMeaning;
    PairParts(pair);
    PairSplit(s, p, pair, c);
    var q := p + |SpelledName(pair.name)|;
    NameStands(s, p, pair.name);
    ItemStands(s, q + |pair.afterName| + 1, pair.item, c, limit - 1);
    ItemLength(pair.item);
  }

  lemma ItemLength(item: Item)
    ensures |SpelledItem(item)| == |item.before| + |Spelled(item.val)| + |item.after|
  {
  }

  predicate PairEnds(s: Bytes, p: nat, pair: Pair, c: Byte) {
    var q := p + |SpelledFromName(pair)| - |pair.item.after|;
    && 0 <= q <= |s| && Space(s, q, true) == At(p + |SpelledFromName(pair)|)
    && p + |SpelledFromName(pair)| < |s| && Peek(s, p + |SpelledFromName(pair)|) == c
  }

  lemma PairSplit(s: Bytes, p: nat, pair: Pair, c: Byte)
    requires IsPair(pair) && OccursAt(s, p, SpelledFromName(pair) + [c]) && (c == 44 || c == 125)
    ensures var q := p + |SpelledName(pair.name)|; var r := q + |pair.afterName|;
      && OccursAt(s, p, SpelledName(pair.name)) && q <= |s| && r < |s|
      && (var d := Peek(s, q); d == 32 || d == 9 || d == 10 || d == 13 || d == 58)
      && Space(s, q, true) == At(r) && Peek(s, r) == 58
      && OccursAt(s, r + 1, SpelledItem(pair.item) + [c])
    ensures PairEnds(s, p, pair, c)
  {
    hide OccursAt, SpelledName, SpelledItem, Space, IsBlank, IsItem, IsName;
    PairParts(pair);
    var name, item := SpelledName(pair.name), SpelledItem(pair.item);
    assert SpelledFromName(pair) + [c] == name + ((pair.afterName + [58]) + (item + [c]));
    OccursSplit(s, p, name, (pair.afterName + [58]) + (item + [c]));
    OccursSplit(s, p + |name|, pair.afterName + [58], item + [c]);
    AfterItem(s, p + |name|, pair.afterName, 58);
    BlankFirst(pair.afterName);
    var r := p + |name| + |pair.afterName|;
    ItemParts(pair.item);
    ItemSplit(s, r + 1, pair.item, c);
    ItemLength(pair.item);
  }

  lemma BlankFirst(blank: Bytes)
    requires IsBlank(blank)
    ensures blank != [] ==> blank[0] == 32 || blank[0] == 9 || blank[0] == 10 || blank[0] == 13
  {
  }

  /** The loops of the reading, one step. */
  lemma MembersStep(s: Bytes, p: nat, limit: nat, m: Member, w: nat, r: nat, ms: seq<Member>, end: nat)
    requires p <= |s| && limit > 0 && ReadMember(s, p, limit) == Ok(m, w) && w <= |s| && Space(s, w, true) == At(r)
    requires Peek(s, r) == 125 || (Peek(s, r) == 44 && Space(s, r + 1, true).At?
                                   && ReadMembers(s, Space(s, r + 1, true).pos, limit) == Ok(ms, end))
    ensures ReadMembers(s, p, limit) == if Peek(s, r) == 125 then Ok([m], r + 1) else Ok([m] + ms, end)
  {
    hide ReadMember, Space;
  }

  lemma ElemsStep(s: Bytes, p: nat, limit: nat, v: Value, w: nat, r: nat, vs: seq<Value>, end: nat)
    requires p <= |s| && limit > 0 && ReadVariant(s, p, limit - 1, true) == Ok(v, w) && w <= |s|
    requires Space(s, w, true) == At(r)
    requires Peek(s, r) == 93 || (Peek(s, r) == 44 && ReadElems(s, r + 1, limit) == Ok(vs, end))
    ensures ReadElems(s, p, limit) == if Peek(s, r) == 93 then Ok([v], r + 1) else Ok([v] + vs, end)
  {
    hide ReadVariant, Space;
  }

  lemma {:induction false} PairsStand(s: Bytes, p: nat, pairs: seq<Pair>, limit: nat)
    requires pairs != [] && forall i :: 0 <= i < |pairs| ==> IsPair(pairs[i]) && IsShort(pairs[i].item.val)
    requires NestingOfMembers(PairsMeaning(pairs)) < limit && OccursAt(s, p, SpelledPairs(pairs))
    ensures var q := p + |pairs[0].before|;
      q <= |s| && ReadMembers(s, q, limit) == Ok(CutMembers(PairsMeaning(pairs)), p + |SpelledPairs(pairs)|)
    decreases pairs, 4
  {
    hide OccursAt, SpelledFromName, Meaning, CutKeys, ReadMember, Nesting, IsPair, IsShort, Space, CStr, NameMeaning;
    hide ReadMembers, CutMembers, PairsMeaning, NestingOfMembers, SpelledPairs;
    var pair := pairs[0];
    assert IsPair(pair) && IsShort(pair.item.val);
    PairParts(pair);
    PairsMeaningParts(pairs);
    var c: Byte := if |pairs| == 1 then 125 else 44;
    PairsSplit(s, p, pairs);
    PairStands(s, p + |pair.before|, pair, c, limit);
    var q := p + |pair.before|;
    var r := q + |SpelledFromName(pair)|;
    var m := Member(CStr(NameMeaning(pair.name)), CutKeys(Meaning(pair.item.val)));
    if |pairs| > 1 {
      PairsStand(s, r + 1, pairs[1..], limit);
      FirstPair(s, r + 1, pairs[1..]);
      MembersStep(s, q, limit, m, r - |pair.item.after|, r, CutMembers(PairsMeaning(pairs[1..])),
                  p + |SpelledPairs(pairs)|);
    } else {
      MembersStep(s, q, limit, m, r - |pair.item.after|, r, [], 0);
      assert pairs[1..] == [];
      NothingMeant();
      assert [m] + [] == [m];
    }
  }

  lemma PairsText(pairs: seq<Pair>, c: Byte, more: Bytes)
    requires pairs != [] && c == (if |pairs| == 1 then 125 else 44)
    requires more == if |pairs| == 1 then [] else SpelledPairs(pairs[1..])
    ensures SpelledPairs(pairs) == pairs[0].before + ((SpelledFromName(pairs[0]) + [c]) + more)
  {
    hide SpelledFromName;
    Closed(SpelledFromName(pairs[0]), c, more);
    if |pairs| == 1 {
      assert [c] + more == [125];
    }
  }

  lemma Closed(text: Bytes, c: Byte, more: Bytes)
    ensures text + ([c] + more) == (text + [c]) + more
  {
  }

  lemma PairsSplit(s: Bytes, p: nat, pairs: seq<Pair>)
    requires pairs != [] && OccursAt(s, p, SpelledPairs(pairs))
    ensures var q := p + |pairs[0].before|; var r := q + |SpelledFromName(pairs[0])|;
      && OccursAt(s, q, SpelledFromName(pairs[0]) + [if |pairs| == 1 then 125 else 44])
      && (|pairs| == 1 ==> p + |SpelledPairs(pairs)| == r + 1)
      && (|pairs| > 1 ==>
        OccursAt(s, r + 1, SpelledPairs(pairs[1..])) && p + |SpelledPairs(pairs)| == r + 1 + |SpelledPairs(pairs[1..])|)
  {
    hide OccursAt, SpelledFromName, SpelledPairs;
    var pair := pairs[0];
    var c: Byte := if |pairs| == 1 then 125 else 44;
    var more := if |pairs| == 1 then [] else SpelledPairs(pairs[1..]);
    PairsText(pairs, c, more);
    OccursSplit(s, p, pair.before, (SpelledFromName(pair) + [c]) + more);
    OccursSplit(s, p + |pair.before|, SpelledFromName(pair) + [c], more);
  }

  lemma PairsMeaningParts(pairs: seq<Pair>)
    requires pairs != [] && forall i :: 0 <= i < |pairs| ==> IsPair(pairs[i])
    ensures IsJson(pairs[0].item.val) && (forall i :: 0 <= i < |pairs[1..]| ==> IsPair(pairs[1..][i]))
    ensures var name, v := NameMeaning(pairs[0].name), Meaning(pairs[0].item.val);
      && PairsMeaning(pairs) == [Member(name, v)] + PairsMeaning(pairs[1..])
      && CutMembers(PairsMeaning(pairs)) == [Member(CStr(name), CutKeys(v))] + CutMembers(PairsMeaning(pairs[1..]))
      && Nesting(v) <= NestingOfMembers(PairsMeaning(pairs))
    ensures NestingOfMembers(PairsMeaning(pairs[1..])) <= NestingOfMembers(PairsMeaning(pairs))
  {
    hide Meaning, CutKeys, Nesting, IsJson, NameMeaning, CStr;
    PairParts(pairs[0]);
    assert IsPair(pairs[0]);
    assert PairsMeaning(pairs)[1..] == PairsMeaning(pairs[1..]);
  }
}
