/** What the two JSON printers write, and the round trip through the parser. */
module JsonPrinter {
  import opened Values
  import opened Unicode
  import opened JsonText
  import opened JsonReading
  import Numbers
  import JsonFilter

  datatype Style = Compact | Pretty

  /** writeChar */
  function PrintChar(c: Byte): (t: Bytes)
    ensures t != []
  {
    if EscapeChar(c) != 0 then [BACKSLASH, EscapeChar(c)]
    else if c != 0 then [c]
    else [BACKSLASH, 117, 48, 48, 48, 48]
  }

  function PrintChars(str: Bytes): Bytes {
    if str == [] then [] else PrintChar(str[0]) + PrintChars(str[1..])
  }

  function PrintString(str: Bytes): Bytes { [QUOTE] + PrintChars(str) + [QUOTE] }

  function Spaces(n: nat): (t: Bytes)
    ensures forall i :: 0 <= i < |t| ==> t[i] == 32
  {
    if n == 0 then [] else [32, 32] + Spaces(n - 1)
  }

  /** What precedes an element or a closing bracket at depth `n`; the pretty printer keeps
      its depth in eight bits. */
  function Lead(style: Style, n: nat): (t: Bytes)
    ensures forall i :: 0 <= i < |t| ==> IsSpace(t[i])
  {
    if style.Compact? then [] else [13, 10] + Spaces(n % 256)
  }

  function ColonText(style: Style): Bytes { if style.Compact? then [COLON] else [COLON, 32] }

  function Print(style: Style, v: Value, n: nat): (t: Bytes)
    requires FloatFree(v)
    decreases v, 0
  {
    match v
    case Null => NULL_TEXT
    case Bool(b) => if b then TRUE_TEXT else FALSE_TEXT
    case Int(i) => Numbers.PrintInt(i)
    case Str(str) => PrintString(str)
    case Arr(es) =>
      if es == [] then [LEFT_BRACKET, RIGHT_BRACKET]
      else [LEFT_BRACKET] + Lead(style, n + 1) + PrintElems(style, es, n + 1) + Lead(style, n) + [RIGHT_BRACKET]
    case Obj(ms) =>
      if ms == [] then [LEFT_BRACE, RIGHT_BRACE]
      else [LEFT_BRACE] + Lead(style, n + 1) + PrintMembers(style, ms, n + 1) + Lead(style, n) + [RIGHT_BRACE]
  }

  function PrintElems(style: Style, es: seq<Value>, n: nat): Bytes
    requires es != [] && forall i :: 0 <= i < |es| ==> FloatFree(es[i])
    decreases es, 2
  {
    Print(style, es[0], n) +
    if |es| == 1 then [] else [COMMA] + Lead(style, n) + PrintElems(style, es[1..], n)
  }

  function PrintMember(style: Style, m: Member, n: nat): Bytes
    requires FloatFree(m.val)
    decreases m, 1
  {
    PrintString(CStr(m.key)) + ColonText(style) + Print(style, m.val, n)
  }

  function PrintMembers(style: Style, ms: seq<Member>, n: nat): Bytes
    requires ms != [] && forall i :: 0 <= i < |ms| ==> FloatFree(ms[i].val)
    decreases ms, 2
  {
    PrintMember(style, ms[0], n) +
    if |ms| == 1 then [] else [COMMA] + Lead(style, n) + PrintMembers(style, ms[1..], n)
  }

  // ---- Reading back ----

  /** A printed item, the separator and white space after it, and the items that follow. */
  lemma SplitAtComma(s: Bytes, p: nat, item: Bytes, lead: Bytes, rest: Bytes, tail: Bytes)
    requires OccursAt(s, p, item + ([COMMA] + lead + rest) + tail)
    ensures OccursAt(s, p, item) && OccursAt(s, p + |item| + 1, lead)
    ensures p + |item| < |s| && Peek(s, p + |item|) == COMMA
    ensures OccursAt(s, p + |item| + 1 + |lead|, rest + tail)
    ensures p + |item| + 1 + |lead| + |rest| + |tail| <= |s|
  {
    hide OccursAt;
    assert item + ([COMMA] + lead + rest) + tail == item + ([COMMA] + (lead + (rest + tail)));
    OccursSplit(s, p, item, [COMMA] + (lead + (rest + tail)));
    OccursSplit(s, p + |item|, [COMMA], lead + (rest + tail));
    OccursFirst(s, p + |item|, [COMMA]);
    OccursSplit(s, p + |item| + 1, lead, rest + tail);
  }

  lemma {:induction false} SpacesSkipped(s: Bytes, p: nat, ws: Bytes)
    requires OccursAt(s, p, ws) && forall i :: 0 <= i < |ws| ==> IsSpace(ws[i])
    ensures SkipSpaces(s, p) == SkipSpaces(s, p + |ws|)
    decreases |ws|
  {
    if ws != [] {
      OccursSplit(s, p, ws[..1], ws[1..]);
      assert ws[..1] + ws[1..] == ws;
      OccursFirst(s, p, ws);
      SpacesSkipped(s, p + 1, ws[1..]);
    }
  }

  /** After white space, a visible character is found. */
  lemma SpaceBefore(s: Bytes, p: nat, ws: Bytes, found: bool)
    requires OccursAt(s, p, ws) && forall i :: 0 <= i < |ws| ==> IsSpace(ws[i])
    requires Peek(s, p + |ws|) != 0 && !IsSpace(Peek(s, p + |ws|))
    ensures Space(s, p, found) == At(p + |ws|)
  {
    SpacesSkipped(s, p, ws);
  }

  // ---- Strings ----

  lemma {:induction false} StringReadBack(s: Bytes, p: nat, str: Bytes, acc: Bytes)
    requires OccursAt(s, p, PrintChars(str) + [QUOTE])
    ensures ParseQuoted(s, p, QUOTE, 0, acc) == Ok(acc + str, p + |PrintChars(str)| + 1)
    decreases str
  {
    hide PrintChar, ParseQuoted;
    if str == [] {
      OccursFirst(s, p, [QUOTE]);
      assert PrintChars(str) + [QUOTE] == [QUOTE];
      QuoteCloses(s, p, acc);
      assert acc + str == acc;
    } else {
      var first := PrintChar(str[0]);
      assert PrintChars(str) + [QUOTE] == first + (PrintChars(str[1..]) + [QUOTE]);
      OccursSplit(s, p, first, PrintChars(str[1..]) + [QUOTE]);
      CharReadBack(s, p, str[0], acc);
      StringReadBack(s, p + |first|, str[1..], acc + [str[0]]);
      assert acc + [str[0]] + str[1..] == acc + str;
    }
  }

  lemma QuoteCloses(s: Bytes, p: nat, acc: Bytes)
    requires p < |s| && Peek(s, p) == QUOTE
    ensures ParseQuoted(s, p, QUOTE, 0, acc) == Ok(acc, p + 1)
  {
  }

  lemma CharReadBack(s: Bytes, p: nat, c: Byte, acc: Bytes)
    requires OccursAt(s, p, PrintChar(c))
    ensures ParseQuoted(s, p, QUOTE, 0, acc) == ParseQuoted(s, p + |PrintChar(c)|, QUOTE, 0, acc + [c])
  {
    var t := PrintChar(c);
    forall i | 0 <= i < |t| ensures t[i] == Peek(s, p + i) {
      assert s[p..p + |t|][i] == s[p + i];
    }
    if c == 0 {
      assert t[0] == Peek(s, p) && t[1] == Peek(s, p + 1) && t[2] == Peek(s, p + 2);
      assert t[3] == Peek(s, p + 3) && t[4] == Peek(s, p + 4) && t[5] == Peek(s, p + 5);
      NulReadBack(s, p, acc);
    } else if EscapeChar(c) != 0 {
      assert t[0] == Peek(s, p) && t[1] == Peek(s, p + 1);
      assert UnescapeChar(EscapeChar(c)) == c && EscapeChar(c) != 117;
      assert ReadEscape(s, p + 1, 0) == Ok(Escape([c], 0), p + 2);
    } else {
      assert t[0] == Peek(s, p);
    }
  }

  lemma NulReadBack(s: Bytes, p: nat, acc: Bytes)
    requires p + 6 <= |s| && Peek(s, p) == BACKSLASH && Peek(s, p + 1) == 117
    requires Peek(s, p + 2) == Peek(s, p + 3) == Peek(s, p + 4) == Peek(s, p + 5) == 48
    ensures ParseQuoted(s, p, QUOTE, 0, acc) == ParseQuoted(s, p + 6, QUOTE, 0, acc + [0])
  {
    hide ParseHex;
    NulDigits(s, p);
    assert ReadEscape(s, p + 1, 0) == Ok(Escape([0], 0), p + 6);
  }

  lemma NulDigits(s: Bytes, p: nat)
    requires p + 6 <= |s| && Peek(s, p + 2) == Peek(s, p + 3) == Peek(s, p + 4) == Peek(s, p + 5) == 48
    ensures ParseHex(s, p + 2, 4, 0) == Ok(0, p + 6) && UnitEscape(0, 0) == Escape([0], 0)
  {
    assert ParseHex(s, p + 5, 1, 0) == Ok(0, p + 6);
    assert ParseHex(s, p + 4, 2, 0) == Ok(0, p + 6);
    assert ParseHex(s, p + 3, 3, 0) == Ok(0, p + 6);
  }

  // ---- Numbers ----

  lemma {:induction false} TokenEnd(s: Bytes, p: nat, t: Bytes, room: nat)
    requires OccursAt(s, p, t) && |t| <= room && forall i :: 0 <= i < |t| ==> CanBeInNumber(t[i])
    requires !CanBeInNumber(Peek(s, p + |t|))
    ensures NumberEnd(s, p, room) == p + |t|
    decreases |t|
  {
    if t != [] {
      OccursFirst(s, p, t);
      OccursSplit(s, p, t[..1], t[1..]);
      assert t[..1] + t[1..] == t;
      TokenEnd(s, p + 1, t[1..], room - 1);
    }
  }

  lemma IntegerReadBack(s: Bytes, p: nat, n: int)
    requires 0 - Numbers.MAX_NEGATIVE <= n <= Numbers.MAX_UINT
    requires OccursAt(s, p, Numbers.PrintInt(n)) && !CanBeInNumber(Peek(s, p + |Numbers.PrintInt(n)|))
    ensures ReadToken(s, p) == Ok(Int(n), p + |Numbers.PrintInt(n)|)
    ensures Peek(s, p) == 45 || Numbers.IsDigit(Peek(s, p))
  {
    var t := Numbers.PrintInt(n);
    OccursFirst(s, p, t);
    Numbers.PrintedIntegerParses(n);
    TokenEnd(s, p, t, MAX_TOKEN);
  }

  // ---- Round trip ----

  /** Values that print exactly: integers of 64 bits, keys without NUL. */
  predicate Printable(v: Value) {
    match v
    case Int(n) => 0 - Numbers.MAX_NEGATIVE <= n <= Numbers.MAX_UINT
    case Float(_) => false
    case Arr(es) => forall i :: 0 <= i < |es| ==> Printable(es[i])
    case Obj(ms) => forall i :: 0 <= i < |ms| ==> 0 !in ms[i].key && Printable(ms[i].val)
    case _ => true
  }

  lemma {:induction false} PrintableIsFloatFree(v: Value)
    requires Printable(v)
    ensures FloatFree(v)
    decreases v
  {
    match v
    case Arr(es) =>
      forall i | 0 <= i < |es| ensures FloatFree(es[i]) { PrintableIsFloatFree(es[i]); }
    case Obj(ms) =>
      forall i | 0 <= i < |ms| ensures FloatFree(ms[i].val) { PrintableIsFloatFree(ms[i].val); }
    case _ =>
  }

  /** A character that can follow a value in a text: it does not extend a number. */
  predicate Closes(s: Bytes, p: nat) { !CanBeInNumber(Peek(s, p)) }

  /** Reading finds a printed value wherever it stands in a text. */
  lemma {:induction false} VariantReadBack(s: Bytes, p: nat, style: Style, v: Value, n: nat, limit: nat, found: bool)
    requires FloatFree(v) && Printable(v) && Nesting(v) <= limit
    requires OccursAt(s, p, Print(style, v, n))
    requires v.Int? ==> Closes(s, p + |Print(style, v, n)|)
    ensures ReadVariant(s, p, limit, found) == Ok(v, p + |Print(style, v, n)|)
    decreases v, 0
  {
    hide ReadArray, ReadObject, ReadToken, PrintElems, PrintMembers, NestingOfElems, NestingOfMembers;
    var t := Print(style, v, n);
    PrintedStart(style, v, n);
    OccursFirst(s, p, t);
    match v
    case Arr(es) => ArrayReadBack(s, p, style, es, n, limit);
    case Obj(ms) => ObjectReadBack(s, p, style, ms, n, limit);
    case _ => TokenReadBack(s, p, style, v, n);
  }

  lemma PrintedStart(style: Style, v: Value, n: nat)
    requires FloatFree(v)
    ensures var t := Print(style, v, n);
      && t != [] && t[0] != 0 && !IsSpace(t[0])
      && (v.Arr? <==> t[0] == LEFT_BRACKET) && (v.Obj? <==> t[0] == LEFT_BRACE)
      && t[0] != RIGHT_BRACKET && t[0] != COMMA
  {
    hide PrintElems, PrintMembers, Lead, PrintChars;
  }

  lemma TokenReadBack(s: Bytes, p: nat, style: Style, v: Value, n: nat)
    requires FloatFree(v) && Printable(v) && !v.Arr? && !v.Obj?
    requires OccursAt(s, p, Print(style, v, n))
    requires v.Int? ==> Closes(s, p + |Print(style, v, n)|)
    ensures p < |s| && Peek(s, p) != 0
    ensures ReadToken(s, p) == Ok(v, p + |Print(style, v, n)|)
  {
    hide ParseQuoted, ParseNumeric, SkipKeyword, PrintChars;
    var t := Print(style, v, n);
    PrintedStart(style, v, n);
    OccursFirst(s, p, t);
    match v
    case Int(i) => IntegerReadBack(s, p, i);
    case Str(str) =>
      assert t == [QUOTE] + (PrintChars(str) + [QUOTE]);
      OccursSplit(s, p, [QUOTE], PrintChars(str) + [QUOTE]);
      StringReadBack(s, p + 1, str, []);
      assert [] + str == str;
    case _ =>
  }

  lemma {:induction false} ArrayReadBack(s: Bytes, p: nat, style: Style, es: seq<Value>, n: nat, limit: nat)
    requires FloatFree(Arr(es)) && Printable(Arr(es)) && NestingOfElems(es) < limit
    requires OccursAt(s, p, Print(style, Arr(es), n))
    ensures ReadArray(s, p, limit) == Ok(es, p + |Print(style, Arr(es), n)|)
    decreases es, 3
  {
    hide PrintElems, ReadElems, Lead, Space, SkipSpaces, OccursAt, Printable;
    var t := Print(style, Arr(es), n);
    if es == [] {
      EmptyArrayReadBack(s, p, limit);
    } else {
      var first, last := Lead(style, n + 1), Lead(style, n) + [RIGHT_BRACKET];
      var mid := PrintElems(style, es, n + 1);
      assert t == [LEFT_BRACKET] + (first + (mid + last));
      OccursSplit(s, p, [LEFT_BRACKET], first + (mid + last));
      OccursSplit(s, p + 1, first, mid + last);
      ElemsReadBack(s, p + 1 + |first|, style, es, n + 1, n, limit);
      ElemsStart(style, es, n + 1);
      OccursFirst(s, p + 1 + |first|, mid + last);
      SpaceBefore(s, p + 1, first, true);
    }
  }

  lemma EmptyArrayReadBack(s: Bytes, p: nat, limit: nat)
    requires OccursAt(s, p, [LEFT_BRACKET, RIGHT_BRACKET]) && limit > 0
    ensures p < |s| && ReadArray(s, p, limit) == Ok([], p + 2)
  {
    hide ReadElems, Space, OccursAt;
    assert [LEFT_BRACKET, RIGHT_BRACKET] == [LEFT_BRACKET] + [RIGHT_BRACKET];
    OccursSplit(s, p, [LEFT_BRACKET], [RIGHT_BRACKET]);
    OccursFirst(s, p + 1, [RIGHT_BRACKET]);
    SpaceBefore(s, p + 1, [], true);
  }

  lemma ElemsStart(style: Style, es: seq<Value>, n: nat)
    requires es != [] && forall i :: 0 <= i < |es| ==> FloatFree(es[i])
    ensures var t := PrintElems(style, es, n); t != [] && t[0] != 0 && !IsSpace(t[0]) && t[0] != RIGHT_BRACKET
  {
    hide Print, Lead;
    PrintedStart(style, es[0], n);
  }

  lemma {:induction false} ElemsReadBack(s: Bytes, p: nat, style: Style, es: seq<Value>, n: nat, outer: nat, limit: nat)
    requires es != [] && FloatFree(Arr(es)) && Printable(Arr(es)) && NestingOfElems(es) < limit
    requires OccursAt(s, p, PrintElems(style, es, n) + (Lead(style, outer) + [RIGHT_BRACKET]))
    ensures ReadElems(s, p, limit) == Ok(es, p + |PrintElems(style, es, n)| + |Lead(style, outer)| + 1)
    decreases es, 2
  {
    hide Print, ReadVariant, Lead, Nesting, Space, SkipSpaces, FloatFree, Printable, OccursAt;
    ArrayParts(es);
    var v := Print(style, es[0], n);
    var tail := Lead(style, outer) + [RIGHT_BRACKET];
    if |es| == 1 {
      assert PrintElems(style, es, n) == v;
      OccursSplit(s, p, v, tail);
      LeadThen(s, p + |v|, style, outer, RIGHT_BRACKET);
      VariantReadBack(s, p, style, es[0], n, limit - 1, true);
      assert es == [es[0]];
    } else {
      ElemsReadBackMore(s, p, style, es, n, outer, limit);
    }
  }

  lemma {:induction false} ElemsReadBackMore(s: Bytes, p: nat, style: Style, es: seq<Value>, n: nat, outer: nat,
                                             limit: nat)
    requires |es| > 1 && FloatFree(Arr(es)) && Printable(Arr(es)) && NestingOfElems(es) < limit
    requires OccursAt(s, p, PrintElems(style, es, n) + (Lead(style, outer) + [RIGHT_BRACKET]))
    ensures ReadElems(s, p, limit) == Ok(es, p + |PrintElems(style, es, n)| + |Lead(style, outer)| + 1)
    decreases es, 1
  {
    hide Print, ReadVariant, Lead, Nesting, Space, SkipSpaces, FloatFree, Printable, OccursAt;
    ArrayParts(es);
    var v := Print(style, es[0], n);
    var tail := Lead(style, outer) + [RIGHT_BRACKET];
    var lead, rest := Lead(style, n), PrintElems(style, es[1..], n);
    SplitAtComma(s, p, v, lead, rest, tail);
    CommaFound(s, p + |v|);
    VariantReadBack(s, p, style, es[0], n, limit - 1, true);
    var next := p + |v| + 1 + |lead|;
    ElemsReadBack(s, next, style, es[1..], n, outer, limit);
    ElemsAfterSpace(s, p + |v| + 1, lead, limit);
    assert es == [es[0]] + es[1..];
  }

  lemma CommaFound(s: Bytes, p: nat)
    requires p < |s| && Peek(s, p) == COMMA
    ensures Space(s, p, true) == At(p) && Closes(s, p)
  {
  }

  lemma ArrayParts(es: seq<Value>)
    requires es != [] && FloatFree(Arr(es)) && Printable(Arr(es))
    ensures FloatFree(es[0]) && Printable(es[0])
    ensures es[1..] != [] ==> FloatFree(Arr(es[1..])) && Printable(Arr(es[1..]))
    ensures forall i :: 0 <= i < |es| ==> FloatFree(es[i])
    ensures Nesting(es[0]) <= NestingOfElems(es) && NestingOfElems(es[1..]) <= NestingOfElems(es)
  {
  }

  lemma LeadThen(s: Bytes, p: nat, style: Style, n: nat, c: Byte)
    requires OccursAt(s, p, Lead(style, n) + [c]) && c != 0 && !IsSpace(c) && !CanBeInNumber(c)
    ensures Space(s, p, true) == At(p + |Lead(style, n)|) && Peek(s, p + |Lead(style, n)|) == c
    ensures Closes(s, p)
  {
    var lead := Lead(style, n);
    OccursSplit(s, p, lead, [c]);
    OccursFirst(s, p + |lead|, [c]);
    SpaceBefore(s, p, lead, true);
    OccursFirst(s, p, lead + [c]);
  }

  lemma ElemsAfterSpace(s: Bytes, p: nat, ws: Bytes, limit: nat)
    requires limit > 0 && OccursAt(s, p, ws) && forall i :: 0 <= i < |ws| ==> IsSpace(ws[i])
    ensures ReadElems(s, p, limit) == ReadElems(s, p + |ws|, limit)
  {
    hide ReadArray, ReadObject, ReadToken;
    SpacesSkipped(s, p, ws);
    assert ReadVariant(s, p, limit - 1, true) == ReadVariant(s, p + |ws|, limit - 1, true);
  }

  lemma {:induction false} ObjectReadBack(s: Bytes, p: nat, style: Style, ms: seq<Member>, n: nat, limit: nat)
    requires FloatFree(Obj(ms)) && Printable(Obj(ms)) && NestingOfMembers(ms) < limit
    requires OccursAt(s, p, Print(style, Obj(ms), n))
    ensures ReadObject(s, p, limit) == Ok(ms, p + |Print(style, Obj(ms), n)|)
    decreases ms, 3
  {
    hide PrintMembers, ReadMembers, Lead, Space, SkipSpaces, OccursAt;
    var t := Print(style, Obj(ms), n);
    if ms == [] {
      assert t == [LEFT_BRACE] + [RIGHT_BRACE];
      OccursSplit(s, p, [LEFT_BRACE], [RIGHT_BRACE]);
      OccursFirst(s, p + 1, [RIGHT_BRACE]);
      SpaceBefore(s, p + 1, [], true);
    } else {
      var first, last := Lead(style, n + 1), Lead(style, n) + [RIGHT_BRACE];
      var mid := PrintMembers(style, ms, n + 1);
      assert t == [LEFT_BRACE] + (first + (mid + last));
      OccursSplit(s, p, [LEFT_BRACE], first + (mid + last));
      OccursSplit(s, p + 1, first, mid + last);
      MembersReadBack(s, p + 1 + |first|, style, ms, n + 1, n, limit);
      MembersStart(style, ms, n + 1);
      OccursFirst(s, p + 1 + |first|, mid + last);
      SpaceBefore(s, p + 1, first, true);
    }
  }

  lemma MembersStart(style: Style, ms: seq<Member>, n: nat)
    requires ms != [] && forall i :: 0 <= i < |ms| ==> FloatFree(ms[i].val)
    ensures var t := PrintMembers(style, ms, n); t != [] && t[0] == QUOTE
  {
    hide Print, Lead, PrintChars;
  }

  lemma MemberParts(ms: seq<Member>)
    requires ms != [] && FloatFree(Obj(ms)) && Printable(Obj(ms))
    ensures FloatFree(ms[0].val) && Printable(ms[0].val) && 0 !in ms[0].key
    ensures ms[1..] != [] ==> FloatFree(Obj(ms[1..])) && Printable(Obj(ms[1..]))
    ensures forall i :: 0 <= i < |ms| ==> FloatFree(ms[i].val)
    ensures Nesting(ms[0].val) <= NestingOfMembers(ms) && NestingOfMembers(ms[1..]) <= NestingOfMembers(ms)
  {
  }

  lemma {:induction false} MembersReadBack(s: Bytes, p: nat, style: Style, ms: seq<Member>, n: nat, outer: nat,
                                           limit: nat)
    requires ms != [] && FloatFree(Obj(ms)) && Printable(Obj(ms)) && NestingOfMembers(ms) < limit
    requires OccursAt(s, p, PrintMembers(style, ms, n) + (Lead(style, outer) + [RIGHT_BRACE]))
    ensures ReadMembers(s, p, limit) == Ok(ms, p + |PrintMembers(style, ms, n)| + |Lead(style, outer)| + 1)
    decreases ms, 2
  {
    hide PrintMember, ReadMember, Lead, Nesting, Space, SkipSpaces, FloatFree, Printable, OccursAt;
    MemberParts(ms);
    var m := PrintMember(style, ms[0], n);
    var tail := Lead(style, outer) + [RIGHT_BRACE];
    if |ms| == 1 {
      assert PrintMembers(style, ms, n) == m;
      OccursSplit(s, p, m, tail);
      LeadThen(s, p + |m|, style, outer, RIGHT_BRACE);
      MemberReadBack(s, p, style, ms[0], n, limit);
      assert ms == [ms[0]];
    } else {
      MembersReadBackMore(s, p, style, ms, n, outer, limit);
    }
  }

  lemma {:induction false} MembersReadBackMore(s: Bytes, p: nat, style: Style, ms: seq<Member>, n: nat, outer: nat,
                                               limit: nat)
    requires |ms| > 1 && FloatFree(Obj(ms)) && Printable(Obj(ms)) && NestingOfMembers(ms) < limit
    requires OccursAt(s, p, PrintMembers(style, ms, n) + (Lead(style, outer) + [RIGHT_BRACE]))
    ensures ReadMembers(s, p, limit) == Ok(ms, p + |PrintMembers(style, ms, n)| + |Lead(style, outer)| + 1)
    decreases ms, 1
  {
    hide PrintMember, ReadMember, Lead, Nesting, Space, SkipSpaces, FloatFree, Printable, OccursAt;
    MemberParts(ms);
    var m := PrintMember(style, ms[0], n);
    var tail := Lead(style, outer) + [RIGHT_BRACE];
    var lead, rest := Lead(style, n), PrintMembers(style, ms[1..], n);
    SplitAtComma(s, p, m, lead, rest, tail);
    CommaFound(s, p + |m|);
    MemberReadBack(s, p, style, ms[0], n, limit);
    var next := p + |m| + 1 + |lead|;
    MembersReadBack(s, next, style, ms[1..], n, outer, limit);
    MembersStart(style, ms[1..], n);
    OccursFirst(s, next, rest + tail);
    SpaceBefore(s, p + |m| + 1, lead, true);
    assert ms == [ms[0]] + ms[1..];
  }

  lemma {:induction false} MemberReadBack(s: Bytes, p: nat, style: Style, m: Member, n: nat, limit: nat)
    requires FloatFree(m.val) && Printable(m.val) && 0 !in m.key && Nesting(m.val) < limit
    requires OccursAt(s, p, PrintMember(style, m, n)) && Closes(s, p + |PrintMember(style, m, n)|)
    ensures ReadMember(s, p, limit) == Ok(m, p + |PrintMember(style, m, n)|)
    decreases m, 1
  {
    hide Print, ReadVariant, PrintString, ParseKey, FloatFree, Printable, Nesting, Space, SkipSpaces, OccursAt;
    var key, colon, v := PrintString(m.key), ColonText(style), Print(style, m.val, n);
    CStrOfNulFree(m.key);
    SplitAtColon(s, p, style, m.key, v);
    KeyReadBack(s, p, m.key);
    var c := p + |key|;
    VariantReadBack(s, c + |colon|, style, m.val, n, limit - 1, true);
    VariantAfterSpace(s, c + 1, colon[1..], limit - 1);
  }

  lemma SplitAtColon(s: Bytes, p: nat, style: Style, key: Bytes, v: Bytes)
    requires OccursAt(s, p, PrintString(key) + ColonText(style) + v)
    ensures var c := p + |PrintString(key)|;
      && OccursAt(s, p, PrintString(key)) && c < |s| && Peek(s, c) == COLON && Space(s, c, true) == At(c)
      && OccursAt(s, c + 1, ColonText(style)[1..]) && OccursAt(s, c + |ColonText(style)|, v)
  {
    hide OccursAt, PrintString;
    var colon, c := ColonText(style), p + |PrintString(key)|;
    assert PrintString(key) + colon + v == PrintString(key) + (colon + v);
    OccursSplit(s, p, PrintString(key), colon + v);
    OccursSplit(s, c, colon, v);
    assert colon == [COLON] + colon[1..];
    OccursSplit(s, c, [COLON], colon[1..]);
    OccursFirst(s, c, [COLON]);
  }

  lemma KeyReadBack(s: Bytes, p: nat, key: Bytes)
    requires OccursAt(s, p, PrintString(key))
    ensures ParseKey(s, p) == Ok(key, p + |PrintString(key)|)
  {
    hide OccursAt, PrintChars;
    assert PrintString(key) == [QUOTE] + (PrintChars(key) + [QUOTE]);
    OccursSplit(s, p, [QUOTE], PrintChars(key) + [QUOTE]);
    OccursFirst(s, p, [QUOTE]);
    StringReadBack(s, p + 1, key, []);
    assert [] + key == key;
  }

  lemma VariantAfterSpace(s: Bytes, p: nat, ws: Bytes, limit: nat)
    requires OccursAt(s, p, ws) && forall i :: 0 <= i < |ws| ==> IsSpace(ws[i])
    ensures ReadVariant(s, p, limit, true) == ReadVariant(s, p + |ws|, limit, true)
  {
    hide ReadArray, ReadObject, ReadToken;
    SpacesSkipped(s, p, ws);
  }

  /** Printing a value, compact or pretty, and parsing the text gives the value back;
      under a filter it gives the projection. */
  lemma RoundTrip(style: Style, v: Value, f: Value, limit: nat)
    requires FloatFree(v) && Printable(v) && UniqueKeys(v) && Nesting(v) <= limit
    ensures Parse(Print(style, v, 0), JsonFilter.ALL, limit) == Ok(v, |Print(style, v, 0)|)
    ensures Parse(Print(style, v, 0), f, limit) == Ok(JsonFilter.Project(f, v), |Print(style, v, 0)|)
  {
    hide Print, ReadVariant, Parse, Nesting, FloatFree, Printable, UniqueKeys, JsonFilter.Project;
    var t := Print(style, v, 0);
    assert t[0..|t|] == t;
    VariantReadBack(t, 0, style, v, 0, limit, false);
    JsonFilter.UnfilteredIsReading(t, limit);
    JsonFilter.FilteringCommutes(t, f, limit);
  }

  // ---- Layout ----

  /** A line for each element, two spaces deeper than its brackets, and a space after a colon;
      compact, none of that. */
  lemma {:induction false} Layout()
    ensures var v := Arr([Int(1), Null]);
      && FloatFree(v) && Print(Compact, v, 0) == [91, 49, 44, 110, 117, 108, 108, 93]
      && Print(Pretty, v, 0) == [91, 13, 10, 32, 32, 49, 44, 13, 10, 32, 32, 110, 117, 108, 108, 13, 10, 93]
    ensures var w := Obj([Member([97], Arr([]))]);
      && FloatFree(w) && Print(Compact, w, 0) == [123, 34, 97, 34, 58, 91, 93, 125]
      && Print(Pretty, w, 0) == [123, 13, 10, 32, 32, 34, 97, 34, 58, 32, 91, 93, 13, 10, 125]
  {
    ElementLayout();
    MemberLayout();
  }

  lemma {:induction false} Leads()
    ensures Lead(Pretty, 1) == [13, 10, 32, 32] && Lead(Pretty, 0) == [13, 10]
    ensures Lead(Compact, 1) == [] && Lead(Compact, 0) == []
  {
    assert Spaces(1) == [32, 32] + Spaces(0);
  }

  lemma {:induction false} ElementLayout()
    ensures var v := Arr([Int(1), Null]);
      && FloatFree(v) && Print(Compact, v, 0) == [91, 49, 44, 110, 117, 108, 108, 93]
      && Print(Pretty, v, 0) == [91, 13, 10, 32, 32, 49, 44, 13, 10, 32, 32, 110, 117, 108, 108, 13, 10, 93]
  {
    hide Lead, PrintElems;
    Leads();
    TwoElems(Compact, [44, 110, 117, 108, 108]);
    TwoElems(Pretty, [44, 13, 10, 32, 32, 110, 117, 108, 108]);
  }

  lemma {:induction false} TwoElems(style: Style, more: Bytes)
    requires [COMMA] + Lead(style, 1) + [110, 117, 108, 108] == more
    ensures PrintElems(style, [Int(1), Null], 1) == [49] + more
  {
    hide Lead;
    var es := [Int(1), Null];
    assert es[1..] == [Null];
    assert Print(style, Null, 1) == [110, 117, 108, 108];
    assert PrintElems(style, es[1..], 1) == [110, 117, 108, 108];
    assert Numbers.PrintInt(1) == [49];
    assert Print(style, Int(1), 1) == [49];
    assert PrintElems(style, es, 1) == [49] + ([COMMA] + Lead(style, 1) + [110, 117, 108, 108]);
  }

  lemma {:induction false} KeyLayout()
    ensures CStr([97]) == [97] && PrintString([97]) == [34, 97, 34]
  {
    assert [97][1..] == [];
  }

  lemma {:induction false} MemberLayout()
    ensures var w := Obj([Member([97], Arr([]))]);
      && FloatFree(w) && Print(Compact, w, 0) == [123, 34, 97, 34, 58, 91, 93, 125]
      && Print(Pretty, w, 0) == [123, 13, 10, 32, 32, 34, 97, 34, 58, 32, 91, 93, 13, 10, 125]
  {
    hide Lead, PrintString, CStr;
    Leads();
    KeyLayout();
    var m := Member([97], Arr([]));
    assert PrintMember(Pretty, m, 1) == [34, 97, 34, 58, 32, 91, 93];
    assert PrintMember(Compact, m, 1) == [34, 97, 34, 58, 91, 93];
  }

  // ---- A text that repeats a key ----

  /** {"a":[1],"a":2} */
  const REPEATED: Bytes := [123, 34, 97, 34, 58, 91, 49, 93, 44, 34, 97, 34, 58, 50, 125]

  const TWICE: Value := Obj([Member([97], Arr([Int(1)])), Member([97], Int(2))])

  /** Filtering does not commute with parsing on this text: under the filter {"a":[]} the
      second value is skipped and the first one stays. */
  lemma RepeatedKeysDoNotCommute(limit: nat)
    requires limit >= 2
    ensures var f := Obj([Member([97], Arr([]))]);
      var whole := Parse(REPEATED, JsonFilter.ALL, limit);
      && whole == Ok(Obj([Member([97], Int(2))]), |REPEATED|)
      && Parse(REPEATED, f, limit) == Ok(Obj([Member([97], Arr([]))]), |REPEATED|)
      && Parse(REPEATED, f, limit) != Ok(JsonFilter.Project(f, whole.val), whole.pos)
  {
    hide Parse, ReadVariant, Print, Nesting, JsonFilter.Apply, JsonFilter.Project;
    var f := Obj([Member([97], Arr([]))]);
    RepeatedIsPrinted();
    assert REPEATED[0..|REPEATED|] == REPEATED;
    VariantReadBack(REPEATED, 0, Compact, TWICE, 0, limit, false);
    JsonFilter.UnfilteredIsReading(REPEATED, limit);
    JsonFilter.ParseAppliesFilter(REPEATED, JsonFilter.ALL, limit);
    JsonFilter.ParseAppliesFilter(REPEATED, f, limit);
    TwiceFiltered(f);
  }

  lemma RepeatedIsPrinted()
    ensures FloatFree(TWICE) && Printable(TWICE) && Nesting(TWICE) == 2
    ensures Print(Compact, TWICE, 0) == REPEATED
  {
    hide Print, PrintMembers, FloatFree, Printable, Nesting;
    TwiceIsPlain();
    MembersPrinted(TWICE.members);
    TextOfObject(TWICE.members);
  }

  lemma TwiceIsPlain()
    ensures FloatFree(TWICE) && Printable(TWICE) && Nesting(TWICE) == 2
  {
    hide PrintMembers;
    var ms := TWICE.members;
    assert ms[1..] == [ms[1]] && ms[1..][1..] == [];
    assert Nesting(ms[0].val) == 1 && Nesting(ms[1].val) == 0 by {
      assert [Int(1)][1..] == [];
    }
  }

  lemma TextOfObject(ms: seq<Member>)
    requires ms != [] && FloatFree(Obj(ms))
    ensures Print(Compact, Obj(ms), 0) == [LEFT_BRACE] + PrintMembers(Compact, ms, 1) + [RIGHT_BRACE]
  {
    hide PrintMembers;
  }

  lemma MembersPrinted(ms: seq<Member>)
    requires ms == TWICE.members && FloatFree(Obj(ms))
    ensures PrintMembers(Compact, ms, 1) == [34, 97, 34, 58, 91, 49, 93, 44, 34, 97, 34, 58, 50]
  {
    hide Print;
    assert ms[1..] == [ms[1]];
    assert PrintString([97]) == [34, 97, 34];
    assert Print(Compact, ms[1].val, 1) == [50] by { DigitPrinted(2, 1); }
    assert Print(Compact, ms[0].val, 1) == [91, 49, 93] by { ArrayPrinted(); }
    assert PrintMembers(Compact, ms[1..], 1) == [34, 97, 34, 58, 50];
  }

  lemma DigitPrinted(d: nat, n: nat)
    requires d < 10
    ensures Print(Compact, Int(d), n) == [48 + d]
  {
  }

  lemma ArrayPrinted()
    ensures FloatFree(Arr([Int(1)])) && Print(Compact, Arr([Int(1)]), 1) == [91, 49, 93]
  {
    DigitPrinted(1, 2);
  }

  lemma TwiceFiltered(f: Value)
    requires f == Obj([Member([97], Arr([]))])
    ensures JsonFilter.Apply(JsonFilter.ALL, TWICE, Null) == Obj([Member([97], Int(2))])
    ensures JsonFilter.Apply(f, TWICE, Null) == Obj([Member([97], Arr([]))])
    ensures JsonFilter.Project(f, Obj([Member([97], Int(2))])) == Obj([Member([97], Null)])
  {
    var ms := TWICE.members;
    assert ms[1..] == [ms[1]] && ms[1..][1..] == [];
    assert SubFilter(f, [97]) == Arr([]) && SubFilter(JsonFilter.ALL, [97]) == JsonFilter.ALL;
    assert [Member([97], Int(2))][1..] == [];
    assert [Int(1)][1..] == [];
    assert JsonFilter.ApplyElems(JsonFilter.ALL, [Int(1)]) == [Int(1)];
    assert JsonFilter.ApplyMember(f, ms[0], []) == [Member([97], Arr([]))];
    assert JsonFilter.ApplyMember(f, ms[1], [Member([97], Arr([]))]) == [Member([97], Arr([]))];
    assert JsonFilter.ApplyMember(JsonFilter.ALL, ms[0], []) == [ms[0]];
    assert JsonFilter.ApplyMember(JsonFilter.ALL, ms[1], [ms[0]]) == [ms[1]];
  }
}
