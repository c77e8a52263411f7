/** Whole texts of the grammar: which of them the parser accepts, what it makes of them, and that
    the printers write them. */
module JsonTexts {
  import opened Values
  import opened JsonText
  import opened JsonReading
  import opened JsonGrammar
  import opened JsonFilter
  import JsonDepth
  import JsonUnicode
  import Numbers
  import D = Decimals
  import P = JsonPrinter
  import opened Unicode

  // ---- Every depth limit ----

  /** Short numbers: the text is read, or it nests too deeply. */
  lemma TextReads(s: Bytes, p: nat, x: Json, limit: nat, found: bool)
    requires IsJson(x) && IsShort(x) && OccursAt(s, p, Spelled(x))
    requires x.Number? ==> !IsNumberChar(Peek(s, p + |Spelled(x)|))
    ensures p <= |s|
    ensures ReadVariant(s, p, limit, found) ==
      if Nesting(Meaning(x)) <= limit then Ok(CutKeys(Meaning(x)), p + |Spelled(x)|) else Err(TooDeep)
  {
    hide ReadVariant, Meaning, CutKeys, Nesting, IsJson, IsShort, OccursAt, Spelled;
    var enough := Nesting(Meaning(x));
    TextStands(s, p, x, enough, found);
    CutKeepsNesting(Meaning(x));
    JsonDepth.VariantDepth(s, p, enough, limit, found);
  }

  // ---- Numbers longer than the buffer ----

  /** A reading that failed, or stopped inside a number. */
  predicate Stuck(s: Bytes, r: Result<Value>) {
    r.Ok? ==> CanBeInNumber(Peek(s, r.pos)) && !IsEnclosed(r.val)
  }

  lemma {:induction false} LongStands(s: Bytes, p: nat, x: Json, limit: nat, found: bool)
    requires IsJson(x) && !IsShort(x) && OccursAt(s, p, Spelled(x))
    requires x.Number? ==> !IsNumberChar(Peek(s, p + |Spelled(x)|))
    ensures p <= |s| && Stuck(s, ReadVariant(s, p, limit, found))
    ensures !x.Number? ==> ReadVariant(s, p, limit, found).Err?
    decreases x, 0
  {
    hide ReadArray, ReadObject, ReadToken, SpelledItems, SpelledPairs, NumberMeaning, SpelledNumber, IsNumber, OccursAt;
    Starts(x);
    OccursFirst(s, p, Spelled(x));
    match x
    case Number(num) => NumberStands(s, p, num);
    case Array(blank, items) => LongArray(s, p, blank, items, limit);
    case Object(blank, pairs) => LongObject(s, p, blank, pairs, limit);
    case _ =>
  }

  lemma {:induction false} LongArray(s: Bytes, p: nat, blank: Bytes, items: seq<Item>, limit: nat)
    requires var x := Array(blank, items); IsJson(x) && !IsShort(x) && OccursAt(s, p, Spelled(x))
    ensures p < |s| && ReadArray(s, p, limit).Err?
    decreases items, 4
  {
    hide ReadElems, SpelledItems, Space, OccursAt, IsItem, IsBlank, IsJson, IsShort;
    LongItem(blank, items);
    OccursFirst(s, p, Spelled(Array(blank, items)));
    OccursSplit(s, p, [91], SpelledItems(items));
    FirstItem(s, p + 1, items);
    if limit > 0 {
      LongItems(s, p + 1, items, limit);
      P.ElemsAfterSpace(s, p + 1, items[0].before, limit) by {
        BlankIsSpace(items[0].before);
      }
    }
  }

  lemma LongItem(blank: Bytes, items: seq<Item>)
    requires IsJson(Array(blank, items)) && !IsShort(Array(blank, items))
    ensures items != [] && forall i :: 0 <= i < |items| ==> IsItem(items[i])
    ensures exists i :: 0 <= i < |items| && !IsShort(items[i].val)
  {
    hide IsItem;
  }

  /** The item itself is stuck, or one after it. */
  lemma {:induction false} LongItems(s: Bytes, p: nat, items: seq<Item>, limit: nat)
    requires items != [] && limit > 0 && forall i :: 0 <= i < |items| ==> IsItem(items[i])
    requires (exists i :: 0 <= i < |items| && !IsShort(items[i].val)) && OccursAt(s, p, SpelledItems(items))
    ensures p <= |s| && ReadElems(s, p, limit).Err?
    decreases items, 3
  {
    hide OccursAt, SpelledItem, Spelled, Meaning, CutKeys, ReadVariant, Nesting, IsItem, IsShort, Space, ReadElems;
    hide SpelledItems;
    var item := items[0];
    assert IsItem(item);
    ItemParts(item);
    var c: Byte := if |items| == 1 then 93 else 44;
    ItemsSplit(s, p, items);
    ItemSplit(s, p, item, c);
    P.VariantAfterSpace(s, p, item.before, limit - 1) by {
      BlankIsSpace(item.before);
    }
    var q := p + |item.before|;
    if IsShort(item.val) {
      TextReads(s, q, item.val, limit - 1, true);
      assert exists i :: 0 <= i < |items[1..]| && !IsShort(items[1..][i].val) by { LaterOne(items); }
      LongItems(s, p + |SpelledItem(item)| + 1, items[1..], limit);
      ElemsFail(s, p, limit);
    } else {
      LongStands(s, q, item.val, limit - 1, true);
      ElemsFail(s, p, limit);
    }
  }

  lemma LaterOne(items: seq<Item>)
    requires items != [] && IsShort(items[0].val) && exists i :: 0 <= i < |items| && !IsShort(items[i].val)
    ensures |items| > 1 && exists i :: 0 <= i < |items[1..]| && !IsShort(items[1..][i].val)
  {
    hide IsShort;
    var i :| 0 <= i < |items| && !IsShort(items[i].val);
    assert items[1..][i - 1] == items[i];
  }

  /** Elements are not read when the first is not, when it stops inside a number, or when those
      after its comma are not. */
  lemma ElemsFail(s: Bytes, p: nat, limit: nat)
    requires p <= |s| && limit > 0
    requires var v := ReadVariant(s, p, limit - 1, true);
      v.Ok? && !CanBeInNumber(Peek(s, v.pos)) ==>
        Space(s, v.pos, true).At? && var r := Space(s, v.pos, true).pos;
        Peek(s, r) == 44 && ReadElems(s, r + 1, limit).Err?
    ensures ReadElems(s, p, limit).Err?
  {
    hide ReadVariant;
  }

  lemma {:induction false} LongObject(s: Bytes, p: nat, blank: Bytes, pairs: seq<Pair>, limit: nat)
    requires var x := Object(blank, pairs); IsJson(x) && !IsShort(x) && OccursAt(s, p, Spelled(x))
    ensures p < |s| && ReadObject(s, p, limit).Err?
    decreases pairs, 5
  {
    hide ReadMembers, SpelledPairs, Space, OccursAt, IsPair, IsBlank, IsJson, IsShort;
    LongPair(blank, pairs);
    OccursFirst(s, p, Spelled(Object(blank, pairs)));
    OccursSplit(s, p, [123], SpelledPairs(pairs));
    FirstPair(s, p + 1, pairs);
    if limit > 0 {
      LongPairs(s, p + 1, pairs, limit);
    }
  }

  lemma LongPair(blank: Bytes, pairs: seq<Pair>)
    requires IsJson(Object(blank, pairs)) && !IsShort(Object(blank, pairs))
    ensures pairs != [] && forall i :: 0 <= i < |pairs| ==> IsPair(pairs[i])
    ensures exists i :: 0 <= i < |pairs| && !IsShort(pairs[i].item.val)
  {
    hide IsPair;
  }

  lemma {:induction false} LongPairs(s: Bytes, p: nat, pairs: seq<Pair>, limit: nat)
    requires pairs != [] && limit > 0 && forall i :: 0 <= i < |pairs| ==> IsPair(pairs[i])
    requires (exists i :: 0 <= i < |pairs| && !IsShort(pairs[i].item.val)) && OccursAt(s, p, SpelledPairs(pairs))
    ensures p + |pairs[0].before| <= |s| && ReadMembers(s, p + |pairs[0].before|, limit).Err?
    decreases pairs, 4
  {
    hide OccursAt, SpelledFromName, Meaning, CutKeys, ReadVariant, ReadMember, Nesting, IsPair, IsShort, Space, Spelled;
    hide SpelledPairs, SpelledItem, SpelledName, ReadMembers, NameMeaning, ParseKey;
    var pair := pairs[0];
    assert IsPair(pair);
    PairParts(pair);
    ItemParts(pair.item);
    var c: Byte := if |pairs| == 1 then 125 else 44;
    PairsSplit(s, p, pairs);
    var q := p + |pair.before|;
    var r := q + |SpelledFromName(pair)|;
    if IsShort(pair.item.val) {
      LaterPair(pairs);
      LongPairs(s, r + 1, pairs[1..], limit);
      FirstPair(s, r + 1, pairs[1..]);
      ShortMember(s, q, pair, c, limit);
      MembersFail(s, q, limit);
    } else {
      LongMember(s, q, pair, c, limit);
      MembersFail(s, q, limit);
    }
  }

  lemma LaterPair(pairs: seq<Pair>)
    requires pairs != [] && IsShort(pairs[0].item.val)
    requires exists i :: 0 <= i < |pairs| && !IsShort(pairs[i].item.val)
    ensures |pairs| > 1 && exists i :: 0 <= i < |pairs[1..]| && !IsShort(pairs[1..][i].item.val)
  {
    hide IsShort;
    var i :| 0 <= i < |pairs| && !IsShort(pairs[i].item.val);
    assert pairs[1..][i - 1] == pairs[i];
  }

  lemma MembersFail(s: Bytes, p: nat, limit: nat)
    requires p <= |s| && limit > 0
    requires var m := ReadMember(s, p, limit);
      m.Ok? && !CanBeInNumber(Peek(s, m.pos)) ==>
        && Space(s, m.pos, true).At?
        && var r := Space(s, m.pos, true).pos;
           Peek(s, r) == 44 && Space(s, r + 1, true).At? && ReadMembers(s, Space(s, r + 1, true).pos, limit).Err?
    ensures ReadMembers(s, p, limit).Err?
  {
    hide ReadMember;
  }

  /** A pair that is short is read to its end, if it is not too deep. */
  lemma {:induction false} ShortMember(s: Bytes, p: nat, pair: Pair, c: Byte, limit: nat)
    requires IsPair(pair) && IsJson(pair.item.val) && IsShort(pair.item.val) && limit > 0
    requires OccursAt(s, p, SpelledFromName(pair) + [c]) && (c == 44 || c == 125)
    ensures p <= |s| && PairEnds(s, p, pair, c)
    ensures var m := ReadMember(s, p, limit); m.Ok? ==> m.pos == p + |SpelledFromName(pair)| - |pair.item.after|
  {
    hide OccursAt, Spelled, Meaning, CutKeys, ReadVariant, Nesting, IsJson, IsBlank, IsShort, SpelledName, ParseKey;
    hide SpelledItem, IsName, IsItem, CStr, Space, NameMeaning;
    MemberValue(s, p, pair, c, limit);
    ItemLength(pair.item);
    var q := p + |SpelledName(pair.name)| + |pair.afterName| + 1 + |pair.item.before|;
    TextReads(s, q, pair.item.val, limit - 1, true);
  }

  lemma {:induction false} LongMember(s: Bytes, p: nat, pair: Pair, c: Byte, limit: nat)
    requires IsPair(pair) && IsJson(pair.item.val) && !IsShort(pair.item.val) && limit > 0
    requires OccursAt(s, p, SpelledFromName(pair) + [c]) && (c == 44 || c == 125)
    ensures p <= |s|
    ensures var m := ReadMember(s, p, limit); m.Ok? ==> CanBeInNumber(Peek(s, m.pos))
    decreases pair, 2
  {
    hide OccursAt, Spelled, ReadVariant, IsJson, IsBlank, IsShort, SpelledName, ParseKey;
    hide SpelledItem, IsName, IsItem, CStr, Space, NameMeaning;
    MemberValue(s, p, pair, c, limit);
    var q := p + |SpelledName(pair.name)| + |pair.afterName| + 1 + |pair.item.before|;
    LongStands(s, q, pair.item.val, limit - 1, true);
  }

  /** Reading a member is reading its value. */
  lemma MemberValue(s: Bytes, p: nat, pair: Pair, c: Byte, limit: nat)
    requires IsPair(pair) && limit > 0 && OccursAt(s, p, SpelledFromName(pair) + [c]) && (c == 44 || c == 125)
    ensures p <= |s| && PairEnds(s, p, pair, c)
    ensures var q := p + |SpelledName(pair.name)| + |pair.afterName| + 1 + |pair.item.before|;
      && q <= |s| && OccursAt(s, q, Spelled(pair.item.val))
      && !IsNumberChar(Peek(s, q + |Spelled(pair.item.val)|))
      && ReadMember(s, p, limit) ==
        var v := ReadVariant(s, q, limit - 1, true);
        if v.Err? then Err(v.error) else Ok(Member(CStr(NameMeaning(pair.name)), v.val), v.pos)
  {
    hide OccursAt, Spelled, ReadVariant, IsJson, IsBlank, SpelledName, ParseKey, SpelledItem, IsName, IsItem, CStr;
    hide Space, NameMeaning;
    PairParts(pair);
    ItemParts(pair.item);
    PairSplit(s, p, pair, c);
    var q := p + |SpelledName(pair.name)|;
    NameStands(s, p, pair.name);
    var r := q + |pair.afterName| + 1;
    ItemSplit(s, r, pair.item, c);
    P.VariantAfterSpace(s, r, pair.item.before, limit - 1) by {
      BlankIsSpace(pair.item.before);
    }
  }

  // ---- Whole texts ----

  /** What the parser asks of a text: short numbers, a depth within the limit, and nothing after
      a number at the root, not even white space. */
  ghost predicate Accepted(x: Json, rest: Bytes, limit: nat)
    requires IsJson(x)
  {
    IsShort(x) && Nesting(Meaning(x)) <= limit && (x.Number? ==> rest == [] || rest[0] == 0)
  }

  /** Every text of the grammar, with white space before it and anything after it: it is accepted
      exactly then, and read as its meaning, keys cut at a NUL. */
  lemma TextIsRead(before: Bytes, x: Json, rest: Bytes, limit: nat)
    requires IsBlank(before) && IsJson(x) && (x.Number? && rest != [] ==> !IsNumberChar(rest[0]))
    ensures var s := before + (Spelled(x) + rest);
      && (Parse(s, Bool(true), limit).Ok? <==> Accepted(x, rest, limit))
      && (Accepted(x, rest, limit) ==> Reading(s, limit) == Ok(CutKeys(Meaning(x)), |before| + |Spelled(x)|))
      && (IsShort(x) && Nesting(Meaning(x)) > limit ==> Parse(s, Bool(true), limit) == Err(TooDeep))
  {
    hide Parse, ReadVariant, Meaning, CutKeys, Nesting, IsJson, IsShort, Spelled, OccursAt, IsBlank, Peek;
    var s, p := before + (Spelled(x) + rest), |before|;
    TextInPlace(before, Spelled(x), rest);
    RestPeeked(before, Spelled(x), rest);
    VariantFromStart(s, before, limit);
    UnfilteredIsReading(s, limit);
    KindOfMeaning(x);
    if IsShort(x) {
      TextReads(s, p, x, limit, false);
    } else {
      LongStands(s, p, x, limit, false);
      NumberIsNotNul(s, Reading(s, limit));
    }
  }

  lemma TextInPlace(before: Bytes, text: Bytes, rest: Bytes)
    ensures var s := before + (text + rest); OccursAt(s, 0, before) && OccursAt(s, |before|, text)
  {
    var s := before + (text + rest);
    assert s[0..|before|] == before && s[|before|..|before| + |text|] == text;
  }

  lemma RestPeeked(before: Bytes, text: Bytes, rest: Bytes)
    ensures Peek(before + (text + rest), |before| + |text|) == if rest == [] then 0 else rest[0]
  {
  }

  lemma NumberIsNotNul(s: Bytes, r: Result<Value>)
    ensures r.Ok? && CanBeInNumber(Peek(s, r.pos)) ==> Peek(s, r.pos) != 0
  {
  }

  /** White space at the start does not matter to what is read. */
  lemma VariantFromStart(s: Bytes, before: Bytes, limit: nat)
    requires IsBlank(before) && OccursAt(s, 0, before)
    ensures ReadVariant(s, 0, limit, false) == ReadVariant(s, |before|, limit, false)
  {
    hide ReadArray, ReadObject, ReadToken;
    BlankIsSpace(before);
    P.SpacesSkipped(s, 0, before);
  }

  lemma KindOfMeaning(x: Json)
    requires IsJson(x)
    ensures IsEnclosed(CutKeys(Meaning(x))) <==> !x.Number?
  {
    if x.Number? {
      NumberIsPlain(x.num);
    }
  }

  /** So an accepted text is parsed, when it repeats no key, to its meaning, and under any filter
      to the projection of its meaning. */
  lemma TextParses(before: Bytes, x: Json, rest: Bytes, f: Value, limit: nat)
    requires IsBlank(before) && IsJson(x) && (x.Number? && rest != [] ==> !IsNumberChar(rest[0]))
    requires Accepted(x, rest, limit) && UniqueKeys(CutKeys(Meaning(x)))
    ensures var s := before + (Spelled(x) + rest); var end := |before| + |Spelled(x)|;
      && Parse(s, Bool(true), limit) == Ok(CutKeys(Meaning(x)), end)
      && Parse(s, f, limit) == Ok(Project(f, CutKeys(Meaning(x))), end)
    ensures CutKeys(Meaning(x)) == Meaning(x) <==> PlainKeys(Meaning(x))
  {
    hide Parse, Meaning, CutKeys, IsJson, Spelled, Project, UniqueKeys, Reading, PlainKeys;
    TextIsRead(before, x, rest, limit);
    var s := before + (Spelled(x) + rest);
    FilteringCommutes(s, f, limit);
    FilteringCommutes(s, Bool(true), limit);
    AllowAllProjectsToItself(Bool(true), CutKeys(Meaning(x)));
    UnfilteredIsReading(s, limit);
    CutChangesNothing(Meaning(x));
  }

  /** White space alone is no text. */
  lemma BlankIsEmpty(blank: Bytes, f: Value, limit: nat)
    requires IsBlank(blank)
    ensures Parse(blank, f, limit) == Err(EmptyInput)
  {
    BlankIsSpace(blank);
    assert blank[0..|blank|] == blank;
    P.SpacesSkipped(blank, 0, blank);
  }

  /** After an element comes white space, a comma or a bracket, and after a comma an element. */
  lemma WrongSeparator(x: Json, c: Byte, rest: Bytes, limit: nat)
    requires IsJson(x) && IsShort(x) && Nesting(Meaning(x)) < limit && (x.Number? ==> !IsNumberChar(c))
    requires c != 0 && c != 32 && c != 9 && c != 10 && c != 13 && c != 44 && c != 93
    ensures Reading([91] + (Spelled(x) + ([c] + rest)), limit) == Err(InvalidInput)
    ensures Reading([91] + (Spelled(x) + ([44, 93] + rest)), limit) == Err(InvalidInput)
  {
    hide Meaning, CutKeys, Nesting, IsJson, IsShort, Spelled, ReadVariant;
    AfterFirst(x, [c] + rest, limit);
    AfterFirst(x, [44, 93] + rest, limit);
    var s := [91] + (Spelled(x) + ([44, 93] + rest));
    var q := 1 + |Spelled(x)|;
    assert Peek(s, q) == 44 && Peek(s, q + 1) == 93;
    BracketIsNoValue(s, q + 1, limit - 1);
    assert ReadElems(s, q + 1, limit) == Err(InvalidInput);
  }

  lemma BracketIsNoValue(s: Bytes, p: nat, limit: nat)
    requires p < |s| && Peek(s, p) == 93
    ensures ReadVariant(s, p, limit, true) == Err(InvalidInput)
  {
    assert NumberEnd(s, p, 63) == p;
    assert s[p..p] == [];
    assert Numbers.ParseNumber([]) == None;
  }

  /** Reading an array up to what follows its first element. */
  lemma AfterFirst(x: Json, more: Bytes, limit: nat)
    requires IsJson(x) && IsShort(x) && Nesting(Meaning(x)) < limit && more != []
    requires more[0] != 0 && more[0] != 32 && more[0] != 9 && more[0] != 10 && more[0] != 13 && more[0] != 93
    requires x.Number? ==> !IsNumberChar(more[0])
    ensures var s := [91] + (Spelled(x) + more); var q := 1 + |Spelled(x)|;
      && q < |s| && Peek(s, q) == more[0]
      && Reading(s, limit) ==
        if more[0] != 44 then Err(InvalidInput)
        else
          var vs := ReadElems(s, q + 1, limit);
          if vs.Err? then Err(vs.error) else Ok(Arr([CutKeys(Meaning(x))] + vs.val), vs.pos)
  {
    hide Meaning, CutKeys, Nesting, IsJson, IsShort, Spelled, OccursAt, ReadVariant, IsBlank;
    var s, q := [91] + (Spelled(x) + more), 1 + |Spelled(x)|;
    TextInPlace([91], Spelled(x), more);
    RestPeeked([91], Spelled(x), more);
    TextReads(s, 1, x, limit - 1, true);
    Starts(x);
    OccursFirst(s, 1, Spelled(x));
    ArrayOpens(s, limit);
  }

  lemma ArrayOpens(s: Bytes, limit: nat)
    requires |s| > 1 && s[0] == 91 && limit > 0
    requires s[1] != 0 && s[1] != 32 && s[1] != 9 && s[1] != 10 && s[1] != 13 && s[1] != 93
    ensures Reading(s, limit) ==
      var vs := ReadElems(s, 1, limit);
      if vs.Err? then Err(vs.error) else Ok(Arr(vs.val), vs.pos)
  {
    hide ReadElems;
    assert Space(s, 0, false) == At(0) && Space(s, 1, true) == At(1);
    assert ReadArray(s, 0, limit) == ReadElems(s, 1, limit);
  }

  lemma ColonNeeded(chars: seq<Char>, c: Byte, rest: Bytes, limit: nat)
    requires IsString(34, chars) && limit > 0 && c != 0 && c != 32 && c != 9 && c != 10 && c != 13 && c != 58
    ensures Reading([123] + (SpelledName(Quoted(34, chars)) + ([c] + rest)), limit) == Err(InvalidInput)
  {
    hide OccursAt, SpelledChars, ParseQuoted, ReadMembers, IsChar;
    var name := SpelledName(Quoted(34, chars));
    var s := [123] + (name + ([c] + rest));
    TextInPlace([123], name, [c] + rest);
    RestPeeked([123], name, [c] + rest);
    StringStands(s, 1, 34, chars);
    assert Space(s, 0, false) == At(0) && Space(s, 1, true) == At(1);
    assert ParseKey(s, 1) == Ok(CharsMeaning(chars), 1 + |name|);
    assert Space(s, 1 + |name|, true) == At(1 + |name|);
    assert ReadMember(s, 1, limit) == Err(InvalidInput);
    assert ReadObject(s, 0, limit) == Err(InvalidInput) by {
      assert ReadMembers(s, 1, limit) == Err(InvalidInput) by { MembersNeedMember(s, 1, limit); }
    }
  }

  lemma MembersNeedMember(s: Bytes, p: nat, limit: nat)
    requires p <= |s| && limit > 0 && ReadMember(s, p, limit).Err?
    ensures ReadMembers(s, p, limit) == Err(ReadMember(s, p, limit).error)
  {
    hide ReadMember;
  }

  // ---- The printers ----

  /** The texts of the RFC among those of the grammar. */
  predicate IsRfc(x: Json) {
    match x
    case Number(num) => num.whole != [] && (|num.whole| == 1 || num.whole[0] != 48)
    case Text(quote, chars) => IsRfcString(quote, chars)
    case Array(_, items) => forall i :: 0 <= i < |items| ==> IsRfc(items[i].val)
    case Object(_, pairs) => forall i :: 0 <= i < |pairs| ==> IsRfcName(pairs[i].name) && IsRfc(pairs[i].item.val)
    case _ => true
  }

  predicate IsRfcName(name: Name) { name.Quoted? && IsRfcString(name.quote, name.chars) }

  predicate IsRfcString(quote: Byte, chars: seq<Char>) {
    quote == 34 && forall i :: 0 <= i < |chars| && chars[i].Plain? ==> chars[i].c >= 32
  }

  /** A control character without an escape of its own. */
  predicate IsControl(c: Byte) { 1 <= c < 32 && c != 8 && c != 9 && c != 10 && c != 12 && c != 13 }

  predicate ControlFree(t: Bytes) { forall i :: 0 <= i < |t| ==> !IsControl(t[i]) }

  /** No string and no key holds such a character. */
  predicate NoControls(v: Value) {
    match v
    case Str(t) => ControlFree(t)
    case Arr(es) => forall i :: 0 <= i < |es| ==> NoControls(es[i])
    case Obj(ms) => forall i :: 0 <= i < |ms| ==> ControlFree(ms[i].key) && NoControls(ms[i].val)
    case _ => true
  }

  lemma {:induction false} PrintedChars(t: Bytes) returns (chars: seq<Char>)
    ensures IsString(34, chars) && SpelledChars(chars) == P.PrintChars(t) && CharsMeaning(chars) == t
    ensures ControlFree(t) ==> IsRfcString(34, chars)
    decreases t
  {
    hide SpelledChar, CharMeaning, IsChar, P.PrintChar;
    if t == [] {
      chars := [];
    } else {
      var first := PrintedChar(t[0]);
      var rest := PrintedChars(t[1..]);
      chars := [first] + rest;
      assert chars[1..] == rest && t == [t[0]] + t[1..];
      assert ControlFree(t) ==> ControlFree(t[1..]);
    }
  }

  lemma PrintedChar(c: Byte) returns (ch: Char)
    ensures IsChar(ch, 34) && SpelledChar(ch) == P.PrintChar(c) && CharMeaning(ch) == [c]
    ensures !IsControl(c) && ch.Plain? ==> ch.c >= 32
  {
    if c == 0 {
      ch := Point(0, [92, 117, 48, 48, 48, 48]);
    } else if EscapeChar(c) != 0 {
      ch := Letter(EscapeChar(c));
    } else {
      ch := Plain(c);
    }
  }

  lemma PrintedNumber(n: int) returns (num: NumberText)
    requires -9223372036854775808 <= n <= 18446744073709551615
    ensures IsNumber(num) && SpelledNumber(num) == Numbers.PrintInt(n) && NumberMeaning(num) == Int(n)
    ensures IsRfc(Number(num))
  {
    var m := if n < 0 then 0 - n else n;
    num := NumberText(n < 0, Numbers.PrintNat(m), [], D.Mark(false, false), false, []);
    D.ValueOfPrinted(m);
    NoLeadingZero(m);
    PlainSpelling(num);
    assert IsNumber(num) && NumberMeaning(num) == Int(n) by { hide Numbers.PrintNat; }
  }

  /** A number without fraction and exponent is its sign and its digits. */
  lemma PlainSpelling(num: NumberText)
    requires num.frac == [] && num.exp == []
    ensures SpelledNumber(num) == (if num.negative then [45] else []) + num.whole
  {
    assert num.whole + ([] + []) == num.whole;
  }

  lemma {:induction false} NoLeadingZero(m: nat)
    ensures var t := Numbers.PrintNat(m); |t| == 1 || t[0] != 48
    ensures m > 0 ==> Numbers.PrintNat(m)[0] != 48
  {
    if m >= 10 {
      NoLeadingZero(m / 10);
    }
  }

  lemma LeadIsBlank(style: P.Style, n: nat)
    ensures IsBlank(P.Lead(style, n))
  {
  }

  /** What a printer writes is a text that means the value; a text of the RFC, when no string
      holds a control character without an escape. */
  lemma {:induction false} PrintsText(style: P.Style, v: Value, n: nat) returns (x: Json)
    requires FloatFree(v) && P.Printable(v)
    ensures IsJson(x) && Spelled(x) == P.Print(style, v, n) && Meaning(x) == v && (NoControls(v) ==> IsRfc(x))
    decreases v, 0
  {
    hide P.PrintElems, P.PrintMembers, P.PrintChars, P.Lead, SpelledItems, SpelledPairs, ItemsMeaning, PairsMeaning;
    hide SpelledChars, CharsMeaning, NumberMeaning, SpelledNumber, Numbers.PrintInt;
    match v
    case Null => x := Word(None);
    case Bool(b) => x := Word(Some(b));
    case Int(i) =>
      var num := PrintedNumber(i);
      x := Number(num);
    case Str(t) =>
      var chars := PrintedChars(t);
      x := Text(34, chars);
      assert [34] + (SpelledChars(chars) + [34]) == [34] + SpelledChars(chars) + [34];
    case Arr(es) =>
      if es == [] {
        x := Array([], []);
        NothingPrinted();
      } else {
        var items := PrintsItems(style, es, n + 1, n);
        x := Array([], items);
        ArrayText(style, es, n);
      }
    case Obj(ms) =>
      if ms == [] {
        x := Object([], []);
        NothingPrinted();
      } else {
        var pairs := PrintsPairs(style, ms, n + 1, n);
        x := Object([], pairs);
        ObjectText(style, ms, n);
      }
  }

  lemma NothingPrinted()
    ensures ItemsMeaning([]) == [] && PairsMeaning([]) == []
    ensures [91] + ([] + [93]) == [91, 93] && [123] + ([] + [125]) == [123, 125]
  {
  }

  lemma {:induction false} ArrayText(style: P.Style, es: seq<Value>, n: nat)
    requires es != [] && FloatFree(Arr(es))
    ensures P.Print(style, Arr(es), n) ==
      [91] + (P.Lead(style, n + 1) + (P.PrintElems(style, es, n + 1) + (P.Lead(style, n) + [93])))
  {
    hide P.PrintElems, P.Lead;
    Unnested(P.Lead(style, n + 1), P.PrintElems(style, es, n + 1), P.Lead(style, n), 91, 93);
  }

  lemma {:induction false} ObjectText(style: P.Style, ms: seq<Member>, n: nat)
    requires ms != [] && FloatFree(Obj(ms))
    ensures P.Print(style, Obj(ms), n) ==
      [123] + (P.Lead(style, n + 1) + (P.PrintMembers(style, ms, n + 1) + (P.Lead(style, n) + [125])))
  {
    hide P.PrintMembers, P.Lead;
    Unnested(P.Lead(style, n + 1), P.PrintMembers(style, ms, n + 1), P.Lead(style, n), 123, 125);
  }

  lemma Unnested(a: Bytes, b: Bytes, c: Bytes, open: Byte, close: Byte)
    ensures [open] + a + b + c + [close] == [open] + (a + (b + (c + [close])))
  {
  }

  lemma {:induction false} PrintsItems(style: P.Style, es: seq<Value>, n: nat, outer: nat) returns (items: seq<Item>)
    requires es != [] && forall i :: 0 <= i < |es| ==> FloatFree(es[i]) && P.Printable(es[i])
    ensures items != [] && forall i :: 0 <= i < |items| ==> IsItem(items[i])
    ensures SpelledItems(items) == P.Lead(style, n) + (P.PrintElems(style, es, n) + (P.Lead(style, outer) + [93]))
    ensures ItemsMeaning(items) == es
    ensures (forall i :: 0 <= i < |es| ==> NoControls(es[i])) ==> forall i :: 0 <= i < |items| ==> IsRfc(items[i].val)
    decreases es, 1
  {
    hide P.Print, P.Lead, Spelled, Meaning, IsJson, IsRfc, NoControls, FloatFree, P.Printable, IsBlank, ItemsMeaning;
    hide SpelledItems, P.PrintElems;
    LeadIsBlank(style, n);
    LeadIsBlank(style, outer);
    NoBlank();
    var x := PrintsText(style, es[0], n);
    if |es| == 1 {
      items := [Item(P.Lead(style, n), x, P.Lead(style, outer))];
      OneItem(style, es, n, outer, items, x);
    } else {
      var rest := PrintsItems(style, es[1..], n, outer);
      items := [Item(P.Lead(style, n), x, [])] + rest;
      MoreItems(style, es, n, outer, items, x, rest);
    }
  }

  lemma NoBlank()
    ensures IsBlank([]) && IsBlank([32])
  {
  }

  lemma {:induction false} OneItem(style: P.Style, es: seq<Value>, n: nat, outer: nat, items: seq<Item>, x: Json)
    requires |es| == 1 && FloatFree(es[0]) && IsJson(x) && Spelled(x) == P.Print(style, es[0], n) && Meaning(x) == es[0]
    requires items == [Item(P.Lead(style, n), x, P.Lead(style, outer))] && IsItem(items[0])
    ensures SpelledItems(items) == P.Lead(style, n) + (P.PrintElems(style, es, n) + (P.Lead(style, outer) + [93]))
    ensures ItemsMeaning(items) == es
  {
    hide P.Print, P.Lead, Spelled, Meaning;
    assert items[1..] == [] && ItemsMeaning(items[1..]) == [];
    assert es == [es[0]];
    Closing(P.Lead(style, n), P.Print(style, es[0], n), P.Lead(style, outer), [93]);
    assert P.Print(style, es[0], n) + [] == P.Print(style, es[0], n);
  }

  lemma Closing(a: Bytes, b: Bytes, c: Bytes, d: Bytes)
    ensures (a + (b + c)) + d == a + (b + (c + d))
  {
  }

  lemma {:induction false} MoreItems(style: P.Style, es: seq<Value>, n: nat, outer: nat, items: seq<Item>, x: Json,
                                     rest: seq<Item>)
    requires |es| > 1 && rest != [] && (forall i :: 0 <= i < |es| ==> FloatFree(es[i]))
    requires IsJson(x) && Spelled(x) == P.Print(style, es[0], n) && Meaning(x) == es[0]
    requires items == [Item(P.Lead(style, n), x, [])] + rest && forall i :: 0 <= i < |items| ==> IsItem(items[i])
    requires forall i :: 0 <= i < |rest| ==> IsItem(rest[i])
    requires SpelledItems(rest) == P.Lead(style, n) + (P.PrintElems(style, es[1..], n) + (P.Lead(style, outer) + [93]))
    requires ItemsMeaning(rest) == es[1..]
    ensures SpelledItems(items) == P.Lead(style, n) + (P.PrintElems(style, es, n) + (P.Lead(style, outer) + [93]))
    ensures ItemsMeaning(items) == es
  {
    hide P.Print, P.Lead, Spelled, Meaning;
    assert items[1..] == rest && es == [es[0]] + es[1..];
    var lead, text, more, end := P.Lead(style, n), P.Print(style, es[0], n), P.PrintElems(style, es[1..], n),
      P.Lead(style, outer) + [93];
    assert text + [] == text;
    Joined(lead, text, more, end);
  }

  lemma Joined(lead: Bytes, text: Bytes, more: Bytes, end: Bytes)
    ensures (lead + text) + ([44] + (lead + (more + end))) == lead + ((text + ([44] + lead + more)) + end)
  {
  }

  lemma {:induction false} PrintsPairs(style: P.Style, ms: seq<Member>, n: nat, outer: nat) returns (pairs: seq<Pair>)
    requires ms != []
    requires forall i :: 0 <= i < |ms| ==> FloatFree(ms[i].val) && 0 !in ms[i].key && P.Printable(ms[i].val)
    ensures pairs != [] && forall i :: 0 <= i < |pairs| ==> IsPair(pairs[i])
    ensures SpelledPairs(pairs) == P.Lead(style, n) + (P.PrintMembers(style, ms, n) + (P.Lead(style, outer) + [125]))
    ensures PairsMeaning(pairs) == ms
    ensures (forall i :: 0 <= i < |ms| ==> ControlFree(ms[i].key) && NoControls(ms[i].val)) ==>
      forall i :: 0 <= i < |pairs| ==> IsRfcName(pairs[i].name) && IsRfc(pairs[i].item.val)
    decreases ms, 1
  {
    hide P.Print, P.Lead, Spelled, Meaning, IsJson, IsRfc, NoControls, FloatFree, P.Printable, IsBlank, PairsMeaning;
    hide SpelledPairs, P.PrintMembers, P.PrintChars, SpelledChars, CharsMeaning, IsString, IsRfcString, ControlFree;
    LeadIsBlank(style, n);
    LeadIsBlank(style, outer);
    NoBlank();
    var m := ms[0];
    var chars := PrintedChars(m.key);
    var x := PrintsText(style, m.val, n);
    if |ms| == 1 {
      pairs := [PairOf(style, n, chars, x, P.Lead(style, outer))];
      PairOfIsPrinted(style, m, n, chars, x, P.Lead(style, outer));
      OnePair(style, ms, n, outer, pairs);
    } else {
      var rest := PrintsPairs(style, ms[1..], n, outer);
      pairs := [PairOf(style, n, chars, x, [])] + rest;
      PairOfIsPrinted(style, m, n, chars, x, []);
      MorePairs(style, ms, n, outer, pairs, rest);
    }
  }

  /** The pair that a printer writes for a member. */
  ghost predicate IsPrinted(style: P.Style, m: Member, n: nat, pair: Pair) {
    && FloatFree(m.val) && 0 !in m.key && IsPair(pair) && IsJson(pair.item.val)
    && pair.before == P.Lead(style, n) && pair.name.Quoted? && pair.name.quote == 34 && pair.afterName == []
    && SpelledChars(pair.name.chars) == P.PrintChars(m.key) && CharsMeaning(pair.name.chars) == m.key
    && pair.item.before == (if style.Compact? then [] else [32])
    && Spelled(pair.item.val) == P.Print(style, m.val, n) && Meaning(pair.item.val) == m.val
  }

  function PairOf(style: P.Style, n: nat, chars: seq<Char>, x: Json, after: Bytes): Pair {
    Pair(P.Lead(style, n), Quoted(34, chars), [], Item(if style.Compact? then [] else [32], x, after))
  }

  lemma {:induction false} PairOfIsPrinted(style: P.Style, m: Member, n: nat, chars: seq<Char>, x: Json, after: Bytes)
    requires FloatFree(m.val) && 0 !in m.key && IsString(34, chars) && IsJson(x) && IsBlank(after)
    requires SpelledChars(chars) == P.PrintChars(m.key) && CharsMeaning(chars) == m.key
    requires Spelled(x) == P.Print(style, m.val, n) && Meaning(x) == m.val
    ensures IsPrinted(style, m, n, PairOf(style, n, chars, x, after))
  {
    hide P.Print, P.Lead, Spelled, Meaning, IsJson, IsBlank, P.PrintChars, SpelledChars, CharsMeaning, IsString;
    LeadIsBlank(style, n);
    NoBlank();
    var pair := PairOf(style, n, chars, x, after);
    assert IsItem(pair.item);
  }

  lemma {:induction false} PrintedPair(style: P.Style, m: Member, n: nat, pair: Pair)
    requires IsPrinted(style, m, n, pair)
    ensures SpelledFromName(pair) == P.PrintMember(style, m, n) + pair.item.after
    ensures NameMeaning(pair.name) == m.key
  {
    hide P.Print, P.Lead, Spelled, Meaning, IsPair, SpelledChars, P.PrintChars, CharsMeaning;
    CStrOfNulFree(m.key);
    var chars, text, after := P.PrintChars(m.key), P.Print(style, m.val, n), pair.item.after;
    assert [34] + (chars + [34]) == [34] + chars + [34];
    if style.Compact? {
      assert ([34] + chars + [34]) + ([] + ([58] + ([] + (text + after))))
        == ([34] + chars + [34] + [58] + text) + after;
    } else {
      assert ([34] + chars + [34]) + ([] + ([58] + ([32] + (text + after))))
        == ([34] + chars + [34] + [58, 32] + text) + after;
    }
  }

  lemma {:induction false} OnePair(style: P.Style, ms: seq<Member>, n: nat, outer: nat, pairs: seq<Pair>)
    requires |ms| == 1 == |pairs| && IsPrinted(style, ms[0], n, pairs[0])
    requires pairs[0].item.after == P.Lead(style, outer)
    ensures SpelledPairs(pairs) == P.Lead(style, n) + (P.PrintMembers(style, ms, n) + (P.Lead(style, outer) + [125]))
    ensures PairsMeaning(pairs) == ms
  {
    hide P.PrintMember, P.Lead, SpelledFromName, Meaning, NameMeaning;
    PrintedPair(style, ms[0], n, pairs[0]);
    assert pairs[1..] == [] && PairsMeaning(pairs[1..]) == [];
    assert ms == [ms[0]];
    var text, end := P.PrintMember(style, ms[0], n), P.Lead(style, outer);
    assert P.PrintMembers(style, ms, n) == text + [] == text;
    assert (text + end) + [125] == text + (end + [125]);
  }

  lemma {:induction false} MorePairs(style: P.Style, ms: seq<Member>, n: nat, outer: nat, pairs: seq<Pair>,
                                     rest: seq<Pair>)
    requires |ms| > 1 && rest != [] && (forall i :: 0 <= i < |ms| ==> FloatFree(ms[i].val))
    requires |pairs| == 1 + |rest| && pairs[1..] == rest && IsPrinted(style, ms[0], n, pairs[0])
    requires pairs[0].item.after == [] && forall i :: 0 <= i < |pairs| ==> IsPair(pairs[i])
    requires forall i :: 0 <= i < |rest| ==> IsPair(rest[i])
    requires SpelledPairs(rest)
      == P.Lead(style, n) + (P.PrintMembers(style, ms[1..], n) + (P.Lead(style, outer) + [125]))
    requires PairsMeaning(rest) == ms[1..]
    ensures SpelledPairs(pairs) == P.Lead(style, n) + (P.PrintMembers(style, ms, n) + (P.Lead(style, outer) + [125]))
    ensures PairsMeaning(pairs) == ms
  {
    hide P.PrintMember, P.Lead, SpelledFromName, Meaning, NameMeaning;
    PrintedPair(style, ms[0], n, pairs[0]);
    assert ms == [ms[0]] + ms[1..];
    var lead, text, more, end := P.Lead(style, n), P.PrintMember(style, ms[0], n), P.PrintMembers(style, ms[1..], n),
      P.Lead(style, outer) + [125];
    assert text + [] == text;
    Joined(lead, text, more, end);
    Closing(lead, text, [], [44] + SpelledPairs(rest));
    assert lead + (text + ([44] + (lead + (more + end)))) == (lead + text) + ([44] + (lead + (more + end)));
  }

  // ---- Control characters ----

  /** The bytes of a text of the RFC. */
  predicate IsRfcByte(c: Byte) { c >= 32 || c == 9 || c == 10 || c == 13 }

  predicate RfcBytes(t: Bytes) { forall i :: 0 <= i < |t| ==> IsRfcByte(t[i]) }

  lemma {:induction false} BothRfcBytes(a: Bytes, b: Bytes)
    ensures RfcBytes(a + b) <==> RfcBytes(a) && RfcBytes(b)
  {
    assert forall i :: 0 <= i < |a| ==> (a + b)[i] == a[i];
    assert forall i :: 0 <= i < |b| ==> (a + b)[|a| + i] == b[i];
  }

  lemma {:induction false} RfcChars(quote: Byte, chars: seq<Char>)
    requires IsString(quote, chars) && IsRfcString(quote, chars)
    ensures RfcBytes(SpelledChars(chars))
    decreases |chars|
  {
    if chars != [] {
      RfcChars(quote, chars[1..]);
      RfcChar(chars[0]);
      BothRfcBytes(SpelledChar(chars[0]), SpelledChars(chars[1..]));
    }
  }

  lemma {:induction false} RfcChar(ch: Char)
    requires IsChar(ch, 34) && (ch.Plain? ==> ch.c >= 32)
    ensures RfcBytes(SpelledChar(ch))
  {
    match ch
    case Point(cp, text) =>
      if cp < 0x10000 {
        RfcUnit(text, cp);
      } else {
        RfcUnit(text[..6], 0xD800 + (cp - 0x10000) / 1024);
        RfcUnit(text[6..], 0xDC00 + (cp - 0x10000) % 1024);
        BothRfcBytes(text[..6], text[6..]);
        assert text == text[..6] + text[6..];
      }
    case _ =>
  }

  lemma {:induction false} RfcUnit(t: Bytes, unit: nat)
    requires JsonUnicode.Escapes(t, unit)
    ensures RfcBytes(t)
  {
  }

  lemma {:induction false} RfcNumber(num: NumberText)
    requires IsNumber(num)
    ensures RfcBytes(SpelledNumber(num))
  {
    NumberChars(num);
  }

  lemma {:induction false} RfcBlank(blank: Bytes)
    requires IsBlank(blank)
    ensures RfcBytes(blank)
  {
  }

  lemma {:induction false} RfcName(name: Name)
    requires IsName(name) && IsRfcName(name)
    ensures RfcBytes(SpelledName(name))
  {
    RfcChars(34, name.chars);
    BothRfcBytes(SpelledChars(name.chars), [34]);
    BothRfcBytes([34], SpelledChars(name.chars) + [34]);
  }

  /** No text of the RFC holds a control character but white space. */
  lemma {:induction false} RfcText(x: Json)
    requires IsJson(x) && IsRfc(x)
    ensures RfcBytes(Spelled(x))
    decreases x, 0
  {
    hide RfcBytes, SpelledChars, SpelledItems, SpelledPairs, SpelledNumber, IsNumber, IsString, IsBlank, IsItem, IsPair;
    hide IsRfcString, IsRfcName;
    match x
    case Word(b) => RfcWord(b);
    case Number(num) => RfcNumber(num);
    case Text(quote, chars) => RfcName(Quoted(quote, chars)) by { RfcTextName(x); }
    case Array(blank, items) =>
      OneRfcByte(91);
      if items == [] {
        RfcBlank(blank);
        OneRfcByte(93);
        BothRfcBytes(blank, [93]);
        BothRfcBytes([91], blank + [93]);
      } else {
        RfcItems(items);
        BothRfcBytes([91], SpelledItems(items));
      }
    case Object(blank, pairs) =>
      OneRfcByte(123);
      if pairs == [] {
        RfcBlank(blank);
        OneRfcByte(125);
        BothRfcBytes(blank, [125]);
        BothRfcBytes([123], blank + [125]);
      } else {
        RfcPairs(pairs);
        BothRfcBytes([123], SpelledPairs(pairs));
      }
  }

  lemma {:induction false} RfcTextName(x: Json)
    requires IsJson(x) && IsRfc(x) && x.Text?
    ensures IsName(Quoted(x.quote, x.chars)) && IsRfcName(Quoted(x.quote, x.chars))
  {
  }

  lemma {:induction false} OneRfcByte(c: Byte)
    ensures IsRfcByte(c) ==> RfcBytes([c])
  {
  }

  lemma {:induction false} RfcWord(b: Option<bool>)
    ensures RfcBytes(Spelled(Word(b)))
  {
  }

  lemma {:induction false} RfcItem(item: Item)
    requires IsItem(item) && IsRfc(item.val)
    ensures RfcBytes(SpelledItem(item))
    decreases item, 1
  {
    hide RfcBytes, Spelled, IsJson, IsRfc, IsBlank;
    ItemParts(item);
    RfcText(item.val);
    RfcBlank(item.before);
    RfcBlank(item.after);
    BothRfcBytes(Spelled(item.val), item.after);
    BothRfcBytes(item.before, Spelled(item.val) + item.after);
  }

  lemma {:induction false} RfcItems(items: seq<Item>)
    requires items != [] && forall i :: 0 <= i < |items| ==> IsItem(items[i]) && IsRfc(items[i].val)
    ensures RfcBytes(SpelledItems(items))
    decreases items, 2
  {
    hide RfcBytes, SpelledItem, IsItem, IsRfc;
    assert IsItem(items[0]) && IsRfc(items[0].val);
    RfcItem(items[0]);
    OneRfcByte(93);
    OneRfcByte(44);
    if |items| == 1 {
      BothRfcBytes(SpelledItem(items[0]), [93]);
    } else {
      RfcItems(items[1..]);
      BothRfcBytes([44], SpelledItems(items[1..]));
      BothRfcBytes(SpelledItem(items[0]), [44] + SpelledItems(items[1..]));
    }
  }

  lemma {:induction false} RfcPair(pair: Pair)
    requires IsPair(pair) && IsRfcName(pair.name) && IsRfc(pair.item.val)
    ensures RfcBytes(SpelledFromName(pair))
    decreases pair, 2
  {
    hide RfcBytes, SpelledItem, SpelledName, IsJson, IsRfc, IsBlank, IsName, IsRfcName, IsItem;
    PairParts(pair);
    RfcItem(pair.item);
    RfcName(pair.name);
    RfcBlank(pair.afterName);
    OneRfcByte(58);
    BothRfcBytes([58], SpelledItem(pair.item));
    BothRfcBytes(pair.afterName, [58] + SpelledItem(pair.item));
    BothRfcBytes(SpelledName(pair.name), pair.afterName + ([58] + SpelledItem(pair.item)));
  }

  lemma {:induction false} RfcPairs(pairs: seq<Pair>)
    requires pairs != []
    requires forall i :: 0 <= i < |pairs| ==> IsPair(pairs[i]) && IsRfcName(pairs[i].name) && IsRfc(pairs[i].item.val)
    ensures RfcBytes(SpelledPairs(pairs))
    decreases pairs, 3
  {
    hide RfcBytes, SpelledFromName, IsPair, IsRfc, IsRfcName, IsBlank;
    var pair := pairs[0];
    assert IsPair(pair) && IsRfcName(pair.name) && IsRfc(pair.item.val);
    PairParts(pair);
    RfcPair(pair);
    RfcBlank(pair.before);
    OneRfcByte(125);
    OneRfcByte(44);
    var tail := if |pairs| == 1 then [125] else [44] + SpelledPairs(pairs[1..]);
    if |pairs| > 1 {
      RfcPairs(pairs[1..]);
      BothRfcBytes([44], SpelledPairs(pairs[1..]));
    }
    BothRfcBytes(SpelledFromName(pair), tail);
    BothRfcBytes(pair.before, SpelledFromName(pair) + tail);
  }

  lemma {:induction false} RawChars(t: Bytes)
    ensures RfcBytes(P.PrintChars(t)) ==> ControlFree(t)
    decreases t
  {
    if t != [] {
      RawChars(t[1..]);
      BothRfcBytes(P.PrintChar(t[0]), P.PrintChars(t[1..]));
      RawChar(t[0]);
    }
  }

  lemma {:induction false} RawChar(c: Byte)
    ensures RfcBytes(P.PrintChar(c)) ==> !IsControl(c)
  {
    assert IsControl(c) ==> P.PrintChar(c)[0] == c && !IsRfcByte(c);
  }

  /** A control character without an escape is printed as it is. */
  lemma {:induction false} RawControls(style: P.Style, v: Value, n: nat)
    requires FloatFree(v) && RfcBytes(P.Print(style, v, n)) && P.Printable(v)
    ensures NoControls(v)
    decreases v, 0
  {
    hide RfcBytes, P.PrintElems, P.PrintMembers, P.PrintChars, P.Lead, Numbers.PrintInt;
    match v
    case Str(t) =>
      RawChars(t);
      BothRfcBytes([34], P.PrintChars(t));
      BothRfcBytes([34] + P.PrintChars(t), [34]);
    case Arr(es) =>
      if es != [] {
        ArrayText(style, es, n);
        var last := P.Lead(style, n) + [93];
        BothRfcBytes([91], P.Lead(style, n + 1) + (P.PrintElems(style, es, n + 1) + last));
        BothRfcBytes(P.Lead(style, n + 1), P.PrintElems(style, es, n + 1) + last);
        BothRfcBytes(P.PrintElems(style, es, n + 1), last);
        RawElems(style, es, n + 1);
      }
    case Obj(ms) =>
      if ms != [] {
        ObjectText(style, ms, n);
        var last := P.Lead(style, n) + [125];
        BothRfcBytes([123], P.Lead(style, n + 1) + (P.PrintMembers(style, ms, n + 1) + last));
        BothRfcBytes(P.Lead(style, n + 1), P.PrintMembers(style, ms, n + 1) + last);
        BothRfcBytes(P.PrintMembers(style, ms, n + 1), last);
        RawMembers(style, ms, n + 1);
      }
    case _ =>
  }

  lemma {:induction false} RawElems(style: P.Style, es: seq<Value>, n: nat)
    requires es != [] && forall i :: 0 <= i < |es| ==> FloatFree(es[i]) && P.Printable(es[i])
    requires RfcBytes(P.PrintElems(style, es, n))
    ensures forall i :: 0 <= i < |es| ==> NoControls(es[i])
    decreases es, 1
  {
    hide RfcBytes, P.Print, P.Lead, FloatFree, P.Printable, NoControls;
    var tail := if |es| == 1 then [] else [44] + P.Lead(style, n) + P.PrintElems(style, es[1..], n);
    BothRfcBytes(P.Print(style, es[0], n), tail);
    RawControls(style, es[0], n);
    if |es| > 1 {
      BothRfcBytes([44] + P.Lead(style, n), P.PrintElems(style, es[1..], n));
      RawElems(style, es[1..], n);
      assert forall i :: 0 < i < |es| ==> es[i] == es[1..][i - 1];
    }
  }

  lemma {:induction false} RawMembers(style: P.Style, ms: seq<Member>, n: nat)
    requires ms != []
    requires forall i :: 0 <= i < |ms| ==> FloatFree(ms[i].val) && 0 !in ms[i].key && P.Printable(ms[i].val)
    requires RfcBytes(P.PrintMembers(style, ms, n))
    ensures forall i :: 0 <= i < |ms| ==> ControlFree(ms[i].key) && NoControls(ms[i].val)
    decreases ms, 1
  {
    hide RfcBytes, P.Print, P.Lead, FloatFree, P.Printable, NoControls, P.PrintChars, ControlFree;
    var m := ms[0];
    CStrOfNulFree(m.key);
    var tail := if |ms| == 1 then [] else [44] + P.Lead(style, n) + P.PrintMembers(style, ms[1..], n);
    BothRfcBytes(P.PrintMember(style, m, n), tail);
    BothRfcBytes(P.PrintString(m.key) + P.ColonText(style), P.Print(style, m.val, n));
    BothRfcBytes(P.PrintString(m.key), P.ColonText(style));
    BothRfcBytes([34] + P.PrintChars(m.key), [34]);
    BothRfcBytes([34], P.PrintChars(m.key));
    RawChars(m.key);
    RawControls(style, m.val, n);
    if |ms| > 1 {
      BothRfcBytes([44] + P.Lead(style, n), P.PrintMembers(style, ms[1..], n));
      RawMembers(style, ms[1..], n);
      assert forall i :: 0 < i < |ms| ==> ms[i] == ms[1..][i - 1];
    }
  }

  /** So both printers write texts of the RFC exactly for the values without such a character. */
  lemma {:induction false} PrintsRfc(style: P.Style, v: Value)
    requires FloatFree(v) && P.Printable(v)
    ensures (exists x :: IsJson(x) && IsRfc(x) && Spelled(x) == P.Print(style, v, 0) && Meaning(x) == v)
      <==> NoControls(v)
    ensures (exists x :: IsJson(x) && IsRfc(x) && Spelled(x) == P.Print(style, v, 0)) <==> NoControls(v)
  {
    hide P.Print, Spelled, Meaning, IsJson, IsRfc, NoControls, FloatFree, P.Printable, RfcBytes;
    var x := PrintsText(style, v, 0);
    if y :| IsJson(y) && IsRfc(y) && Spelled(y) == P.Print(style, v, 0) {
      RfcText(y);
      RawControls(style, v, 0);
    }
  }
}
