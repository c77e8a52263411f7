/** What JsonDeserializer computes on a whole input when memory is unlimited: one
    function per parsing or skipping member, from a position to a value and a position. */
module JsonText {
  import opened Values
  import opened Unicode
  import Numbers

  // ---- Characters ----

  /** The latch: the byte at `p`, with 0 standing for the end of the input. */
  function Peek(s: Bytes, p: nat): Byte {
    if p < |s| then s[p] else 0
  }

  const LEFT_BRACKET: Byte := 91
  const RIGHT_BRACKET: Byte := 93
  const LEFT_BRACE: Byte := 123
  const RIGHT_BRACE: Byte := 125
  const QUOTE: Byte := 34
  const APOSTROPHE: Byte := 39
  const BACKSLASH: Byte := 92
  const COMMA: Byte := 44
  const COLON: Byte := 58
  /** The text of a keyword, which holds no NUL. */
  type Keyword = w: Bytes | 0 !in w witness []

  const TRUE_TEXT: Keyword := [116, 114, 117, 101]
  const FALSE_TEXT: Keyword := [102, 97, 108, 115, 101]
  const NULL_TEXT: Keyword := [110, 117, 108, 108]

  predicate IsSpace(c: Byte) { c == 32 || c == 9 || c == 13 || c == 10 }

  predicate IsQuote(c: Byte) { c == QUOTE || c == APOSTROPHE }

  predicate CanBeInNumber(c: Byte) {
    48 <= c <= 57 || c == 43 || c == 45 || c == 46 || c == 101 || c == 69
  }

  predicate CanBeInNonQuotedString(c: Byte) {
    48 <= c <= 57 || 95 <= c <= 122 || 65 <= c <= 90
  }

  // ---- Tokens ----

  function SkipSpaces(s: Bytes, p: nat): (q: nat)
    requires p <= |s|
    ensures p <= q <= |s| && !IsSpace(Peek(s, q))
    decreases |s| - p
  {
    if IsSpace(Peek(s, p)) then SkipSpaces(s, p + 1) else p
  }

  /** skipSpacesAndComments: fails at the end of the input. */
  function Space(s: Bytes, p: nat, found: bool): (r: Skip)
    requires p <= |s|
    ensures r.At? ==> p <= r.pos < |s| && Peek(s, r.pos) != 0
    ensures r.Fail? ==> r.error == if found then IncompleteInput else EmptyInput
  {
    var q := SkipSpaces(s, p);
    if Peek(s, q) == 0 then Fail(if found then IncompleteInput else EmptyInput) else At(q)
  }

  function SkipKeyword(s: Bytes, p: nat, word: Keyword): (r: Skip)
    requires p <= |s|
    ensures r.At? ==> r.pos == p + |word| <= |s|
    ensures r.At? <==> p + |word| <= |s| && s[p..p + |word|] == word
    decreases |word|
  {
    if word == [] then
      assert s[p..p] == [];
      At(p)
    else if Peek(s, p) == 0 then
      assert p + |word| <= |s| ==> s[p..p + |word|][0] == s[p];
      Fail(IncompleteInput)
    else if Peek(s, p) != word[0] then
      assert p + |word| <= |s| ==> s[p..p + |word|][0] == s[p];
      Fail(InvalidInput)
    else
      assert p + |word| <= |s| ==> s[p..p + |word|] == [s[p]] + s[p + 1..p + |word|];
      SkipKeyword(s, p + 1, word[1..])
  }

  /** parseHex4: `n` more digits of a code unit. */
  function ParseHex(s: Bytes, p: nat, n: nat, unit: nat): (r: Result<nat>)
    requires p <= |s| && unit < 0x1_0000
    ensures r.Ok? ==> r.pos == p + n <= |s| && r.val < 0x1_0000
    decreases |s| - p
  {
    if n == 0 then Ok(unit, p)
    else if Peek(s, p) == 0 then Err(IncompleteInput)
    else if DecodeHex(Peek(s, p)) > 0x0F then Err(InvalidInput)
    else ParseHex(s, p + 1, n - 1, (unit * 16 + DecodeHex(Peek(s, p))) % 0x1_0000)
  }

  /** What an escape adds to a string, and the surrogate bits it leaves. */
  datatype Escape = Escape(more: Bytes, high: nat)

  /** What a code unit adds after the high surrogate bits `high`. */
  function UnitEscape(high: nat, unit: nat): (e: Escape)
    requires high < 0x400 && unit < 0x1_0000
    ensures e.high < 0x400
  {
    if IsHighSurrogate(unit) then Escape([], unit % 0x400) else Escape(Utf8(Codepoint(high, unit)), high)
  }

  /** An escape of parseQuotedString, after its backslash. */
  function ReadEscape(s: Bytes, p: nat, high: nat): (r: Result<Escape>)
    requires p <= |s| && high < 0x400
    ensures r.Ok? ==> p < r.pos <= |s| && r.val.high < 0x400
  {
    var c := Peek(s, p);
    if c == 0 then Err(IncompleteInput)
    else if c == 117 then
      var unit := ParseHex(s, p + 1, 4, 0);
      if unit.Err? then Err(unit.error) else Ok(UnitEscape(high, unit.val), unit.pos)
    else if UnescapeChar(c) == 0 then Err(InvalidInput)
    else Ok(Escape([UnescapeChar(c)], high), p + 1)
  }

  /** parseQuotedString from inside the quotes: `high` holds the bits of the last high
      surrogate, `acc` the bytes appended so far. */
  function ParseQuoted(s: Bytes, p: nat, stop: Byte, high: nat, acc: Bytes): (r: Result<Bytes>)
    requires p <= |s| && stop != 0 && high < 0x400
    ensures r.Ok? ==> p < r.pos <= |s|
    decreases |s| - p
  {
    var c := Peek(s, p);
    if c == stop then Ok(acc, p + 1)
    else if c == 0 then Err(IncompleteInput)
    else if c == BACKSLASH then
      var e := ReadEscape(s, p + 1, high);
      if e.Err? then Err(e.error) else ParseQuoted(s, e.pos, stop, e.val.high, acc + e.val.more)
    else ParseQuoted(s, p + 1, stop, high, acc + [c])
  }

  function SkipQuoted(s: Bytes, p: nat, stop: Byte): (r: Skip)
    requires p <= |s| && stop != 0
    ensures r.At? ==> p < r.pos <= |s|
    decreases |s| - p
  {
    var c := Peek(s, p);
    if c == stop then At(p + 1)
    else if c == 0 then Fail(IncompleteInput)
    else if c == BACKSLASH && Peek(s, p + 1) != 0 then SkipQuoted(s, p + 2, stop)
    else SkipQuoted(s, p + 1, stop)
  }

  function NonQuotedEnd(s: Bytes, p: nat): (q: nat)
    requires p <= |s|
    ensures p <= q <= |s|
    decreases |s| - p
  {
    if CanBeInNonQuotedString(Peek(s, p)) then NonQuotedEnd(s, p + 1) else p
  }

  function ParseKey(s: Bytes, p: nat): (r: Result<Bytes>)
    requires p <= |s|
    ensures r.Ok? ==> p < r.pos <= |s|
  {
    if IsQuote(Peek(s, p)) then ParseQuoted(s, p + 1, Peek(s, p), 0, [])
    else
      var q := NonQuotedEnd(s, p);
      if q == p then Err(InvalidInput) else Ok(s[p..q], q)
  }

  function SkipKey(s: Bytes, p: nat): (r: Skip)
    requires p <= |s|
    ensures r.At? ==> p <= r.pos <= |s|
  {
    if IsQuote(Peek(s, p)) then SkipQuoted(s, p + 1, Peek(s, p)) else At(NonQuotedEnd(s, p))
  }

  /** The end of a number token of at most `room` characters. */
  function NumberEnd(s: Bytes, p: nat, room: nat): (q: nat)
    requires p <= |s|
    ensures p <= q <= |s| && q - p <= room
    ensures q - p < room ==> !CanBeInNumber(Peek(s, q))
    decreases |s| - p
  {
    if CanBeInNumber(Peek(s, p)) && room > 0 then NumberEnd(s, p + 1, room - 1) else p
  }

  const MAX_TOKEN: nat := 63

  function ParseNumeric(s: Bytes, p: nat): (r: Result<Value>)
    requires p <= |s|
    ensures r.Ok? ==> p <= r.pos <= |s|
    ensures r.Ok? ==> r.val.Int? || r.val.Float?
  {
    var q := NumberEnd(s, p, MAX_TOKEN);
    match Numbers.ParseNumber(s[p..q])
    case None => Err(InvalidInput)
    case Some(v) => Ok(v, q)
  }

  function SkipNumeric(s: Bytes, p: nat): (q: nat)
    requires p <= |s|
    ensures p <= q <= |s|
    decreases |s| - p
  {
    if CanBeInNumber(Peek(s, p)) then SkipNumeric(s, p + 1) else p
  }

  // ---- Filters ----

  /** `_variant == true`: true itself, or the integer that compares equal to it. */
  predicate IsTrue(f: Value) { f == Bool(true) || f == Int(1) }

  /** The truth value of a variant; a float filter is not part of this model. */
  predicate Allow(f: Value) {
    match f
    case Null => false
    case Bool(b) => b
    case Int(n) => n != 0
    case _ => true
  }

  predicate AllowArray(f: Value) { IsTrue(f) || f.Arr? }

  predicate AllowObject(f: Value) { IsTrue(f) || f.Obj? }

  predicate AllowValue(f: Value) { IsTrue(f) }

  const STAR: Bytes := [42]

  /** A member of a filter, by name when the filter is an object. */
  function MemberOf(f: Value, key: Bytes): Value {
    if f.Obj? then Lookup(f.members, key) else Null
  }

  function SubFilter(f: Value, key: Bytes): Value {
    if IsTrue(f) then f
    else if MemberOf(f, key) != Null then MemberOf(f, key)
    else MemberOf(f, STAR)
  }

  function ElementFilter(f: Value): Value {
    if IsTrue(f) then f
    else if f.Arr? && f.elems != [] && f.elems[0] != Null then f.elems[0]
    else MemberOf(f, STAR)
  }

  // ---- Skipping ----

  /** The cases of skipVariant that do not nest. */
  function SkipToken(s: Bytes, p: nat): (r: Skip)
    requires p < |s| && Peek(s, p) != 0
    ensures r.At? ==> p <= r.pos <= |s|
  {
    var c := Peek(s, p);
    if IsQuote(c) then SkipQuoted(s, p + 1, c)
    else if c == 116 then SkipKeyword(s, p, TRUE_TEXT)
    else if c == 102 then SkipKeyword(s, p, FALSE_TEXT)
    else if c == 110 then SkipKeyword(s, p, NULL_TEXT)
    else At(SkipNumeric(s, p))
  }

  /** skipVariant */
  function SkipVariant(s: Bytes, p: nat, limit: nat, found: bool): (r: Skip)
    requires p <= |s|
    ensures r.At? ==> p <= r.pos <= |s|
    decreases |s| - p, 2
  {
    match Space(s, p, found)
    case Fail(e) => Fail(e)
    case At(q) =>
      var c := Peek(s, q);
      if c == LEFT_BRACKET then SkipArray(s, q, limit)
      else if c == LEFT_BRACE then SkipObject(s, q, limit)
      else SkipToken(s, q)
  }

  function SkipArray(s: Bytes, p: nat, limit: nat): (r: Skip)
    requires p < |s|
    ensures r.At? ==> p < r.pos <= |s|
    decreases |s| - p, 1
  {
    if limit == 0 then Fail(TooDeep) else SkipElems(s, p + 1, limit)
  }

  /** The loop of skipArray, at the start of an element. */
  function SkipElems(s: Bytes, p: nat, limit: nat): (r: Skip)
    requires p <= |s| && limit > 0
    ensures r.At? ==> p < r.pos <= |s|
    decreases |s| - p, 3
  {
    match SkipVariant(s, p, limit - 1, true)
    case Fail(e) => Fail(e)
    case At(q) =>
      match Space(s, q, true)
      case Fail(e) => Fail(e)
      case At(r) =>
        if Peek(s, r) == RIGHT_BRACKET then At(r + 1)
        else if Peek(s, r) == COMMA then SkipElems(s, r + 1, limit)
        else Fail(InvalidInput)
  }

  function SkipObject(s: Bytes, p: nat, limit: nat): (r: Skip)
    requires p < |s|
    ensures r.At? ==> p < r.pos <= |s|
    decreases |s| - p, 1
  {
    if limit == 0 then Fail(TooDeep)
    else
      match Space(s, p + 1, true)
      case Fail(e) => Fail(e)
      case At(q) =>
        if Peek(s, q) == RIGHT_BRACE then At(q + 1) else SkipMembers(s, q, limit)
  }

  /** One key, colon and value. */
  function SkipMember(s: Bytes, p: nat, limit: nat): (r: Skip)
    requires p <= |s| && limit > 0
    ensures r.At? ==> p < r.pos <= |s|
    decreases |s| - p, 3
  {
    match SkipKey(s, p)
    case Fail(e) => Fail(e)
    case At(q) =>
      match Space(s, q, true)
      case Fail(e) => Fail(e)
      case At(c) =>
        if Peek(s, c) != COLON then Fail(InvalidInput) else SkipVariant(s, c + 1, limit - 1, true)
  }

  /** The loop of skipObject, at the start of a key. */
  function SkipMembers(s: Bytes, p: nat, limit: nat): (r: Skip)
    requires p <= |s| && limit > 0
    ensures r.At? ==> p < r.pos <= |s|
    decreases |s| - p, 4
  {
    match SkipMember(s, p, limit)
    case Fail(e) => Fail(e)
    case At(v) =>
      match Space(s, v, true)
      case Fail(e) => Fail(e)
      case At(r) =>
        if Peek(s, r) == RIGHT_BRACE then At(r + 1)
        else if Peek(s, r) != COMMA then Fail(InvalidInput)
        else
          match Space(s, r + 1, true)
          case Fail(e) => Fail(e)
          case At(n) => SkipMembers(s, n, limit)
  }

  // ---- Parsing ----

  /** The result of a skip, reported with the value it leaves untouched. */
  function Keeping(r: Skip, prev: Value): Result<Value> {
    match r
    case Fail(e) => Err(e)
    case At(q) => Ok(prev, q)
  }

  /** parseVariant into a variant that holds `prev`. */
  function ParseVariant(s: Bytes, p: nat, f: Value, limit: nat, prev: Value, found: bool): (r: Result<Value>)
    requires p <= |s|
    ensures r.Ok? ==> p <= r.pos <= |s|
    decreases |s| - p, 2
  {
    match Space(s, p, found)
    case Fail(e) => Err(e)
    case At(q) =>
      var c := Peek(s, q);
      if c == LEFT_BRACKET then
        if AllowArray(f) then ParseArray(s, q, f, limit) else Keeping(SkipArray(s, q, limit), prev)
      else if c == LEFT_BRACE then
        if AllowObject(f) then ParseObject(s, q, f, limit) else Keeping(SkipObject(s, q, limit), prev)
      else ParseToken(s, q, f, prev)
  }

  /** The cases of parseVariant that do not nest. */
  function ParseToken(s: Bytes, p: nat, f: Value, prev: Value): (r: Result<Value>)
    requires p < |s| && Peek(s, p) != 0
    ensures r.Ok? ==> p <= r.pos <= |s|
  {
    var c := Peek(s, p);
    if IsQuote(c) then
      if AllowValue(f) then ParseString(s, p) else Keeping(SkipQuoted(s, p + 1, c), prev)
    else if c == 116 then
      Keeping(SkipKeyword(s, p, TRUE_TEXT), if AllowValue(f) then Bool(true) else prev)
    else if c == 102 then
      Keeping(SkipKeyword(s, p, FALSE_TEXT), if AllowValue(f) then Bool(false) else prev)
    else if c == 110 then
      Keeping(SkipKeyword(s, p, NULL_TEXT), prev)
    else if AllowValue(f) then ParseNumeric(s, p) else Ok(prev, SkipNumeric(s, p))
  }

  function ParseString(s: Bytes, p: nat): (r: Result<Value>)
    requires p < |s| && Peek(s, p) != 0
    ensures r.Ok? ==> p < r.pos <= |s| && r.val.Str?
  {
    match ParseQuoted(s, p + 1, Peek(s, p), 0, [])
    case Err(e) => Err(e)
    case Ok(text, q) => Ok(Str(text), q)
  }

  function ParseArray(s: Bytes, p: nat, f: Value, limit: nat): (r: Result<Value>)
    requires p < |s|
    ensures r.Ok? ==> p < r.pos <= |s| && r.val.Arr?
    decreases |s| - p, 1
  {
    if limit == 0 then Err(TooDeep)
    else
      match Space(s, p + 1, true)
      case Fail(e) => Err(e)
      case At(q) =>
        if Peek(s, q) == RIGHT_BRACKET then Ok(Arr([]), q + 1)
        else ParseElems(s, q, ElementFilter(f), limit, [])
  }

  /** The loop of parseArray, at the start of an element. */
  function ParseElems(s: Bytes, p: nat, f: Value, limit: nat, acc: seq<Value>): (r: Result<Value>)
    requires p <= |s| && limit > 0
    ensures r.Ok? ==> p < r.pos <= |s| && r.val.Arr?
    decreases |s| - p, 3
  {
    var element := if Allow(f) then ParseVariant(s, p, f, limit - 1, Null, true)
                   else Keeping(SkipVariant(s, p, limit - 1, true), Null);
    match element
    case Err(e) => Err(e)
    case Ok(v, q) => MoreElems(s, q, f, limit, if Allow(f) then acc + [v] else acc)
  }

  /** The end of an element: a closing bracket, or a comma and the next element. */
  function MoreElems(s: Bytes, p: nat, f: Value, limit: nat, acc: seq<Value>): (r: Result<Value>)
    requires p <= |s| && limit > 0
    ensures r.Ok? ==> p < r.pos <= |s| && r.val.Arr?
    decreases |s| - p, 2
  {
    match Space(s, p, true)
    case Fail(e) => Err(e)
    case At(r) =>
      if Peek(s, r) == RIGHT_BRACKET then Ok(Arr(acc), r + 1)
      else if Peek(s, r) == COMMA then ParseElems(s, r + 1, f, limit, acc)
      else Err(InvalidInput)
  }

  function ParseObject(s: Bytes, p: nat, f: Value, limit: nat): (r: Result<Value>)
    requires p < |s|
    ensures r.Ok? ==> p < r.pos <= |s| && r.val.Obj?
    decreases |s| - p, 1
  {
    if limit == 0 then Err(TooDeep)
    else
      match Space(s, p + 1, true)
      case Fail(e) => Err(e)
      case At(q) =>
        if Peek(s, q) == RIGHT_BRACE then Ok(Obj([]), q + 1) else ParseMembers(s, q, f, limit, [])
  }

  /** Stores a value under `key`: in place when the key is there, at the end otherwise. */
  function Put(ms: seq<Member>, key: Bytes, v: Value): seq<Member> {
    var i := Find(ms, key);
    if i < |ms| then ms[i := Member(key, v)] else ms + [Member(key, v)]
  }

  /** One key, colon and value, stored among the members read before. */
  function ParseMember(s: Bytes, p: nat, f: Value, limit: nat, acc: seq<Member>): (r: Result<seq<Member>>)
    requires p <= |s| && limit > 0
    ensures r.Ok? ==> p < r.pos <= |s|
    decreases |s| - p, 3
  {
    match ParseKey(s, p)
    case Err(e) => Err(e)
    case Ok(name, q) =>
      match Space(s, q, true)
      case Fail(e) => Err(e)
      case At(c) =>
        if Peek(s, c) != COLON then Err(InvalidInput)
        else
          var key := CStr(name);
          var m := SubFilter(f, key);
          if Allow(m) then
            match ParseVariant(s, c + 1, m, limit - 1, Lookup(acc, key), true)
            case Err(e) => Err(e)
            case Ok(v, w) => Ok(Put(acc, key, v), w)
          else
            match SkipVariant(s, c + 1, limit - 1, true)
            case Fail(e) => Err(e)
            case At(w) => Ok(acc, w)
  }

  /** The loop of parseObject, at the start of a key. */
  function ParseMembers(s: Bytes, p: nat, f: Value, limit: nat, acc: seq<Member>): (r: Result<Value>)
    requires p <= |s| && limit > 0
    ensures r.Ok? ==> p < r.pos <= |s| && r.val.Obj?
    decreases |s| - p, 5
  {
    match ParseMember(s, p, f, limit, acc)
    case Err(e) => Err(e)
    case Ok(acc', q) => MoreMembers(s, q, f, limit, acc')
  }

  /** The end of a member: a closing brace, or a comma and the next key. */
  function MoreMembers(s: Bytes, p: nat, f: Value, limit: nat, acc: seq<Member>): (r: Result<Value>)
    requires p <= |s| && limit > 0
    ensures r.Ok? ==> p < r.pos <= |s| && r.val.Obj?
    decreases |s| - p, 4
  {
    match Space(s, p, true)
    case Fail(e) => Err(e)
    case At(r) =>
      if Peek(s, r) == RIGHT_BRACE then Ok(Obj(acc), r + 1)
      else if Peek(s, r) != COMMA then Err(InvalidInput)
      else
        match Space(s, r + 1, true)
        case Fail(e) => Err(e)
        case At(n) => ParseMembers(s, n, f, limit, acc)
  }

  predicate IsEnclosed(v: Value) { !v.Int? && !v.Float? }

  /** parse: the whole input, into an empty document. Trailing characters matter only
      after a number at the root. */
  function Parse(s: Bytes, f: Value, limit: nat): Result<Value> {
    match ParseVariant(s, 0, f, limit, Null, false)
    case Err(e) => Err(e)
    case Ok(v, p) => if Peek(s, p) != 0 && !IsEnclosed(v) then Err(InvalidInput) else Ok(v, p)
  }
}
