/** The reading of a JSON text: its value with every repeated key kept, whatever the
    filter. The filtered parser is this reading followed by the filter, and skipping
    consumes the same text. */
module JsonReading {
  import opened Values
  import opened Unicode
  import opened JsonText
  import Numbers

  // ---- The reading ----

  function ReadVariant(s: Bytes, p: nat, limit: nat, found: bool): (r: Result<Value>)
    requires p <= |s|
    ensures r.Ok? ==> p <= r.pos <= |s|
    decreases |s| - p, 2
  {
    match Space(s, p, found)
    case Fail(e) => Err(e)
    case At(q) =>
      var c := Peek(s, q);
      if c == LEFT_BRACKET then
        match ReadArray(s, q, limit)
        case Err(e) => Err(e)
        case Ok(es, r) => Ok(Arr(es), r)
      else if c == LEFT_BRACE then
        match ReadObject(s, q, limit)
        case Err(e) => Err(e)
        case Ok(ms, r) => Ok(Obj(ms), r)
      else ReadToken(s, q)
  }

  /** A string, a keyword or a number. */
  function ReadToken(s: Bytes, p: nat): (r: Result<Value>)
    requires p < |s| && Peek(s, p) != 0
    ensures r.Ok? ==> p <= r.pos <= |s|
    ensures r.Ok? ==> !r.val.Arr? && !r.val.Obj?
  {
    var c := Peek(s, p);
    if IsQuote(c) then ParseString(s, p)
    else if c == 116 then Keeping(SkipKeyword(s, p, TRUE_TEXT), Bool(true))
    else if c == 102 then Keeping(SkipKeyword(s, p, FALSE_TEXT), Bool(false))
    else if c == 110 then Keeping(SkipKeyword(s, p, NULL_TEXT), Null)
    else ParseNumeric(s, p)
  }

  function ReadArray(s: Bytes, p: nat, limit: nat): (r: Result<seq<Value>>)
    requires p < |s|
    ensures r.Ok? ==> p < r.pos <= |s|
    decreases |s| - p, 1
  {
    if limit == 0 then Err(TooDeep)
    else
      match Space(s, p + 1, true)
      case Fail(e) => Err(e)
      case At(q) =>
        if Peek(s, q) == RIGHT_BRACKET then Ok([], q + 1) else ReadElems(s, q, limit)
  }

  function ReadElems(s: Bytes, p: nat, limit: nat): (r: Result<seq<Value>>)
    requires p <= |s| && limit > 0
    ensures r.Ok? ==> p < r.pos <= |s|
    decreases |s| - p, 3
  {
    match ReadVariant(s, p, limit - 1, true)
    case Err(e) => Err(e)
    case Ok(v, q) =>
      match Space(s, q, true)
      case Fail(e) => Err(e)
      case At(r) =>
        if Peek(s, r) == RIGHT_BRACKET then Ok([v], r + 1)
        else if Peek(s, r) != COMMA then Err(InvalidInput)
        else
          match ReadElems(s, r + 1, limit)
          case Err(e) => Err(e)
          case Ok(vs, w) => Ok([v] + vs, w)
  }

  function ReadObject(s: Bytes, p: nat, limit: nat): (r: Result<seq<Member>>)
    requires p < |s|
    ensures r.Ok? ==> p < r.pos <= |s|
    decreases |s| - p, 1
  {
    if limit == 0 then Err(TooDeep)
    else
      match Space(s, p + 1, true)
      case Fail(e) => Err(e)
      case At(q) =>
        if Peek(s, q) == RIGHT_BRACE then Ok([], q + 1) else ReadMembers(s, q, limit)
  }

  function ReadMembers(s: Bytes, p: nat, limit: nat): (r: Result<seq<Member>>)
    requires p <= |s| && limit > 0
    ensures r.Ok? ==> p < r.pos <= |s|
    decreases |s| - p, 3
  {
    match ReadMember(s, p, limit)
    case Err(e) => Err(e)
    case Ok(m, q) =>
      match Space(s, q, true)
      case Fail(e) => Err(e)
      case At(r) =>
        if Peek(s, r) == RIGHT_BRACE then Ok([m], r + 1)
        else if Peek(s, r) != COMMA then Err(InvalidInput)
        else
          match Space(s, r + 1, true)
          case Fail(e) => Err(e)
          case At(n) =>
            match ReadMembers(s, n, limit)
            case Err(e) => Err(e)
            case Ok(ms, w) => Ok([m] + ms, w)
  }

  /** One key, colon and value. */
  function ReadMember(s: Bytes, p: nat, limit: nat): (r: Result<Member>)
    requires p <= |s| && limit > 0
    ensures r.Ok? ==> p < r.pos <= |s|
    decreases |s| - p, 2
  {
    match ParseKey(s, p)
    case Err(e) => Err(e)
    case Ok(name, q) =>
      match Space(s, q, true)
      case Fail(e) => Err(e)
      case At(c) =>
        if Peek(s, c) != COLON then Err(InvalidInput)
        else
          match ReadVariant(s, c + 1, limit - 1, true)
          case Err(e) => Err(e)
          case Ok(v, w) => Ok(Member(CStr(name), v), w)
  }

  // ---- Skipping consumes what reading consumes ----

  lemma {:induction false} SkipQuotedAgrees(s: Bytes, p: nat, stop: Byte, high: nat, acc: Bytes)
    requires p <= |s| && IsQuote(stop) && high < 0x400
    requires ParseQuoted(s, p, stop, high, acc).Ok?
    ensures SkipQuoted(s, p, stop) == At(ParseQuoted(s, p, stop, high, acc).pos)
    decreases |s| - p
  {
    var c := Peek(s, p);
    if c != stop {
      if c == BACKSLASH {
        var e := ReadEscape(s, p + 1, high);
        SkipEscapeAgrees(s, p, stop, high);
        SkipQuotedAgrees(s, e.pos, stop, e.val.high, acc + e.val.more);
      } else {
        SkipQuotedAgrees(s, p + 1, stop, high, acc + [c]);
      }
    }
  }

  /** Skipping one character after a backslash is enough: what is left of the escape
      is skipped as ordinary characters. */
  lemma SkipEscapeAgrees(s: Bytes, p: nat, stop: Byte, high: nat)
    requires p < |s| && Peek(s, p) == BACKSLASH && IsQuote(stop) && high < 0x400
    requires ReadEscape(s, p + 1, high).Ok?
    ensures SkipQuoted(s, p, stop) == SkipQuoted(s, ReadEscape(s, p + 1, high).pos, stop)
  {
    if Peek(s, p + 1) == 117 {
      SkipHex(s, p + 2, 4, 0, stop);
    }
  }

  /** No byte that decodeHex accepts is a quote or a backslash. */
  lemma {:induction false} SkipHex(s: Bytes, p: nat, n: nat, unit: nat, stop: Byte)
    requires p <= |s| && unit < 0x1_0000 && IsQuote(stop)
    requires ParseHex(s, p, n, unit).Ok?
    ensures p + n <= |s| && SkipQuoted(s, p, stop) == SkipQuoted(s, p + n, stop)
    decreases n
  {
    if n > 0 {
      SkipHex(s, p + 1, n - 1, (unit * 16 + DecodeHex(Peek(s, p))) % 0x1_0000, stop);
    }
  }

  lemma {:induction false} SkipNumericAgrees(s: Bytes, p: nat, room: nat)
    requires p <= |s|
    requires !CanBeInNumber(Peek(s, NumberEnd(s, p, room)))
    ensures SkipNumeric(s, p) == NumberEnd(s, p, room)
    decreases room
  {
    if CanBeInNumber(Peek(s, p)) && room > 0 {
      SkipNumericAgrees(s, p + 1, room - 1);
    }
  }

  /** A reading stopped in the middle of a number is not followed by more structure. */
  predicate Stops(s: Bytes, r: Result<Value>) {
    r.Ok? && (r.val.Int? || r.val.Float?) ==> !CanBeInNumber(Peek(s, r.pos))
  }

  lemma Delimited(s: Bytes, q: nat)
    requires q <= |s| && Space(s, q, true).At? && !CanBeInNumber(Peek(s, Space(s, q, true).pos))
    ensures !CanBeInNumber(Peek(s, q))
  {
  }

  lemma {:induction false} SkipVariantAgrees(s: Bytes, p: nat, limit: nat, found: bool)
    requires p <= |s|
    requires var r := ReadVariant(s, p, limit, found); r.Ok? && Stops(s, r)
    ensures SkipVariant(s, p, limit, found) == At(ReadVariant(s, p, limit, found).pos)
    decreases |s| - p, 2
  {
    hide Space, ReadArray, ReadObject, SkipArray, SkipObject, SkipToken, ReadToken;
    var q := Space(s, p, found).pos;
    var c := Peek(s, q);
    if c == LEFT_BRACKET {
      SkipArrayAgrees(s, q, limit);
    } else if c == LEFT_BRACE {
      SkipObjectAgrees(s, q, limit);
    } else {
      SkipTokenAgrees(s, q);
    }
  }

  lemma {:induction false} SkipTokenAgrees(s: Bytes, p: nat)
    requires p < |s| && Peek(s, p) != 0
    requires ReadToken(s, p).Ok? && Stops(s, ReadToken(s, p))
    ensures SkipToken(s, p) == At(ReadToken(s, p).pos)
  {
    hide SkipQuoted, ParseQuoted, SkipKeyword, SkipNumeric, NumberEnd, Numbers.ParseNumber;
    var c := Peek(s, p);
    if IsQuote(c) {
      SkipQuotedAgrees(s, p + 1, c, 0, []);
    } else if c != 116 && c != 102 && c != 110 {
      SkipNumericAgrees(s, p, MAX_TOKEN);
    }
  }

  /** skipArray stops where parseArray does, although it does not look for an empty array. */
  lemma {:induction false} SkipArrayAgrees(s: Bytes, p: nat, limit: nat)
    requires p < |s| && ReadArray(s, p, limit).Ok?
    ensures SkipArray(s, p, limit) == At(ReadArray(s, p, limit).pos)
    decreases |s| - p, 1
  {
    hide Space, SkipVariant, ReadElems;
    var q := Space(s, p + 1, true).pos;
    if Peek(s, q) == RIGHT_BRACKET {
      SkipOnBracket(s, p + 1, q, limit - 1);
    } else {
      SkipElemsAgrees(s, q, limit);
      SkipElemsFromSpace(s, p + 1, q, limit);
    }
  }

  /** Skipping a value that is not there consumes only the spaces before the bracket. */
  lemma SkipOnBracket(s: Bytes, p: nat, q: nat, limit: nat)
    requires p <= |s| && Space(s, p, true) == At(q) && Peek(s, q) == RIGHT_BRACKET
    ensures SkipVariant(s, p, limit, true) == At(q) && Space(s, q, true) == At(q)
  {
  }

  lemma SkipElemsFromSpace(s: Bytes, p: nat, q: nat, limit: nat)
    requires p <= |s| && limit > 0 && Space(s, p, true) == At(q)
    ensures SkipElems(s, p, limit) == SkipElems(s, q, limit)
  {
    hide SkipArray, SkipObject, SkipToken;
    assert SkipVariant(s, p, limit - 1, true) == SkipVariant(s, q, limit - 1, true);
  }

  lemma {:induction false} SkipElemsAgrees(s: Bytes, p: nat, limit: nat)
    requires p <= |s| && limit > 0 && ReadElems(s, p, limit).Ok?
    ensures SkipElems(s, p, limit) == At(ReadElems(s, p, limit).pos)
    decreases |s| - p, 3
  {
    hide ReadVariant, SkipVariant, Space;
    var q := ReadVariant(s, p, limit - 1, true).pos;
    Delimited(s, q);
    SkipVariantAgrees(s, p, limit - 1, true);
    var r := Space(s, q, true).pos;
    if Peek(s, r) == COMMA {
      SkipElemsAgrees(s, r + 1, limit);
    }
  }

  lemma {:induction false} SkipObjectAgrees(s: Bytes, p: nat, limit: nat)
    requires p < |s| && ReadObject(s, p, limit).Ok?
    ensures SkipObject(s, p, limit) == At(ReadObject(s, p, limit).pos)
    decreases |s| - p, 1
  {
    var q := Space(s, p + 1, true).pos;
    if Peek(s, q) != RIGHT_BRACE {
      SkipMembersAgrees(s, q, limit);
    }
  }

  lemma SkipKeyAgrees(s: Bytes, p: nat)
    requires p <= |s| && ParseKey(s, p).Ok?
    ensures SkipKey(s, p) == At(ParseKey(s, p).pos)
  {
    if IsQuote(Peek(s, p)) {
      SkipQuotedAgrees(s, p + 1, Peek(s, p), 0, []);
    }
  }

  lemma {:induction false} SkipMembersAgrees(s: Bytes, p: nat, limit: nat)
    requires p <= |s| && limit > 0 && ReadMembers(s, p, limit).Ok?
    ensures SkipMembers(s, p, limit) == At(ReadMembers(s, p, limit).pos)
    decreases |s| - p, 3
  {
    hide ReadMember, SkipMember, Space;
    var w := ReadMember(s, p, limit).pos;
    Delimited(s, w);
    SkipMemberAgrees(s, p, limit);
    var r := Space(s, w, true).pos;
    if Peek(s, r) == COMMA {
      SkipMembersAgrees(s, Space(s, r + 1, true).pos, limit);
    }
  }

  lemma {:induction false} SkipMemberAgrees(s: Bytes, p: nat, limit: nat)
    requires p <= |s| && limit > 0 && ReadMember(s, p, limit).Ok?
    requires !CanBeInNumber(Peek(s, ReadMember(s, p, limit).pos))
    ensures SkipMember(s, p, limit) == At(ReadMember(s, p, limit).pos)
    decreases |s| - p, 2
  {
    hide ParseKey, SkipKey, ReadVariant, SkipVariant, Space;
    SkipKeyAgrees(s, p);
    var c := Space(s, ParseKey(s, p).pos, true).pos;
    SkipVariantAgrees(s, c + 1, limit - 1, true);
  }
}
