/** JsonDeserializer over a bounded pool. */
module Deserializer {
  import opened Values
  import opened Unicode
  import opened JsonText
  import opened Heap
  import opened Trees
  import opened Pool
  import opened Copier
  import opened Collections
  import Numbers

  /** One character of lookahead over a reader. */
  class Latch {
    const input: Bytes
    var next: nat
    var last: Byte
    var loaded: bool

    constructor (input: Bytes)
      ensures this.input == input && Valid() && Pos() == 0
    {
      this.input := input;
      next, last, loaded := 0, 0, false;
    }

    ghost predicate Valid()
      reads this
    {
      loaded ==> next > 0 && last == Peek(input, next - 1)
    }

    /** The position of the current character. */
    ghost function Pos(): nat
      requires Valid()
      reads this
    {
      if loaded then next - 1 else next
    }

    /** Nothing is read after the end: no NUL lies behind the current character. */
    ghost predicate Alive()
      requires Valid()
      reads this
      ensures Alive() ==> Pos() <= |input|
    {
      Pos() <= |input| && (Pos() == 0 || input[Pos() - 1] != 0)
    }

    method Current() returns (c: Byte)
      requires Valid() && Alive()
      modifies this
      ensures Valid() && Alive() && Pos() == old(Pos()) && c == Peek(input, Pos()) == last && loaded
    {
      if !loaded {
        last := Peek(input, next);
        next := next + 1;
        loaded := true;
      }
      return last;
    }

    /** Moves past the current character. */
    method Clear()
      requires Valid() && loaded
      modifies this`loaded
      ensures Valid() && !loaded && Pos() == old(Pos()) + 1
    {
      loaded := false;
    }
  }

  /** The outcome of a parsing member: no error, or one. */
  type Code = Option<Error>

  class JsonDeserializer {
    const pool: MemoryPool
    const storage: StringCopier
    const latch: Latch
    var foundSomething: bool

    constructor (pool: MemoryPool, input: Bytes)
      requires pool.Valid() && !pool.overflowed
      ensures this.pool == pool && latch.input == input && fresh(latch) && fresh(storage)
      ensures Ready() && latch.Pos() == 0 && !foundSomething
    {
      this.pool := pool;
      storage := new StringCopier(pool);
      latch := new Latch(input);
      foundSomething := false;
    }

    /** Between two characters of the input, with no memory problem so far. */
    ghost predicate Ready()
      reads this, pool, pool.buf, latch, storage
    {
      && pool.Valid() && !pool.overflowed && storage.pool == pool
      && latch.Valid() && latch.Alive()
    }

    // ---- Characters ----

    method Eat(c: Byte) returns (eaten: bool)
      requires latch.Valid() && latch.Alive() && c != 0
      modifies latch
      ensures latch.Valid() && latch.Alive()
      ensures eaten == (Peek(latch.input, old(latch.Pos())) == c)
      ensures latch.Pos() == old(latch.Pos()) + if eaten then 1 else 0
    {
      var current := latch.Current();
      if current != c {
        return false;
      }
      latch.Clear();
      return true;
    }

    /** What skipping members leave: the position or the error that the pure skip computes. */
    ghost predicate Skipped(err: Code, r: Skip)
      reads latch
    {
      match r
      case At(q) => err == None && latch.Valid() && latch.Alive() && latch.Pos() == q
      case Fail(e) => err == Some(e) && e != NoMemory
    }

    method SkipSpaces() returns (err: Code)
      requires latch.Valid() && latch.Alive()
      modifies latch, this`foundSomething
      ensures Skipped(err, Space(latch.input, old(latch.Pos()), old(foundSomething)))
      ensures err == None ==> foundSomething
      ensures old(foundSomething) ==> foundSomething
    {
      ghost var start := latch.Pos();
      while true
        invariant latch.Valid() && latch.Alive()
        invariant start <= latch.Pos()
          && JsonText.SkipSpaces(latch.input, start) == JsonText.SkipSpaces(latch.input, latch.Pos())
        invariant foundSomething == old(foundSomething)
        decreases |latch.input| - latch.Pos()
      {
        var c := latch.Current();
        if c == 0 {
          return Some(if foundSomething then IncompleteInput else EmptyInput);
        } else if IsSpace(c) {
          latch.Clear();
        } else {
          foundSomething := true;
          return None;
        }
      }
    }

    method SkipKeyword(word: Keyword) returns (err: Code)
      requires latch.Valid() && latch.Alive()
      modifies latch
      ensures Skipped(err, JsonText.SkipKeyword(latch.input, old(latch.Pos()), word))
    {
      hide Latch.Valid, Latch.Pos, JsonText.SkipKeyword;
      ghost var start := latch.Pos();
      var s := 0;
      assert word[0..] == word;
      while s < |word|
        invariant 0 <= s <= |word| && latch.Valid() && latch.Alive()
        invariant JsonText.SkipKeyword(latch.input, start, word)
          == JsonText.SkipKeyword(latch.input, latch.Pos(), word[s..])
      {
        KeywordUnfold(latch.input, latch.Pos(), word, s);
        var c := latch.Current();
        if c == 0 {
          return Some(IncompleteInput);
        }
        if word[s] != c {
          return Some(InvalidInput);
        }
        latch.Clear();
        s := s + 1;
      }
      NoMoreKeyword(latch.input, latch.Pos());
      return None;
    }

    method SkipQuotedString() returns (err: Code)
      requires latch.Valid() && latch.Alive() && IsQuote(Peek(latch.input, latch.Pos()))
      modifies latch
      ensures Skipped(err, SkipQuoted(latch.input, old(latch.Pos()) + 1, Peek(latch.input, old(latch.Pos()))))
    {
      var stopChar := latch.Current();
      latch.Clear();
      ghost var start := latch.Pos();
      while true
        invariant latch.Valid() && latch.Alive() && start <= latch.Pos()
        invariant SkipQuoted(latch.input, start, stopChar) == SkipQuoted(latch.input, latch.Pos(), stopChar)
        decreases |latch.input| - latch.Pos()
      {
        var c := latch.Current();
        latch.Clear();
        if c == stopChar {
          return None;
        }
        if c == 0 {
          return Some(IncompleteInput);
        }
        if c == BACKSLASH {
          var escaped := latch.Current();
          if escaped != 0 {
            latch.Clear();
          }
        }
      }
    }

    method SkipNonQuotedString()
      requires latch.Valid() && latch.Alive()
      modifies latch
      ensures latch.Valid() && latch.Alive() && latch.Pos() == NonQuotedEnd(latch.input, old(latch.Pos()))
    {
      ghost var start := latch.Pos();
      var c := latch.Current();
      while CanBeInNonQuotedString(c)
        invariant latch.Valid() && latch.Alive() && latch.loaded && c == latch.last
        invariant NonQuotedEnd(latch.input, start) == NonQuotedEnd(latch.input, latch.Pos())
        decreases |latch.input| - latch.Pos()
      {
        latch.Clear();
        c := latch.Current();
      }
    }

    method SkipKey() returns (err: Code)
      requires latch.Valid() && latch.Alive()
      modifies latch
      ensures Skipped(err, JsonText.SkipKey(latch.input, old(latch.Pos())))
    {
      var c := latch.Current();
      if IsQuote(c) {
        err := SkipQuotedString();
      } else {
        SkipNonQuotedString();
        err := None;
      }
    }

    method SkipNumericValue() returns (err: Code)
      requires latch.Valid() && latch.Alive()
      modifies latch
      ensures Skipped(err, At(SkipNumeric(latch.input, old(latch.Pos()))))
    {
      ghost var start := latch.Pos();
      var c := latch.Current();
      while CanBeInNumber(c)
        invariant latch.Valid() && latch.Alive() && latch.loaded && c == latch.last
        invariant SkipNumeric(latch.input, start) == SkipNumeric(latch.input, latch.Pos())
        decreases |latch.input| - latch.Pos()
      {
        latch.Clear();
        c := latch.Current();
      }
      return None;
    }

    /** Past an opening bracket and the spaces after it: whether the closing one follows. */
    method OpenCollection(close: Byte) returns (err: Code, empty: bool)
      requires latch.Valid() && latch.Alive() && foundSomething && Peek(latch.input, latch.Pos()) != 0 && close != 0
      modifies latch, this`foundSomething
      ensures foundSomething
      ensures Opened(close, Space(latch.input, old(latch.Pos()) + 1, true), err, empty)
    {
      empty := false;
      var bracket := latch.Current();
      latch.Clear();
      err := SkipSpaces();
      if err == None {
        empty := Eat(close);
      }
    }

    ghost predicate Opened(close: Byte, spaces: Skip, err: Code, empty: bool)
      reads latch
    {
      match spaces
      case Fail(e) => err == Some(e) && e != NoMemory
      case At(r) =>
        && err == None && empty == (Peek(latch.input, r) == close)
        && latch.Valid() && latch.Alive() && latch.Pos() == if empty then r + 1 else r
    }

    /** After an element or a member: the closing bracket, or a comma before another. */
    method EndItem(close: Byte) returns (err: Code, closed: bool)
      requires latch.Valid() && latch.Alive() && foundSomething && close != 0 && close != COMMA
      modifies latch, this`foundSomething
      ensures foundSomething
      ensures ItemEnded(close, Space(latch.input, old(latch.Pos()), true), err, closed)
    {
      closed := false;
      err := SkipSpaces();
      if err != None {
        return;
      }
      closed := Eat(close);
      if closed {
        return;
      }
      var more := Eat(COMMA);
      if !more {
        err := Some(InvalidInput);
      }
    }

    ghost predicate ItemEnded(close: Byte, spaces: Skip, err: Code, closed: bool)
      reads latch
    {
      match spaces
      case Fail(e) => err == Some(e) && e != NoMemory
      case At(r) =>
        if Peek(latch.input, r) == close || Peek(latch.input, r) == COMMA then
          && err == None && closed == (Peek(latch.input, r) == close)
          && latch.Valid() && latch.Alive() && latch.Pos() == r + 1
        else err == Some(InvalidInput)
    }

    /** After a member: the closing brace, or a comma and the spaces before another key. */
    method EndMember() returns (err: Code, closed: bool)
      requires latch.Valid() && latch.Alive() && foundSomething
      modifies latch, this`foundSomething
      ensures foundSomething
      ensures MemberEnded(old(latch.Pos()), err, closed)
    {
      hide Space;
      err, closed := EndItem(RIGHT_BRACE);
      if err == None && !closed {
        err := SkipSpaces();
      }
    }

    ghost predicate MemberEnded(p: nat, err: Code, closed: bool)
      requires p <= |latch.input|
      reads latch
    {
      var end := Space(latch.input, p, true);
      if end.Fail? then err == Some(end.error) && end.error != NoMemory
      else if Peek(latch.input, end.pos) == RIGHT_BRACE then
        err == None && closed && latch.Valid() && latch.Alive() && latch.Pos() == end.pos + 1
      else if Peek(latch.input, end.pos) != COMMA then err == Some(InvalidInput)
      else !closed && Skipped(err, Space(latch.input, end.pos + 1, true))
    }

    // ---- Skipping values ----

    method SkipVariant(nestingLimit: nat) returns (err: Code)
      requires latch.Valid() && latch.Alive() && foundSomething
      modifies latch, this`foundSomething
      ensures Skipped(err, JsonText.SkipVariant(latch.input, old(latch.Pos()), nestingLimit, true))
      ensures foundSomething
      decreases |latch.input| - latch.Pos(), 2
    {
      hide JsonText.SkipArray, JsonText.SkipObject, SkipQuoted, SkipNumeric, Space;
      err := SkipSpaces();
      if err != None {
        return;
      }
      var c := latch.Current();
      if c == LEFT_BRACKET {
        err := SkipArray(nestingLimit);
      } else if c == LEFT_BRACE {
        err := SkipObject(nestingLimit);
      } else if IsQuote(c) {
        err := SkipQuotedString();
      } else if c == 116 {
        err := SkipKeyword(TRUE_TEXT);
      } else if c == 102 {
        err := SkipKeyword(FALSE_TEXT);
      } else if c == 110 {
        err := SkipKeyword(NULL_TEXT);
      } else {
        err := SkipNumericValue();
      }
    }

    method SkipArray(nestingLimit: nat) returns (err: Code)
      requires latch.Valid() && latch.Alive() && foundSomething && Peek(latch.input, latch.Pos()) == LEFT_BRACKET
      modifies latch, this`foundSomething
      ensures Skipped(err, JsonText.SkipArray(latch.input, old(latch.Pos()), nestingLimit))
      ensures foundSomething
      decreases |latch.input| - latch.Pos(), 1
    {
      hide JsonText.SkipVariant, Space;
      if nestingLimit == 0 {
        return Some(TooDeep);
      }
      var bracket := latch.Current();
      latch.Clear();
      ghost var start := latch.Pos();
      while true
        invariant latch.Valid() && latch.Alive() && start <= latch.Pos() && foundSomething
        invariant SkipElems(latch.input, start, nestingLimit) == SkipElems(latch.input, latch.Pos(), nestingLimit)
        decreases |latch.input| - latch.Pos()
      {
        err := SkipVariant(nestingLimit - 1);
        if err != None {
          return;
        }
        var closed;
        err, closed := EndItem(RIGHT_BRACKET);
        if err != None || closed {
          return;
        }
      }
    }

    /** One turn of skipObject's loop: key, colon and value. */
    method SkipMember(nestingLimit: nat) returns (err: Code)
      requires latch.Valid() && latch.Alive() && foundSomething && nestingLimit > 0
      modifies latch, this`foundSomething
      ensures Skipped(err, JsonText.SkipMember(latch.input, old(latch.Pos()), nestingLimit))
      ensures foundSomething
      decreases |latch.input| - latch.Pos(), 3
    {
      hide JsonText.SkipVariant, Space, JsonText.SkipKey;
      err := SkipKey();
      if err != None {
        return;
      }
      err := SkipSpaces();
      if err != None {
        return;
      }
      var colon := Eat(COLON);
      if !colon {
        return Some(InvalidInput);
      }
      err := SkipVariant(nestingLimit - 1);
    }

    method SkipObject(nestingLimit: nat) returns (err: Code)
      requires latch.Valid() && latch.Alive() && foundSomething && Peek(latch.input, latch.Pos()) == LEFT_BRACE
      modifies latch, this`foundSomething
      ensures Skipped(err, JsonText.SkipObject(latch.input, old(latch.Pos()), nestingLimit))
      ensures foundSomething
      decreases |latch.input| - latch.Pos(), 1
    {
      hide JsonText.SkipMember, Space;
      if nestingLimit == 0 {
        return Some(TooDeep);
      }
      var empty;
      err, empty := OpenCollection(RIGHT_BRACE);
      if err != None || empty {
        return;
      }
      ghost var start := latch.Pos();
      while true
        invariant latch.Valid() && latch.Alive() && start <= latch.Pos() && foundSomething
        invariant SkipMembers(latch.input, start, nestingLimit) == SkipMembers(latch.input, latch.Pos(), nestingLimit)
        decreases |latch.input| - latch.Pos()
      {
        err := SkipMember(nestingLimit);
        if err != None {
          return;
        }
        var closed;
        err, closed := EndMember();
        if err != None || closed {
          return;
        }
      }
    }

    // ---- Parsing strings ----

    /** What parsing a token leaves: the pure result, or an overflow. */
    ghost predicate TokenRead<T>(err: Code, r: Result<T>)
      reads latch, pool
    {
      match err
      case None => r.Ok? && latch.Valid() && latch.Alive() && latch.Pos() == r.pos && !pool.overflowed
      case Some(e) => if e == NoMemory then pool.overflowed else r == Err(e)
    }

    method ParseHex4() returns (err: Code, result: nat)
      requires latch.Valid() && latch.Alive()
      modifies latch
      ensures match ParseHex(latch.input, old(latch.Pos()), 4, 0) {
        case Ok(unit, q) =>
          err == None && result == unit && latch.Valid() && latch.Alive() && latch.Pos() == q
        case Err(e) => err == Some(e) && e != NoMemory
      }
      ensures err == None ==> latch.Pos() == old(latch.Pos()) + 4
    {
      ghost var start := latch.Pos();
      result := 0;
      var i := 0;
      while i < 4
        invariant 0 <= i <= 4 && latch.Valid() && latch.Alive() && result < 0x1_0000 && latch.Pos() == start + i
        invariant ParseHex(latch.input, start, 4, 0) == ParseHex(latch.input, latch.Pos(), 4 - i, result)
      {
        var digit := latch.Current();
        if digit == 0 {
          return Some(IncompleteInput), result;
        }
        var value := DecodeHex(digit);
        if value > 0x0F {
          return Some(InvalidInput), result;
        }
        result := (result * 16 + value) % 0x1_0000;
        latch.Clear();
        i := i + 1;
      }
      return None, result;
    }

    /** The part of parseQuotedString that follows a backslash. */
    method ParseEscape(codepoint: CodepointBuilder) returns (err: Code, ghost more: Bytes)
      requires storage.pool == pool && storage.Building() && codepoint.highSurrogate < 0x400
      requires latch.Valid() && latch.Alive()
      modifies latch, storage`size, pool`overflowed, pool.buf, codepoint
      ensures storage.Building() && pool.Chars() == old(pool.Chars()) && codepoint.highSurrogate < 0x400
      ensures old(pool.overflowed) ==> pool.overflowed
      ensures var r := ReadEscape(latch.input, old(latch.Pos()), old(codepoint.highSurrogate));
        if r.Err? then err == Some(r.error) && r.error != NoMemory
        else
          && err == None && latch.Valid() && latch.Alive() && latch.Pos() == r.pos
          && r.val == Escape(more, codepoint.highSurrogate)
          && (!pool.overflowed ==> storage.Text() == old(storage.Text()) + more)
          && old(latch.Pos()) + |more| <= r.pos
          && (pool.overflowed ==> old(pool.overflowed) || Free(pool) <= |old(storage.Text())| + |more|)
    {
      hide ParseHex, Utf8, Codepoint, UnescapeChar;
      hide StringCopier.Building, StringCopier.Text, MemoryPool.Chars, MemoryPool.Valid;
      more := [];
      var c := latch.Current();
      if c == 0 {
        return Some(IncompleteInput), more;
      }
      if c == 117 {
        latch.Clear();
        var unit;
        err, unit := ParseHex4();
        if err != None {
          return;
        }
        var complete := codepoint.Append(unit);
        if complete {
          storage.EncodeCodepoint(codepoint.codepoint);
          more := Utf8(codepoint.codepoint);
        }
        assert storage.Text() + [] == storage.Text();
        return;
      }
      c := ScanForLetter(c);
      if c == 0 {
        return Some(InvalidInput), more;
      }
      latch.Clear();
      storage.Append(c);
      return None, [c];
    }

    /** What a character of a quoted string adds: itself, or the escape after a backslash. */
    method ParseCharacter(c: Byte, codepoint: CodepointBuilder) returns (err: Code, ghost more: Bytes)
      requires storage.pool == pool && storage.Building() && codepoint.highSurrogate < 0x400
      requires latch.Valid() && latch.Alive()
      modifies latch, storage`size, pool`overflowed, pool.buf, codepoint
      ensures storage.Building() && pool.Chars() == old(pool.Chars()) && codepoint.highSurrogate < 0x400
      ensures old(pool.overflowed) ==> pool.overflowed
      ensures var r := ReadCharacter(latch.input, old(latch.Pos()), c, old(codepoint.highSurrogate));
        if r.Err? then err == Some(r.error) && r.error != NoMemory
        else
          && err == None && latch.Valid() && latch.Alive() && latch.Pos() == r.pos
          && r.val == Escape(more, codepoint.highSurrogate)
          && (!pool.overflowed ==> storage.Text() == old(storage.Text()) + more)
          && old(latch.Pos()) + |more| <= r.pos + 1
          && (pool.overflowed ==> old(pool.overflowed) || Free(pool) <= |old(storage.Text())| + |more|)
    {
      hide ReadEscape, StringCopier.Building, StringCopier.Text, MemoryPool.Chars, MemoryPool.Valid;
      if c == BACKSLASH {
        err, more := ParseEscape(codepoint);
      } else {
        storage.Append(c);
        err, more := None, [c];
      }
    }

    /** parseQuotedString, into the string under construction; the pool overflows only when
        the quoted text is longer than the free zone. */
    method ParseQuotedString() returns (err: Code)
      requires pool.Valid() && storage.pool == pool && storage.Building()
      requires if pool.overflowed then Free(pool) == 0 else storage.Text() == []
      requires latch.Valid() && latch.Alive() && IsQuote(Peek(latch.input, latch.Pos()))
      modifies latch, storage`size, pool`overflowed, pool.buf
      ensures storage.Building() && pool.Chars() == old(pool.Chars())
      ensures TokenRead(err, ParseQuoted(latch.input, old(latch.Pos()) + 1, Peek(latch.input, old(latch.Pos())), 0, []))
      ensures err == None ==>
        storage.Text() == ParseQuoted(latch.input, old(latch.Pos()) + 1, Peek(latch.input, old(latch.Pos())), 0, []).val
      ensures err == None ==> old(latch.Pos()) + |storage.Text()| + 2 <= latch.Pos()
      ensures err == Some(NoMemory) ==> old(latch.Pos()) + Free(pool) < |latch.input|
    {
      hide ReadCharacter, StringCopier.Building, StringCopier.Text, MemoryPool.Chars, MemoryPool.Valid;
      hide Latch.Valid, Latch.Pos, Free, ParseQuoted;
      var codepoint := new CodepointBuilder();
      var stopChar := latch.Current();
      latch.Clear();
      ghost var start := latch.Pos();
      ghost var acc: Bytes := [];
      while true
        invariant latch.Valid() && latch.Alive() && start <= latch.Pos()
        invariant storage.Building() && pool.Chars() == old(pool.Chars())
        invariant !pool.overflowed ==> storage.Text() == acc
        invariant start + |acc| <= latch.Pos() && (pool.overflowed ==> start + Free(pool) <= latch.Pos())
        invariant fresh(codepoint) && codepoint.highSurrogate < 0x400
        invariant ParseQuoted(latch.input, start, stopChar, 0, [])
               == ParseQuoted(latch.input, latch.Pos(), stopChar, codepoint.highSurrogate, acc)
        decreases |latch.input| - latch.Pos()
      {
        QuotedUnfold(latch.input, latch.Pos(), stopChar, codepoint.highSurrogate, acc);
        var c := latch.Current();
        latch.Clear();
        if c == stopChar {
          break;
        }
        if c == 0 {
          return Some(IncompleteInput);
        }
        ghost var more;
        err, more := ParseCharacter(c, codepoint);
        if err != None {
          return;
        }
        acc := acc + more;
      }
      if pool.overflowed {
        return Some(NoMemory);
      }
      return None;
    }

    method ParseNonQuotedString() returns (err: Code)
      requires pool.Valid() && storage.pool == pool && storage.Building()
      requires if pool.overflowed then Free(pool) == 0 else storage.Text() == []
      requires latch.Valid() && latch.Alive()
      modifies latch, storage`size, pool`overflowed, pool.buf
      ensures storage.Building() && pool.Chars() == old(pool.Chars())
      ensures match err {
        case None =>
          && latch.Valid() && latch.Alive()
            && latch.Pos() == NonQuotedEnd(latch.input, old(latch.Pos())) > old(latch.Pos())
          && !pool.overflowed && storage.Text() == latch.input[old(latch.Pos())..latch.Pos()]
        case Some(e) =>
          if e == NoMemory then pool.overflowed
          else e == InvalidInput && NonQuotedEnd(latch.input, old(latch.Pos())) == old(latch.Pos())
      }
      ensures err == Some(NoMemory) ==>
        old(latch.Pos()) < |latch.input| && old(latch.Pos()) + Free(pool) <= |latch.input|
    {
      hide StringCopier.Building, StringCopier.Text, MemoryPool.Chars, MemoryPool.Valid;
      hide Latch.Valid, Latch.Pos, Free;
      ghost var start := latch.Pos();
      var c := latch.Current();
      if !CanBeInNonQuotedString(c) {
        return Some(InvalidInput);
      }
      while CanBeInNonQuotedString(c)
        invariant latch.Valid() && latch.Alive() && latch.loaded && c == Peek(latch.input, latch.Pos())
          && start <= latch.Pos()
        invariant storage.Building() && pool.Chars() == old(pool.Chars())
        invariant !pool.overflowed ==> storage.Text() == latch.input[start..latch.Pos()]
        invariant pool.overflowed ==> start + Free(pool) <= latch.Pos()
        invariant NonQuotedEnd(latch.input, start) == NonQuotedEnd(latch.input, latch.Pos())
        decreases |latch.input| - latch.Pos()
      {
        assert latch.input[start..latch.Pos()] + [c] == latch.input[start..latch.Pos() + 1];
        latch.Clear();
        storage.Append(c);
        c := latch.Current();
      }
      if pool.overflowed {
        return Some(NoMemory);
      }
      return None;
    }

    method ParseKey() returns (err: Code)
      requires Ready()
      modifies latch, storage, pool`overflowed, pool.buf
      ensures storage.Building() && pool.Chars() == old(pool.Chars())
      ensures TokenRead(err, JsonText.ParseKey(latch.input, old(latch.Pos())))
      ensures err == None ==> storage.Text() == JsonText.ParseKey(latch.input, old(latch.Pos())).val
      ensures err == None ==> old(latch.Pos()) < latch.Pos() && old(latch.Pos()) + |storage.Text()| <= latch.Pos()
      ensures err == Some(NoMemory) ==>
        old(latch.Pos()) < |latch.input| && old(latch.Pos()) + Free(pool) <= |latch.input|
    {
      hide StringCopier.Building, StringCopier.Text, MemoryPool.Chars, MemoryPool.Valid, ParseQuoted, NonQuotedEnd;
      hide Latch.Valid, Latch.Pos, Latch.Alive, Free;
      storage.StartString();
      var c := latch.Current();
      if IsQuote(c) {
        err := ParseQuotedString();
      } else {
        err := ParseNonQuotedString();
      }
    }

    // ---- Parsing values ----

    /** What parsing into `variant` leaves, given the slots and characters before: the pure
        result denoted by the variant, a pure error, or an overflow. */
    ghost predicate Parsed(err: Code, r: Result<Value>, variant: int, before: Shape, after: Shape,
                           cells: map<int, Slot>, chars: Bytes)
      reads this, pool, pool.buf, latch, storage
    {
      pool.Valid() &&
      match err
      case None =>
        && r.Ok? && Ready() && foundSomething && latch.Pos() == r.pos
        && Holds(pool, variant, after, r.val) && OwnsNew(after, before, cells)
          && Grew(pool.Mem(), cells, chars, variant)
      case Some(e) => if e == NoMemory then pool.overflowed else r == Err(e)
    }

    /** No slot and no character is taken that the input read since `from` does not pay for,
        at the size of a slot each, beyond `credit`. */
    ghost predicate Paid(err: Code, from: nat, free: int, credit: nat)
      reads pool, latch
    {
      match err
      case None => latch.Valid() && free <= Free(pool) + SLOT_SIZE * (latch.Pos() - from) + credit
      case Some(e) => e == NoMemory ==> free < SLOT_SIZE * (|latch.input| - from) + credit
    }

    /** A quoted string, parsed and saved in the pool. */
    method SaveQuotedString() returns (err: Code, data: int, size: nat, ghost text: Bytes)
      requires Ready() && IsQuote(Peek(latch.input, latch.Pos()))
      modifies latch, storage, pool`left, pool`overflowed, pool.buf
      ensures pool.Valid() && old(pool.Chars()) <= pool.Chars()
      ensures var r := ParseQuoted(latch.input, old(latch.Pos()) + 1, Peek(latch.input, old(latch.Pos())), 0, []);
        && TokenRead(err, r)
        && (err == None ==> Ready() && text == r.val && size == |text| && StringAt(pool.Mem(), data, text))
      ensures Paid(err, old(latch.Pos()), old(Free(pool)), 0)
    {
      hide Latch.Valid, Latch.Alive, Latch.Pos, ParseQuoted, StringCopier.Text, StringCopier.Building;
      hide MemoryPool.Chars, MemoryPool.Valid, StringAt;
      data, size, text := NULL, 0, [];
      storage.StartString();
      err := ParseQuotedString();
      if err == None {
        size := storage.size;
        text := storage.Text();
        data := storage.Save();
      }
    }

    /** parseStringValue */
    method ParseStringValue(variant: int, ghost sh: Shape, ghost prev: Value) returns (err: Code)
      requires Ready() && foundSomething && Holds(pool, variant, sh, prev)
      requires IsQuote(Peek(latch.input, latch.Pos()))
      modifies latch, storage, pool`left, pool`overflowed, pool`cells, pool.buf
      ensures Parsed(err, ParseString(latch.input, old(latch.Pos())), variant, sh, LEAF, old(pool.cells),
        old(pool.Chars()))
      ensures Paid(err, old(latch.Pos()), old(Free(pool)), 0)
    {
      hide Latch.Valid, Latch.Alive, Latch.Pos, ParseQuoted, MemoryPool.Chars, MemoryPool.Valid;
      hide StringAt, Tree, Grew;
      var data, size;
      ghost var text;
      err, data, size, text := SaveQuotedString();
      if err == None {
        WriteString(pool, variant, data, size, text, old(pool.Chars()));
        assert forall a :: !Owns(LEAF, a);
      }
    }

    /** The token that parseNumericValue copies to its buffer. */
    method ReadToken() returns (buffer: Bytes)
      requires latch.Valid() && latch.Alive()
      modifies latch
      ensures latch.Valid() && latch.Alive() && latch.Pos() == NumberEnd(latch.input, old(latch.Pos()), MAX_TOKEN)
      ensures latch.loaded && buffer == latch.input[old(latch.Pos())..latch.Pos()]
    {
      hide Latch.Valid, Latch.Pos;
      buffer := [];
      ghost var start := latch.Pos();
      var c := latch.Current();
      while CanBeInNumber(c) && |buffer| < MAX_TOKEN
        invariant latch.Valid() && latch.Alive() && latch.loaded && c == Peek(latch.input, latch.Pos())
          && start <= latch.Pos()
        invariant buffer == latch.input[start..latch.Pos()] && |buffer| <= MAX_TOKEN
        invariant NumberEnd(latch.input, start, MAX_TOKEN) == NumberEnd(latch.input, latch.Pos(), MAX_TOKEN - |buffer|)
        decreases |latch.input| - latch.Pos()
      {
        assert latch.input[start..latch.Pos()] + [c] == latch.input[start..latch.Pos() + 1];
        latch.Clear();
        buffer := buffer + [c];
        c := latch.Current();
      }
    }

    /** Writes a value without slots into a variant. */
    method SetLeaf(variant: int, c: Content, ghost sh: Shape, ghost v: Value)
      requires Ready() && variant in pool.cells && Denotes(pool.Mem(), c, LEAF, v)
      modifies pool`cells
      ensures Ready() && latch.Pos() == old(latch.Pos())
      ensures Holds(pool, variant, LEAF, v) && OwnsNew(LEAF, sh, old(pool.cells))
      ensures Grew(pool.Mem(), old(pool.cells), old(pool.Chars()), variant)
    {
      hide MemoryPool.Valid, MemoryPool.Chars, Tree, Grew;
      assert forall a :: !Owns(LEAF, a);
      WriteLeaf(pool, variant, c, v);
    }

    method ParseNumericValue(variant: int, ghost sh: Shape, ghost prev: Value) returns (err: Code)
      requires Ready() && foundSomething && Holds(pool, variant, sh, prev)
      modifies latch, pool`cells
      ensures Parsed(err, ParseNumeric(latch.input, old(latch.Pos())), variant, sh, LEAF, old(pool.cells),
        old(pool.Chars()))
      ensures Paid(err, old(latch.Pos()), old(Free(pool)), 0)
      ensures latch.loaded
    {
      hide MemoryPool.Valid, MemoryPool.Chars, Grew, OwnsNew, Numbers.ParseNumber;
      var buffer := ReadToken();
      var number := Numbers.ReadNumber(buffer);
      if number == None {
        return Some(InvalidInput);
      }
      Numbers.ParsedIntegerFits(buffer);
      var content := if number.value.Int? then IntContent(number.value.n, Numbers.Peek(buffer, 0) == 45)
                     else FloatContent(number.value.lit);
      SetLeaf(variant, content, sh, number.value);
      return None;
    }

    /** A skip that leaves the variant as it is. */
    lemma Kept(err: Code, r: Skip, from: nat, variant: int, before: Shape, after: Shape, v: Value,
               cells: map<int, Slot>, chars: Bytes)
      requires pool.Valid() && !pool.overflowed && storage.pool == pool && foundSomething && Skipped(err, r)
      requires Holds(pool, variant, after, v) && OwnsNew(after, before, cells)
        && Grew(pool.Mem(), cells, chars, variant)
      requires r.At? ==> from <= r.pos
      ensures Parsed(err, Keeping(r, v), variant, before, after, cells, chars) && Paid(err, from, Free(pool), 0)
    {
      hide MemoryPool.Valid, MemoryPool.Chars, Holds, OwnsNew, Grew;
    }

    method SetBoolean(variant: int, b: bool, ghost sh: Shape, ghost prev: Value)
      requires Ready() && Holds(pool, variant, sh, prev)
      modifies pool`cells
      ensures Ready() && latch.Pos() == old(latch.Pos())
      ensures Holds(pool, variant, LEAF, Bool(b)) && OwnsNew(LEAF, sh, old(pool.cells))
      ensures Grew(pool.Mem(), old(pool.cells), old(pool.Chars()), variant)
    {
      hide MemoryPool.Valid, MemoryPool.Chars, Grew;
      SetLeaf(variant, BoolContent(b), sh, Bool(b));
    }

    /** A keyword that stands for a boolean, which is written before it is read. */
    method ParseBoolean(variant: int, b: bool, word: Keyword, filter: Value, ghost sh: Shape, ghost prev: Value)
      returns (err: Code, ghost after: Shape)
      requires Ready() && foundSomething && Holds(pool, variant, sh, prev)
      modifies latch, pool`cells
      ensures Parsed(err, Keeping(JsonText.SkipKeyword(latch.input, old(latch.Pos()), word),
                                  if AllowValue(filter) then Bool(b) else prev),
                     variant, sh, after, old(pool.cells), old(pool.Chars()))
      ensures Paid(err, old(latch.Pos()), old(Free(pool)), 0)
    {
      hide MemoryPool.Valid, MemoryPool.Chars, OwnsNew, Grew, Parsed, Holds, JsonText.SkipKeyword;
      ghost var cells, chars, from := pool.cells, pool.Chars(), latch.Pos();
      after := sh;
      Unchanged(pool, sh, variant);
      if AllowValue(filter) {
        SetBoolean(variant, b, sh, prev);
        after := LEAF;
      }
      err := SkipKeyword(word);
      Kept(err, JsonText.SkipKeyword(latch.input, from, word), from, variant, sh, after,
        if AllowValue(filter) then Bool(b) else prev, cells, chars);
    }

    /** The cases of parseVariant that do not nest. */
    method ParseToken(variant: int, c: Byte, filter: Value, ghost sh: Shape, ghost prev: Value)
      returns (err: Code, ghost after: Shape)
      requires Ready() && foundSomething && Holds(pool, variant, sh, prev)
      requires c == Peek(latch.input, latch.Pos()) && c != 0
      modifies latch, storage, pool`left, pool`overflowed, pool`cells, pool.buf
      ensures Parsed(err, JsonText.ParseToken(latch.input, old(latch.Pos()), filter, prev),
                     variant, sh, after, old(pool.cells), old(pool.Chars()))
      ensures Paid(err, old(latch.Pos()), old(Free(pool)), 0)
      ensures var r := JsonText.ParseToken(latch.input, old(latch.Pos()), filter, prev);
        err == None && r.Ok? && !IsEnclosed(r.val) && IsEnclosed(prev) ==> latch.loaded
    {
      hide MemoryPool.Valid, MemoryPool.Chars, ParseString, ParseNumeric, SkipQuoted, SkipNumeric, OwnsNew, Grew;
      hide Parsed, Skipped, Holds, Latch.Valid, Latch.Alive, Latch.Pos, JsonText.SkipKeyword;
      ghost var cells, chars, from := pool.cells, pool.Chars(), latch.Pos();
      after := sh;
      Unchanged(pool, sh, variant);
      if IsQuote(c) {
        if AllowValue(filter) {
          err := ParseStringValue(variant, sh, prev);
          return err, LEAF;
        }
        err := SkipQuotedString();
        Kept(err, SkipQuoted(latch.input, from + 1, c), from, variant, sh, after, prev, cells, chars);
      } else if c == 116 {
        err, after := ParseBoolean(variant, true, TRUE_TEXT, filter, sh, prev);
      } else if c == 102 {
        err, after := ParseBoolean(variant, false, FALSE_TEXT, filter, sh, prev);
      } else if c == 110 {
        err := SkipKeyword(NULL_TEXT);
        Kept(err, JsonText.SkipKeyword(latch.input, from, NULL_TEXT), from, variant, sh, after, prev, cells, chars);
      } else if AllowValue(filter) {
        err := ParseNumericValue(variant, sh, prev);
        after := LEAF;
      } else {
        err := SkipNumericValue();
        Kept(err, At(SkipNumeric(latch.input, from)), from, variant, sh, after, prev, cells, chars);
      }
    }

    /** parseVariant: what the variant at `variant` holds afterwards is the pure parse. */
    method ParseVariant(variant: int, filter: Value, nestingLimit: nat, ghost sh: Shape, ghost prev: Value)
      returns (err: Code, ghost after: Shape)
      requires Ready() && Holds(pool, variant, sh, prev)
      modifies latch, storage, this`foundSomething
      modifies pool`left, pool`right, pool`overflowed, pool`cells, pool.buf
      ensures Parsed(err, JsonText.ParseVariant(latch.input, old(latch.Pos()), filter, nestingLimit, prev,
        old(foundSomething)),
                     variant, sh, after, old(pool.cells), old(pool.Chars()))
      ensures Paid(err, old(latch.Pos()), old(Free(pool)), 0)
      ensures var r := JsonText.ParseVariant(latch.input, old(latch.Pos()), filter, nestingLimit, prev,
        old(foundSomething));
        err == None && r.Ok? && !IsEnclosed(r.val) && IsEnclosed(prev) ==> latch.loaded
      decreases |latch.input| - latch.Pos(), 2
    {
      hide MemoryPool.Valid, MemoryPool.Chars, JsonText.ParseToken, JsonText.ParseArray, JsonText.ParseObject;
      hide OwnsNew, Grew;
      hide JsonText.SkipArray, JsonText.SkipObject, Space, Holds, Parsed, Built, Latch.Valid, Latch.Alive, Latch.Pos;
      ghost var cells, chars := pool.cells, pool.Chars();
      after := sh;
      err := SkipSpaces();
      if err != None {
        SpaceError(err, variant, sh, cells, chars);
        return;
      }
      var c := latch.Current();
      if c == LEFT_BRACKET || c == LEFT_BRACE {
        err, after := ParseNested(variant, c, filter, nestingLimit, sh, prev);
      } else {
        err, after := ParseToken(variant, c, filter, sh, prev);
      }
    }

    /** The cases of parseVariant that nest. */
    method ParseNested(variant: int, c: Byte, filter: Value, nestingLimit: nat, ghost sh: Shape, ghost prev: Value)
      returns (err: Code, ghost after: Shape)
      requires Ready() && foundSomething && Holds(pool, variant, sh, prev)
      requires c == Peek(latch.input, latch.Pos()) && (c == LEFT_BRACKET || c == LEFT_BRACE)
      modifies latch, storage, this`foundSomething
      modifies pool`left, pool`right, pool`overflowed, pool`cells, pool.buf
      ensures Parsed(err, NestedText(latch.input, old(latch.Pos()), filter, nestingLimit, prev),
                     variant, sh, after, old(pool.cells), old(pool.Chars()))
      ensures Paid(err, old(latch.Pos()), old(Free(pool)), 0)
      decreases |latch.input| - latch.Pos(), 1, 1
    {
      hide MemoryPool.Valid, MemoryPool.Chars, JsonText.ParseArray, JsonText.ParseObject, OwnsNew, Grew;
      hide JsonText.SkipArray, JsonText.SkipObject, Holds, Parsed, Built, Latch.Valid, Latch.Alive, Latch.Pos;
      ghost var cells, chars, from := pool.cells, pool.Chars(), latch.Pos();
      after := sh;
      Unchanged(pool, sh, variant);
      if c == LEFT_BRACKET {
        if AllowArray(filter) {
          ToCollection(variant, false, sh, prev);
          err, after := ParseArray(variant, filter, nestingLimit, cells, chars);
          NewAnyway(err, JsonText.ParseArray(latch.input, from, filter, nestingLimit), variant, sh, after, cells,
            chars);
          return;
        }
        err := SkipArray(nestingLimit);
        Kept(err, JsonText.SkipArray(latch.input, from, nestingLimit), from, variant, sh, after, prev, cells, chars);
      } else {
        if AllowObject(filter) {
          ToCollection(variant, true, sh, prev);
          err, after := ParseObject(variant, filter, nestingLimit, cells, chars);
          NewAnyway(err, JsonText.ParseObject(latch.input, from, filter, nestingLimit), variant, sh, after, cells,
            chars);
          return;
        }
        err := SkipObject(nestingLimit);
        Kept(err, JsonText.SkipObject(latch.input, from, nestingLimit), from, variant, sh, after, prev, cells, chars);
      }
    }

    lemma SpaceError(err: Code, variant: int, sh: Shape, cells: map<int, Slot>, chars: Bytes)
      requires pool.Valid() && err != None && err != Some(NoMemory)
      ensures Parsed(err, Err(err.value), variant, sh, sh, cells, chars)
    {
    }

    /** Slots that are all new are new whatever was there before. */
    lemma NewAnyway(err: Code, r: Result<Value>, variant: int, sh: Shape, after: Shape, cells: map<int, Slot>,
                    chars: Bytes)
      requires Parsed(err, r, variant, LEAF, after, cells, chars)
      ensures Parsed(err, r, variant, sh, after, cells, chars)
    {
      hide MemoryPool.Valid, MemoryPool.Chars, Holds, Grew;
      assert forall a :: !Owns(LEAF, a);
    }

    /** toArray and toObject: an empty collection in place of what was there. */
    method ToCollection(variant: int, isObject: bool, ghost sh: Shape, ghost prev: Value)
      requires Ready() && Holds(pool, variant, sh, prev)
      modifies pool`cells
      ensures Ready() && latch.Pos() == old(latch.Pos())
      ensures Built(pool, variant, LEAF, if isObject then Obj([]) else Arr([]), old(pool.cells), old(pool.Chars()))
    {
      hide MemoryPool.Valid, MemoryPool.Chars, Grew;
      SetLeaf(variant, Collection(isObject, NULL, NULL), LEAF, if isObject then Obj([]) else Arr([]));
    }

    /** parseVariant into child number `at` of a collection. */
    method ParseChild(owner: int, slot: int, filter: Value, nestingLimit: nat, ghost sh: Shape, ghost v: Value,
                      ghost at: nat,
                      ghost cells: map<int, Slot>, ghost chars: Bytes)
      returns (err: Code, ghost after: Shape)
      requires Ready() && foundSomething && IsNested(v) && Built(pool, owner, sh, v, cells, chars)
      requires at < Arity(v) && |sh.kids| == Arity(v) && sh.kids[at].addr == slot
      modifies latch, storage, this`foundSomething
      modifies pool`left, pool`right, pool`overflowed, pool`cells, pool.buf
      ensures Parsed(err, InChild(v, at,
        JsonText.ParseVariant(latch.input, old(latch.Pos()), filter, nestingLimit, Child(v, at), true)),
                     owner, LEAF, after, cells, chars)
      ensures Paid(err, old(latch.Pos()), old(Free(pool)), 0)
      decreases |latch.input| - latch.Pos(), 3
    {
      hide MemoryPool.Valid, MemoryPool.Chars, OwnsNew, Tree, Owns, JsonText.ParseVariant;
      ghost var m := pool.Mem();
      HeldSlot(pool, owner, sh, v, at);
      ghost var sub;
      err, sub := ParseVariant(slot, filter, nestingLimit, sh.kids[at].sub, Child(v, at));
      after := Shape(sh.kids[at := Kid(slot, sub)]);
      if err == None {
        ghost var r := JsonText.ParseVariant(latch.input, old(latch.Pos()), filter, nestingLimit, Child(v, at), true);
        NewChildRewritten(pool, m, owner, sh, v, at, sub, r.val, cells, chars);
      }
    }

    /** parseArray, into an array that is still empty. */
    method ParseArray(variant: int, filter: Value, nestingLimit: nat, ghost cells: map<int, Slot>, ghost chars: Bytes)
      returns (err: Code, ghost after: Shape)
      requires Ready() && foundSomething && Built(pool, variant, LEAF, Arr([]), cells, chars)
      requires Peek(latch.input, latch.Pos()) == LEFT_BRACKET
      modifies latch, storage, this`foundSomething
      modifies pool`left, pool`right, pool`overflowed, pool`cells, pool.buf
      ensures Parsed(err, JsonText.ParseArray(latch.input, old(latch.Pos()), filter, nestingLimit), variant, LEAF,
        after, cells, chars)
      ensures Paid(err, old(latch.Pos()), old(Free(pool)), 0)
      decreases |latch.input| - latch.Pos(), 1, 0
    {
      hide MemoryPool.Valid, MemoryPool.Chars, Holds, OwnsNew, Grew, Space;
      hide ElementFilter, ParseElems, Latch.Valid, Latch.Alive, Latch.Pos;
      after := LEAF;
      if nestingLimit == 0 {
        return Some(TooDeep), after;
      }
      var empty;
      err, empty := OpenCollection(RIGHT_BRACKET);
      if err == None && !empty {
        err, after := ParseElements(variant, ElementFilter(filter), nestingLimit, cells, chars);
      }
    }

    /** The loop of parseArray. */
    method ParseElements(variant: int, memberFilter: Value, nestingLimit: nat, ghost cells: map<int, Slot>,
                         ghost chars: Bytes)
      returns (err: Code, ghost after: Shape)
      requires Ready() && foundSomething && nestingLimit > 0 && Built(pool, variant, LEAF, Arr([]), cells, chars)
      modifies latch, storage, this`foundSomething
      modifies pool`left, pool`right, pool`overflowed, pool`cells, pool.buf
      ensures Parsed(err, ParseElems(latch.input, old(latch.Pos()), memberFilter, nestingLimit, []), variant, LEAF,
        after, cells, chars)
      ensures Paid(err, old(latch.Pos()), old(Free(pool)), SLOT_SIZE)
      decreases |latch.input| - latch.Pos(), 5
    {
      hide MemoryPool.Valid, MemoryPool.Chars, Holds, OwnsNew, Grew, ParseElems, OneElement, Space;
      hide Latch.Valid, Latch.Alive, Latch.Pos;
      after := LEAF;
      ghost var start := latch.Pos();
      ghost var acc: seq<Value> := [];
      while true
        invariant Ready() && foundSomething && start <= latch.Pos()
          && Built(pool, variant, after, Arr(acc), cells, chars)
        invariant Paid(None, start, old(Free(pool)), 0)
        invariant ParseElems(latch.input, start, memberFilter, nestingLimit, [])
               == ParseElems(latch.input, latch.Pos(), memberFilter, nestingLimit, acc)
        decreases |latch.input| - latch.Pos()
      {
        ElemsUnfold(latch.input, latch.Pos(), memberFilter, nestingLimit, acc);
        err, acc, after := ParseElement(variant, memberFilter, nestingLimit, acc, after, cells, chars);
        if err != None {
          return;
        }
        var closed;
        err, closed := EndItem(RIGHT_BRACKET);
        if err != None || closed {
          return;
        }
      }
    }

    /** One turn of parseArray's loop: an element added and parsed, or skipped. */
    method ParseElement(variant: int, filter: Value, nestingLimit: nat, ghost acc: seq<Value>, ghost sh: Shape,
                        ghost cells: map<int, Slot>, ghost chars: Bytes)
      returns (err: Code, ghost acc': seq<Value>, ghost after: Shape)
      requires Ready() && foundSomething && nestingLimit > 0 && Built(pool, variant, sh, Arr(acc), cells, chars)
      modifies latch, storage, this`foundSomething
      modifies pool`left, pool`right, pool`overflowed, pool`cells, pool.buf
      ensures pool.Valid()
      ensures var r := OneElement(latch.input, old(latch.Pos()), filter, nestingLimit, acc);
        match err
        case None =>
          && r.Ok? && acc' == r.val && Ready() && foundSomething && latch.Pos() == r.pos
          && Built(pool, variant, after, Arr(acc'), cells, chars)
        case Some(e) => if e == NoMemory then pool.overflowed else r == Err(e)
      ensures Paid(err, old(latch.Pos()), old(Free(pool)), SLOT_SIZE)
      decreases |latch.input| - latch.Pos(), 4
    {
      hide MemoryPool.Valid, MemoryPool.Chars, OwnsNew, Grew, Tree, Owns, JsonText.ParseVariant, OnlyLinks;
      hide Latch.Valid, Latch.Alive, Latch.Pos, Allow;
      acc', after := acc, sh;
      ghost var from := latch.Pos();
      if !Allow(filter) {
        err := SkipVariant(nestingLimit - 1);
        return;
      }
      var value;
      value, after := AddElement(variant, acc, sh, cells, chars);
      if value == NULL {
        return Some(NoMemory), acc', after;
      }
      err, after := ParseChild(variant, value, filter, nestingLimit - 1, after, Arr(acc + [Null]), |acc|, cells, chars);
      if err == None {
        ghost var r := JsonText.ParseVariant(latch.input, from, filter, nestingLimit - 1, Null, true);
        acc' := acc + [r.val];
        assert (acc + [Null])[|acc| := r.val] == acc';
      }
    }

    /** addElement while an array is built. */
    method AddElement(variant: int, ghost acc: seq<Value>, ghost sh: Shape, ghost cells: map<int, Slot>,
                      ghost chars: Bytes)
      returns (value: int, ghost after: Shape)
      requires Ready() && Built(pool, variant, sh, Arr(acc), cells, chars)
      modifies pool`right, pool`overflowed, pool`cells
      ensures pool.Valid() && (value == NULL ==> pool.overflowed)
      ensures value != NULL ==>
        && Ready() && Built(pool, variant, after, Arr(acc + [Null]), cells, chars)
        && |after.kids| == |acc| + 1 && after.kids[|acc|].addr == value
      ensures if value == NULL then old(Free(pool)) < SLOT_SIZE else Free(pool) + SLOT_SIZE == old(Free(pool))
    {
      hide MemoryPool.Valid, MemoryPool.Chars, OwnsNew, Grew, Tree, Owns, OnlyLinks;
      ghost var m := pool.Mem();
      HeldHead(pool, variant, sh, Arr(acc));
      value := AddChild(pool, variant, NoKey, [], sh, Arr(acc));
      after := Shape(sh.kids + [Kid(value, LEAF)]);
      if value != NULL {
        AddedIsNew(m, pool.Mem(), variant, sh, value, cells, chars);
      }
    }

    /** The slot of the member named by the string under construction, which is saved and
        given a slot of its own when the object has no such member yet. */
    method GetOrAddKey(variant: int, key: Bytes, ghost sh: Shape, ghost acc: seq<Member>,
                       ghost cells: map<int, Slot>, ghost chars: Bytes)
      returns (slot: int, ghost after: Shape, ghost acc': seq<Member>)
      requires Ready() && Built(pool, variant, sh, Obj(acc), cells, chars)
      requires storage.Building() && key == CStr(storage.Text())
      modifies pool`left, pool`right, pool`overflowed, pool`cells, pool.buf
      ensures pool.Valid() && (slot == NULL ==> pool.overflowed)
      ensures acc' == if Find(acc, key) < |acc| then acc else acc + [Member(key, Null)]
      ensures slot != NULL ==>
        && Ready() && Built(pool, variant, after, Obj(acc'), cells, chars)
        && |after.kids| == |acc'| && after.kids[Find(acc, key)].addr == slot
      ensures var cost := SLOT_SIZE + |old(storage.Text())| + 1;
        if slot == NULL then old(Free(pool)) < cost else Free(pool) + cost >= old(Free(pool))
    {
      hide MemoryPool.Valid, MemoryPool.Chars, StringCopier.Text, StringCopier.Building, OwnsNew, Grew, Tree, Owns;
      hide OnlyLinks, StringAt;
      acc', after := acc, sh;
      slot := GetMember(pool, variant, key, sh, acc);
      if slot != NULL {
        return;
      }
      if Find(acc, key) < |acc| {
        HeldSlot(pool, variant, sh, Obj(acc), Find(acc, key));
      }
      ghost var m := pool.Mem();
      var data := storage.Save();
      SavedStill(pool, m, variant, sh, Obj(acc), cells, chars);
      StringAtIsCString(pool.Mem(), data, old(storage.Text()));
      ghost var saved := pool.Mem();
      slot := AddChild(pool, variant, OwnedKey(data), key, sh, Obj(acc));
      acc' := acc + [Member(key, Null)];
      if slot == NULL {
        return;
      }
      AddedIsNew(saved, pool.Mem(), variant, sh, slot, cells, chars);
      after := Shape(sh.kids + [Kid(slot, LEAF)]);
    }

    lemma BuiltKept(err: Code, r: Skip, variant: int, sh: Shape, v: Value, cells: map<int, Slot>, chars: Bytes)
      requires pool.Valid() && !pool.overflowed && storage.pool == pool && foundSomething && Skipped(err, r)
      requires Built(pool, variant, sh, v, cells, chars)
      ensures Parsed(err, Keeping(r, v), variant, LEAF, sh, cells, chars)
    {
      hide MemoryPool.Valid, MemoryPool.Chars, Holds, OwnsNew, Grew;
    }

    /** A key and the colon after it: the string under construction, read as a C string. */
    method ParseMemberKey(variant: int, ghost sh: Shape, ghost v: Value, ghost cells: map<int, Slot>,
                          ghost chars: Bytes)
      returns (err: Code, key: Bytes)
      requires Ready() && foundSomething && Built(pool, variant, sh, v, cells, chars)
      modifies latch, storage, this`foundSomething, pool`overflowed, pool.buf
      ensures pool.Valid()
      ensures err == None ==>
        && Ready() && foundSomething && Built(pool, variant, sh, v, cells, chars)
        && storage.Building() && key == CStr(storage.Text())
        && old(latch.Pos()) + |storage.Text()| < latch.Pos() && old(latch.Pos()) + 1 < latch.Pos()
      ensures err == Some(NoMemory) ==>
        old(latch.Pos()) < |latch.input| && old(latch.Pos()) + Free(pool) <= |latch.input|
      ensures var r := MemberKey(latch.input, old(latch.Pos()));
        match err
        case None => r.Ok? && key == r.val && latch.Pos() == r.pos
        case Some(e) => if e == NoMemory then pool.overflowed else r == Err(e)
    {
      hide MemoryPool.Valid, MemoryPool.Chars, StringCopier.Text, StringCopier.Building, Tree, Owns, OwnsNew, Grew;
      hide JsonText.ParseKey, Space, Latch.Valid, Latch.Alive, Latch.Pos;
      key := [];
      err := ParseKey();
      if err != None {
        return;
      }
      err := SkipSpaces();
      if err != None {
        return;
      }
      var colon := Eat(COLON);
      if !colon {
        return Some(InvalidInput), key;
      }
      key := storage.Str();
    }

    /** One turn of parseObject's loop: key, colon and value. */
    method ParseMember(variant: int, filter: Value, nestingLimit: nat, ghost sh: Shape, ghost acc: seq<Member>,
                       ghost cells: map<int, Slot>, ghost chars: Bytes)
      returns (err: Code, ghost after: Shape)
      requires Ready() && foundSomething && nestingLimit > 0 && Built(pool, variant, sh, Obj(acc), cells, chars)
      modifies latch, storage, this`foundSomething
      modifies pool`left, pool`right, pool`overflowed, pool`cells, pool.buf
      ensures Parsed(err, AsObject(JsonText.ParseMember(latch.input, old(latch.Pos()), filter, nestingLimit, acc)),
                     variant, LEAF, after, cells, chars)
      ensures Paid(err, old(latch.Pos()), old(Free(pool)), 0)
      decreases |latch.input| - latch.Pos(), 3
    {
      hide MemoryPool.Valid, MemoryPool.Chars, StringCopier.Text, StringCopier.Building, Built, MemberKey;
      hide JsonText.ParseMember;
      hide JsonText.ParseVariant, JsonText.SkipVariant, SubFilter, Allow, Latch.Valid, Latch.Alive, Latch.Pos, Find;
      hide Put, WithChild, Owns, Tree;
      MemberUnfold(latch.input, latch.Pos(), filter, nestingLimit, acc);
      after := sh;
      var key;
      err, key := ParseMemberKey(variant, sh, Obj(acc), cells, chars);
      if err != None {
        return;
      }
      var memberFilter := SubFilter(filter, key);
      if Allow(memberFilter) {
        ghost var acc';
        var slot;
        slot, after, acc' := GetOrAddKey(variant, key, sh, acc, cells, chars);
        if slot == NULL {
          return Some(NoMemory), after;
        }
        ghost var r := JsonText.ParseVariant(latch.input, latch.Pos(), memberFilter, nestingLimit - 1, Lookup(acc,
                                             key), true);
        PutIsWithChild(acc, key, if r.Ok? then r.val else Null);
        err, after := ParseChild(variant, slot, memberFilter, nestingLimit - 1, after, Obj(acc'), Find(acc, key),
          cells, chars);
      } else {
        ghost var r := JsonText.SkipVariant(latch.input, latch.Pos(), nestingLimit - 1, true);
        err := SkipVariant(nestingLimit - 1);
        BuiltKept(err, r, variant, after, Obj(acc), cells, chars);
      }
    }

    /** parseObject, into an object that is still empty. */
    method ParseObject(variant: int, filter: Value, nestingLimit: nat, ghost cells: map<int, Slot>, ghost chars: Bytes)
      returns (err: Code, ghost after: Shape)
      requires Ready() && foundSomething && Built(pool, variant, LEAF, Obj([]), cells, chars)
      requires Peek(latch.input, latch.Pos()) == LEFT_BRACE
      modifies latch, storage, this`foundSomething
      modifies pool`left, pool`right, pool`overflowed, pool`cells, pool.buf
      ensures Parsed(err, JsonText.ParseObject(latch.input, old(latch.Pos()), filter, nestingLimit), variant, LEAF,
        after, cells, chars)
      ensures Paid(err, old(latch.Pos()), old(Free(pool)), 0)
      decreases |latch.input| - latch.Pos(), 1, 0
    {
      hide MemoryPool.Valid, MemoryPool.Chars, Holds, OwnsNew, Grew, Space;
      hide JsonText.ParseMembers, Latch.Valid, Latch.Alive, Latch.Pos;
      after := LEAF;
      if nestingLimit == 0 {
        return Some(TooDeep), after;
      }
      var empty;
      err, empty := OpenCollection(RIGHT_BRACE);
      if err == None && !empty {
        err, after := ParseMembers(variant, filter, nestingLimit, cells, chars);
      }
    }

    /** The loop of parseObject. */
    method ParseMembers(variant: int, filter: Value, nestingLimit: nat, ghost cells: map<int, Slot>, ghost chars: Bytes)
      returns (err: Code, ghost after: Shape)
      requires Ready() && foundSomething && nestingLimit > 0 && Built(pool, variant, LEAF, Obj([]), cells, chars)
      modifies latch, storage, this`foundSomething
      modifies pool`left, pool`right, pool`overflowed, pool`cells, pool.buf
      ensures Parsed(err, JsonText.ParseMembers(latch.input, old(latch.Pos()), filter, nestingLimit, []), variant,
        LEAF, after, cells, chars)
      ensures Paid(err, old(latch.Pos()), old(Free(pool)), 0)
      decreases |latch.input| - latch.Pos(), 4
    {
      hide MemoryPool.Valid, MemoryPool.Chars, Holds, OwnsNew, Grew, JsonText.ParseMember, Space;
      hide JsonText.ParseMembers, Latch.Valid, Latch.Alive, Latch.Pos;
      after := LEAF;
      ghost var start := latch.Pos();
      ghost var acc: seq<Member> := [];
      while true
        invariant Ready() && foundSomething && start <= latch.Pos()
          && Built(pool, variant, after, Obj(acc), cells, chars)
        invariant Paid(None, start, old(Free(pool)), 0)
        invariant JsonText.ParseMembers(latch.input, start, filter, nestingLimit, [])
               == JsonText.ParseMembers(latch.input, latch.Pos(), filter, nestingLimit, acc)
        decreases |latch.input| - latch.Pos()
      {
        ghost var r := JsonText.ParseMember(latch.input, latch.Pos(), filter, nestingLimit, acc);
        MembersUnfold(latch.input, latch.Pos(), filter, nestingLimit, acc);
        err, after := ParseMember(variant, filter, nestingLimit, after, acc, cells, chars);
        if err != None {
          return;
        }
        acc := r.val;
        var closed;
        err, closed := EndMember();
        if err != None || closed {
          return;
        }
      }
    }

    /** parse: the whole input, into the cleared document. */
    method Parse(filter: Value, nestingLimit: nat) returns (err: Code, ghost sh: Shape)
      requires Ready() && latch.Pos() == 0 && !foundSomething && Holds(pool, ROOT, LEAF, Null)
      modifies latch, storage, this`foundSomething
      modifies pool`left, pool`right, pool`overflowed, pool`cells, pool.buf
      ensures pool.Valid()
      ensures var r := JsonText.Parse(latch.input, filter, nestingLimit);
        match err
        case None => r.Ok? && !pool.overflowed && Holds(pool, ROOT, sh, r.val)
        case Some(e) => if e == NoMemory then pool.overflowed else r == Err(e)
      ensures err == Some(NoMemory) ==> old(Free(pool)) < SLOT_SIZE * |latch.input|
    {
      hide MemoryPool.Valid, MemoryPool.Chars, OwnsNew, Grew, Tree, Owns, JsonText.ParseVariant;
      ghost var r := JsonText.ParseVariant(latch.input, 0, filter, nestingLimit, Null, false);
      err, sh := ParseVariant(ROOT, filter, nestingLimit, LEAF, Null);
      if err != None {
        return;
      }
      EnclosedAlike(pool.Mem(), pool.cells[ROOT].content, sh, r.val);
      if latch.last != 0 && !IsEnclosedContent(pool.cells[ROOT].content) {
        return Some(InvalidInput), sh;
      }
    }
  }

  /** deserializeJson: the document is cleared first. A pool that can take a slot for each
      character of the input never overflows. */
  method DeserializeJson(pool: MemoryPool, input: Bytes, filter: Value, nestingLimit: nat) returns (err: Code,
                         ghost sh: Shape)
    requires pool.Valid()
    modifies pool, pool.buf
    ensures pool.Valid()
    ensures var r := JsonText.Parse(input, filter, nestingLimit);
      match err
      case None => r.Ok? && !pool.overflowed && Holds(pool, ROOT, sh, r.val)
      case Some(e) => if e == NoMemory then pool.overflowed else r == Err(e)
    ensures err == Some(NoMemory) ==> old(pool.end - pool.begin) < SLOT_SIZE * |input|
  {
    hide MemoryPool.SlotsLaid, JsonText.Parse;
    pool.Clear();
    assert forall a :: !Owns(LEAF, a);
    var deserializer := new JsonDeserializer(pool, input);
    err, sh := deserializer.Parse(filter, nestingLimit);
  }

  /** isEnclosed: anything but a number. */
  predicate IsEnclosedContent(c: Content) { !c.IntContent? && !c.FloatContent? }

  lemma EnclosedAlike(m: Memory, c: Content, sh: Shape, v: Value)
    requires Tree(m, c, sh, v)
    ensures IsEnclosedContent(c) == IsEnclosed(v)
  {
  }

  function MemberKey(s: Bytes, p: nat): (r: Result<Bytes>)
    requires p <= |s|
    ensures r.Ok? ==> p < r.pos <= |s|
  {
    match JsonText.ParseKey(s, p)
    case Err(e) => Err(e)
    case Ok(name, q) =>
      match Space(s, q, true)
      case Fail(e) => Err(e)
      case At(c) => if Peek(s, c) != COLON then Err(InvalidInput) else Ok(CStr(name), c + 1)
  }

  /** One character of a keyword, which holds no NUL. */
  lemma KeywordUnfold(s: Bytes, p: nat, word: Keyword, i: nat)
    requires p <= |s| && i < |word|
    ensures 0 !in word[i..] && 0 !in word[i + 1..]
    ensures JsonText.SkipKeyword(s, p, word[i..]) ==
      if Peek(s, p) == 0 then Fail(IncompleteInput)
      else if Peek(s, p) != word[i] then Fail(InvalidInput)
      else JsonText.SkipKeyword(s, p + 1, word[i + 1..])
  {
    assert word[i..][1..] == word[i + 1..];
  }

  lemma NoMoreKeyword(s: Bytes, p: nat)
    requires p <= |s|
    ensures JsonText.SkipKeyword(s, p, []) == At(p)
  {
  }

  lemma QuotedUnfold(s: Bytes, p: nat, stop: Byte, high: nat, acc: Bytes)
    requires p <= |s| && stop != 0 && high < 0x400
    ensures var c := Peek(s, p);
      ParseQuoted(s, p, stop, high, acc) ==
        if c == stop then Ok(acc, p + 1)
        else if c == 0 then Err(IncompleteInput)
        else
          var e := ReadCharacter(s, p + 1, c, high);
          if e.Err? then Err(e.error) else ParseQuoted(s, e.pos, stop, e.val.high, acc + e.val.more)
  {
    hide ReadEscape;
  }

  /** What the character `c`, read before position `p`, adds to a quoted string. */
  function ReadCharacter(s: Bytes, p: nat, c: Byte, high: nat): (r: Result<Escape>)
    requires p <= |s| && high < 0x400
    ensures r.Ok? ==> p <= r.pos <= |s| && r.val.high < 0x400
  {
    if c == BACKSLASH then ReadEscape(s, p, high) else Ok(Escape([c], high), p)
  }

  lemma MemberUnfold(s: Bytes, p: nat, f: Value, limit: nat, acc: seq<Member>)
    requires p <= |s| && limit > 0
    ensures var k := MemberKey(s, p);
      JsonText.ParseMember(s, p, f, limit, acc) ==
        if k.Err? then Err(k.error)
        else
          var m := SubFilter(f, k.val);
          if Allow(m) then
            (var r := JsonText.ParseVariant(s, k.pos, m, limit - 1, Lookup(acc, k.val), true);
             if r.Err? then Err(r.error) else Ok(Put(acc, k.val, r.val), r.pos))
          else
            var r := JsonText.SkipVariant(s, k.pos, limit - 1, true);
            if r.Fail? then Err(r.error) else Ok(acc, r.pos)
  {
    hide JsonText.ParseVariant, JsonText.SkipVariant, JsonText.ParseKey, Space, SubFilter, Allow, Put, Lookup;
  }

  lemma MembersUnfold(s: Bytes, p: nat, f: Value, limit: nat, acc: seq<Member>)
    requires p <= |s| && limit > 0
    ensures var r := JsonText.ParseMember(s, p, f, limit, acc);
      if r.Err? then JsonText.ParseMembers(s, p, f, limit, acc) == Err(r.error)
      else
        var end := Space(s, r.pos, true);
        JsonText.ParseMembers(s, p, f, limit, acc) ==
          if end.Fail? then Err(end.error)
          else if Peek(s, end.pos) == RIGHT_BRACE then Ok(Obj(r.val), end.pos + 1)
          else if Peek(s, end.pos) != COMMA then Err(InvalidInput)
          else
            var next := Space(s, end.pos + 1, true);
            if next.Fail? then Err(next.error) else JsonText.ParseMembers(s, next.pos, f, limit, r.val)
  {
    hide JsonText.ParseMember, Space;
  }

  /** One turn of the loop of ParseElems. */
  function OneElement(s: Bytes, p: nat, f: Value, limit: nat, acc: seq<Value>): (r: Result<seq<Value>>)
    requires p <= |s| && limit > 0
    ensures r.Ok? ==> p <= r.pos <= |s|
  {
    if Allow(f) then
      match JsonText.ParseVariant(s, p, f, limit - 1, Null, true)
      case Err(e) => Err(e)
      case Ok(v, q) => Ok(acc + [v], q)
    else
      match JsonText.SkipVariant(s, p, limit - 1, true)
      case Fail(e) => Err(e)
      case At(q) => Ok(acc, q)
  }

  lemma ElemsUnfold(s: Bytes, p: nat, f: Value, limit: nat, acc: seq<Value>)
    requires p <= |s| && limit > 0
    ensures var r := OneElement(s, p, f, limit, acc);
      ParseElems(s, p, f, limit, acc) == if r.Err? then Err(r.error) else MoreElems(s, r.pos, f, limit, r.val)
  {
    hide JsonText.ParseVariant, JsonText.SkipVariant, MoreElems;
  }

  /** ParseVariant at an opening bracket. */
  function NestedText(s: Bytes, p: nat, f: Value, limit: nat, prev: Value): (r: Result<Value>)
    requires p < |s|
    ensures r.Ok? && !IsEnclosed(r.val) ==> r.val == prev
  {
    if Peek(s, p) == LEFT_BRACKET then
      if AllowArray(f) then JsonText.ParseArray(s, p, f, limit) else Keeping(JsonText.SkipArray(s, p, limit), prev)
    else
      if AllowObject(f) then JsonText.ParseObject(s, p, f, limit) else Keeping(JsonText.SkipObject(s, p, limit), prev)
  }

  /** The result of parsing a child, as a result for the collection. */
  function InChild(v: Value, at: nat, r: Result<Value>): Result<Value>
    requires IsNested(v) && at < Arity(v)
  {
    match r
    case Err(e) => Err(e)
    case Ok(child, q) => Ok(WithChild(v, at, child), q)
  }

  function AsObject(r: Result<seq<Member>>): Result<Value> {
    match r
    case Err(e) => Err(e)
    case Ok(ms, q) => Ok(Obj(ms), q)
  }

  lemma Unchanged(pool: MemoryPool, sh: Shape, target: int)
    requires pool.Valid()
    ensures OwnsNew(sh, sh, pool.cells) && Grew(pool.Mem(), pool.cells, pool.Chars(), target)
  {
  }

  /** A member put under `key`, and the child of that name rewritten. */
  lemma PutIsWithChild(acc: seq<Member>, key: Bytes, v: Value)
    ensures var i := Find(acc, key);
      var acc' := if i < |acc| then acc else acc + [Member(key, Null)];
      && i < |acc'| && Child(Obj(acc'), i) == Lookup(acc, key)
      && WithChild(Obj(acc'), i, v) == Obj(Put(acc, key, v))
  {
  }
}
