/** Input that ends too early: every beginning of a text that is read, up to where reading stops,
    is incomplete, unless it ends inside a number. */
module JsonCut {
  import opened Values
  import opened Unicode
  import opened JsonText
  import opened JsonReading
  import JsonFilter
  import Numbers

  predicate EndsInNumber(s: Bytes, k: nat) {
    0 < k <= |s| && (48 <= s[k - 1] <= 57 || s[k - 1] == 43 || s[k - 1] == 45 || s[k - 1] == 46
                     || s[k - 1] == 69 || s[k - 1] == 101)
  }

  lemma {:induction false} CutPeek(s: Bytes, k: nat, i: nat)
    requires k <= |s|
    ensures Peek(s[..k], i) == if i < k then Peek(s, i) else 0
  {
  }

  // ---- Tokens ----

  lemma {:induction false} CutSkipSpaces(s: Bytes, p: nat, k: nat)
    requires p <= k <= |s|
    ensures SkipSpaces(s[..k], p) == if SkipSpaces(s, p) <= k then SkipSpaces(s, p) else k
    decreases k - p
  {
    if p < k && IsSpace(Peek(s, p)) {
      CutSkipSpaces(s, p + 1, k);
    }
  }

  lemma {:induction false} CutSpace(s: Bytes, p: nat, found: bool, k: nat)
    requires p <= k <= |s| && Space(s, p, found).At?
    ensures Space(s[..k], p, found) ==
      if Space(s, p, found).pos < k then Space(s, p, found) else Fail(if found then IncompleteInput else EmptyInput)
  {
    hide SkipSpaces;
    CutSkipSpaces(s, p, k);
  }

  lemma {:induction false} CutKeyword(s: Bytes, p: nat, word: Keyword, k: nat)
    requires p <= k <= |s| && SkipKeyword(s, p, word).At?
    ensures SkipKeyword(s[..k], p, word) ==
      if p + |word| <= k then SkipKeyword(s, p, word) else Fail(IncompleteInput)
    decreases |word|
  {
    if word != [] && p < k {
      assert SkipKeyword(s, p + 1, word[1..]).At?;
      CutKeyword(s, p + 1, word[1..], k);
    }
  }

  lemma {:induction false} CutHex(s: Bytes, p: nat, n: nat, unit: nat, k: nat)
    requires p <= k <= |s| && unit < 0x1_0000 && ParseHex(s, p, n, unit).Ok?
    ensures ParseHex(s[..k], p, n, unit) == if p + n <= k then ParseHex(s, p, n, unit) else Err(IncompleteInput)
    decreases n
  {
    if n > 0 && p < k {
      CutHex(s, p + 1, n - 1, (unit * 16 + DecodeHex(Peek(s, p))) % 0x1_0000, k);
    }
  }

  lemma {:induction false} CutEscape(s: Bytes, p: nat, high: nat, k: nat)
    requires p <= k <= |s| && high < 0x400 && ReadEscape(s, p, high).Ok?
    ensures ReadEscape(s[..k], p, high) ==
      if ReadEscape(s, p, high).pos <= k then ReadEscape(s, p, high) else Err(IncompleteInput)
  {
    hide ParseHex, UnitEscape;
    if p < k && Peek(s, p) == 117 {
      CutHex(s, p + 1, 4, 0, k);
    }
  }

  lemma {:induction false} CutQuoted(s: Bytes, p: nat, stop: Byte, high: nat, acc: Bytes, k: nat)
    requires p <= k <= |s| && stop != 0 && high < 0x400 && ParseQuoted(s, p, stop, high, acc).Ok?
    ensures ParseQuoted(s[..k], p, stop, high, acc) ==
      if ParseQuoted(s, p, stop, high, acc).pos <= k then ParseQuoted(s, p, stop, high, acc) else Err(IncompleteInput)
    decreases k - p
  {
    hide ReadEscape;
    if p < k && Peek(s, p) != stop {
      var c := Peek(s, p);
      if c == BACKSLASH {
        var e := ReadEscape(s, p + 1, high);
        CutEscape(s, p + 1, high, k);
        if e.pos <= k {
          CutQuoted(s, e.pos, stop, e.val.high, acc + e.val.more, k);
        } else {
          QuotedGoesOn(s, e.pos, stop, e.val.high, acc + e.val.more);
        }
      } else {
        CutQuoted(s, p + 1, stop, high, acc + [c], k);
      }
    }
  }

  lemma {:induction false} QuotedGoesOn(s: Bytes, p: nat, stop: Byte, high: nat, acc: Bytes)
    requires p <= |s| && stop != 0 && high < 0x400 && ParseQuoted(s, p, stop, high, acc).Ok?
    ensures p < ParseQuoted(s, p, stop, high, acc).pos
  {
  }

  lemma {:induction false} CutNumberEnd(s: Bytes, p: nat, room: nat, k: nat)
    requires p <= k <= |s|
    ensures NumberEnd(s[..k], p, room) == if NumberEnd(s, p, room) <= k then NumberEnd(s, p, room) else k
    ensures k < NumberEnd(s, p, room) && p < k ==> EndsInNumber(s, k)
    decreases room
  {
    if p < k && CanBeInNumber(Peek(s, p)) && room > 0 {
      CutNumberEnd(s, p + 1, room - 1, k);
    }
  }

  lemma {:induction false} CutNonQuoted(s: Bytes, p: nat, k: nat)
    requires p <= k <= |s|
    ensures NonQuotedEnd(s[..k], p) == if NonQuotedEnd(s, p) <= k then NonQuotedEnd(s, p) else k
    decreases k - p
  {
    if p < k && CanBeInNonQuotedString(Peek(s, p)) {
      CutNonQuoted(s, p + 1, k);
    }
  }

  /** What becomes of a reading that would have gone on past the cut. */
  predicate CutOff<T>(s: Bytes, r: Result<T>, k: nat) {
    r == Err(IncompleteInput) || (EndsInNumber(s, k) && r == Err(InvalidInput))
  }

  /** The same at a value: a number may also end at the cut. */
  predicate CutValue(s: Bytes, r: Result<Value>, k: nat) {
    CutOff(s, r, k) || (EndsInNumber(s, k) && r.Ok? && r.pos == k)
  }

  lemma {:induction false} CutNumeric(s: Bytes, p: nat, k: nat)
    requires p < k <= |s| && ParseNumeric(s, p).Ok?
    ensures if ParseNumeric(s, p).pos <= k then ParseNumeric(s[..k], p) == ParseNumeric(s, p)
            else CutValue(s, ParseNumeric(s[..k], p), k)
  {
    hide Numbers.ParseNumber, NumberEnd;
    CutNumberEnd(s, p, MAX_TOKEN, k);
    var q := NumberEnd(s, p, MAX_TOKEN);
    if q <= k {
      assert s[..k][p..q] == s[p..q];
    }
  }

  lemma {:induction false} CutToken(s: Bytes, p: nat, k: nat)
    requires p < k <= |s| && Peek(s, p) != 0 && ReadToken(s, p).Ok?
    ensures if ReadToken(s, p).pos <= k then ReadToken(s[..k], p) == ReadToken(s, p)
            else CutValue(s, ReadToken(s[..k], p), k)
  {
    hide ParseQuoted, SkipKeyword, ParseNumeric;
    var c := Peek(s, p);
    if IsQuote(c) {
      CutQuoted(s, p + 1, c, 0, [], k);
    } else if c == 116 {
      CutKeyword(s, p, TRUE_TEXT, k);
    } else if c == 102 {
      CutKeyword(s, p, FALSE_TEXT, k);
    } else if c == 110 {
      CutKeyword(s, p, NULL_TEXT, k);
    } else {
      CutNumeric(s, p, k);
    }
  }

  lemma {:induction false} CutKey(s: Bytes, p: nat, k: nat)
    requires p < k <= |s| && ParseKey(s, p).Ok?
    ensures var r := ParseKey(s[..k], p);
      if ParseKey(s, p).pos <= k then r == ParseKey(s, p) else r == Err(IncompleteInput) || (r.Ok? && r.pos == k)
  {
    hide ParseQuoted;
    if IsQuote(Peek(s, p)) {
      CutQuoted(s, p + 1, Peek(s, p), 0, [], k);
    } else {
      CutNonQuoted(s, p, k);
      var q := NonQuotedEnd(s, p);
      if q <= k {
        assert s[..k][p..q] == s[p..q];
      }
    }
  }

  lemma {:induction false} NothingAtEnd(s: Bytes, found: bool, k: nat)
    requires k <= |s|
    ensures Space(s[..k], k, found) == Fail(if found then IncompleteInput else EmptyInput)
  {
  }

  // ---- Values ----

  lemma {:induction false} CutVariant(s: Bytes, p: nat, limit: nat, found: bool, k: nat)
    requires p <= k <= |s| && ReadVariant(s, p, limit, found).Ok?
    ensures var r, r' := ReadVariant(s, p, limit, found), ReadVariant(s[..k], p, limit, found);
      if r.pos <= k then r' == r
      else if Space(s, p, found).pos >= k then r' == Err(if found then IncompleteInput else EmptyInput)
      else CutValue(s, r', k)
    decreases |s| - p, 2
  {
    hide ReadArray, ReadObject, ReadToken, Space;
    CutSpace(s, p, found, k);
    var q := Space(s, p, found).pos;
    if q < k {
      CutPeek(s, k, q);
      if Peek(s, q) == LEFT_BRACKET {
        CutArray(s, q, limit, k);
      } else if Peek(s, q) == LEFT_BRACE {
        CutObject(s, q, limit, k);
      } else {
        CutToken(s, q, k);
      }
    } else {
      TokenTakes(s, q);
    }
  }

  lemma {:induction false} TokenTakes(s: Bytes, p: nat)
    requires p < |s| && Peek(s, p) != 0
    ensures ReadToken(s, p).Ok? ==> p < ReadToken(s, p).pos
  {
    hide ParseQuoted;
    if NumberEnd(s, p, MAX_TOKEN) == p {
      assert s[p..p] == [] && Numbers.ParseNumber([]) == None;
    }
  }

  lemma {:induction false} CutArray(s: Bytes, p: nat, limit: nat, k: nat)
    requires p < k <= |s| && ReadArray(s, p, limit).Ok?
    ensures var r := ReadArray(s[..k], p, limit);
      if ReadArray(s, p, limit).pos <= k then r == ReadArray(s, p, limit) else CutOff(s, r, k)
    decreases |s| - p, 1
  {
    hide ReadElems, Space;
    CutSpace(s, p + 1, true, k);
    var q := Space(s, p + 1, true).pos;
    if q < k {
      CutPeek(s, k, q);
      if Peek(s, q) != RIGHT_BRACKET {
        CutElemsFrom(s, q, limit, k);
      }
    } else if Peek(s, q) != RIGHT_BRACKET {
      ElemsGoOn(s, q, limit);
    }
  }

  lemma {:induction false} ElemsGoOn(s: Bytes, p: nat, limit: nat)
    requires p <= |s| && limit > 0 && ReadElems(s, p, limit).Ok?
    ensures p < ReadElems(s, p, limit).pos
  {
  }

  lemma {:induction false} CutElemsFrom(s: Bytes, p: nat, limit: nat, k: nat)
    requires p <= k <= |s| && limit > 0 && ReadElems(s, p, limit).Ok?
    ensures var r := ReadElems(s[..k], p, limit);
      if ReadElems(s, p, limit).pos <= k then r == ReadElems(s, p, limit) else CutOff(s, r, k)
    decreases |s| - p, 3
  {
    hide ReadVariant, Space;
    var v := ReadVariant(s, p, limit - 1, true);
    CutVariant(s, p, limit - 1, true, k);
    NothingAtEnd(s, true, k);
    if v.pos <= k {
      CutSpace(s, v.pos, true, k);
      var r := Space(s, v.pos, true).pos;
      if r < k {
        CutPeek(s, k, r);
        if Peek(s, r) == COMMA {
          CutElemsFrom(s, r + 1, limit, k);
        }
      } else if Peek(s, r) == COMMA {
        ElemsGoOn(s, r + 1, limit);
      }
    } else {
      ElemsPast(s, p, limit);
    }
  }

  lemma {:induction false} ElemsPast(s: Bytes, p: nat, limit: nat)
    requires p <= |s| && limit > 0 && ReadElems(s, p, limit).Ok?
    ensures ReadVariant(s, p, limit - 1, true).Ok?
    ensures ReadVariant(s, p, limit - 1, true).pos < ReadElems(s, p, limit).pos
  {
    hide ReadVariant;
    var r := Space(s, ReadVariant(s, p, limit - 1, true).pos, true).pos;
    if Peek(s, r) == COMMA {
      ElemsGoOn(s, r + 1, limit);
    }
  }

  lemma {:induction false} CutObject(s: Bytes, p: nat, limit: nat, k: nat)
    requires p < k <= |s| && ReadObject(s, p, limit).Ok?
    ensures var r := ReadObject(s[..k], p, limit);
      if ReadObject(s, p, limit).pos <= k then r == ReadObject(s, p, limit) else CutOff(s, r, k)
    decreases |s| - p, 1
  {
    hide ReadMembers, Space;
    CutSpace(s, p + 1, true, k);
    var q := Space(s, p + 1, true).pos;
    if q < k {
      CutPeek(s, k, q);
      if Peek(s, q) != RIGHT_BRACE {
        CutMembersFrom(s, q, limit, k);
      }
    } else if Peek(s, q) != RIGHT_BRACE {
      MembersGoOn(s, q, limit);
    }
  }

  lemma {:induction false} MembersGoOn(s: Bytes, p: nat, limit: nat)
    requires p <= |s| && limit > 0 && ReadMembers(s, p, limit).Ok?
    ensures p < ReadMembers(s, p, limit).pos
  {
  }

  lemma {:induction false} CutMember(s: Bytes, p: nat, limit: nat, k: nat)
    requires p < k <= |s| && limit > 0 && ReadMember(s, p, limit).Ok?
    ensures var r := ReadMember(s[..k], p, limit);
      if ReadMember(s, p, limit).pos <= k then r == ReadMember(s, p, limit)
      else CutOff(s, r, k) || (EndsInNumber(s, k) && r.Ok? && r.pos == k)
    decreases |s| - p, 2
  {
    hide ReadVariant, Space, ParseKey, CStr;
    CutKey(s, p, k);
    NothingAtEnd(s, true, k);
    var q := ParseKey(s, p).pos;
    if q <= k {
      CutSpace(s, q, true, k);
      var c := Space(s, q, true).pos;
      if c < k {
        CutPeek(s, k, c);
        CutVariant(s, c + 1, limit - 1, true, k);
      }
    }
  }

  lemma {:induction false} CutMembersFrom(s: Bytes, p: nat, limit: nat, k: nat)
    requires p < k <= |s| && limit > 0 && ReadMembers(s, p, limit).Ok?
    ensures var r := ReadMembers(s[..k], p, limit);
      if ReadMembers(s, p, limit).pos <= k then r == ReadMembers(s, p, limit) else CutOff(s, r, k)
    decreases |s| - p, 3
  {
    hide ReadMember, Space;
    var m := ReadMember(s, p, limit);
    CutMember(s, p, limit, k);
    NothingAtEnd(s, true, k);
    if m.pos <= k {
      CutSpace(s, m.pos, true, k);
      var r := Space(s, m.pos, true).pos;
      if r < k {
        CutPeek(s, k, r);
        if Peek(s, r) == COMMA {
          CutSpace(s, r + 1, true, k);
          var n := Space(s, r + 1, true).pos;
          if n < k {
            CutMembersFrom(s, n, limit, k);
          } else {
            MembersGoOn(s, n, limit);
          }
        }
      } else if Peek(s, r) == COMMA {
        MembersGoOn(s, Space(s, r + 1, true).pos, limit);
      }
    } else {
      MembersPast(s, p, limit);
    }
  }

  lemma {:induction false} MembersPast(s: Bytes, p: nat, limit: nat)
    requires p <= |s| && limit > 0 && ReadMembers(s, p, limit).Ok?
    ensures ReadMember(s, p, limit).Ok? && ReadMember(s, p, limit).pos < ReadMembers(s, p, limit).pos
  {
    hide ReadMember;
    var r := Space(s, ReadMember(s, p, limit).pos, true).pos;
    if Peek(s, r) == COMMA {
      MembersGoOn(s, Space(s, r + 1, true).pos, limit);
    }
  }

  /** A text that the parser accepts, cut before the place where it stops: empty input when only
      white space is left, else incomplete input, unless the last byte left may belong to a
      number. */
  lemma {:induction false} CutTextIsIncomplete(s: Bytes, limit: nat, k: nat)
    requires Parse(s, Bool(true), limit).Ok? && k < Parse(s, Bool(true), limit).pos && k <= |s|
    requires !EndsInNumber(s, k)
    ensures Parse(s[..k], Bool(true), limit) == Err(if OnlyBlank(s[..k]) then EmptyInput else IncompleteInput)
  {
    hide Parse, ReadVariant;
    JsonFilter.UnfilteredIsReading(s, limit);
    JsonFilter.UnfilteredIsReading(s[..k], limit);
    CutVariant(s, 0, limit, false, k);
    VariantStarts(s, limit);
    BlankUntil(s, 0, k);
  }

  predicate OnlyBlank(t: Bytes) { forall i :: 0 <= i < |t| ==> t[i] == 32 || t[i] == 9 || t[i] == 10 || t[i] == 13 }

  lemma {:induction false} VariantStarts(s: Bytes, limit: nat)
    requires ReadVariant(s, 0, limit, false).Ok?
    ensures Space(s, 0, false) == At(SkipSpaces(s, 0))
  {
    hide ReadArray, ReadObject, ReadToken;
  }

  lemma {:induction false} OnlyBlankRest(t: Bytes)
    requires t != [] && IsSpace(t[0])
    ensures OnlyBlank(t) <==> OnlyBlank(t[1..])
  {
    assert t == [t[0]] + t[1..];
  }

  lemma {:induction false} BlankUntil(s: Bytes, p: nat, k: nat)
    requires p <= k <= |s|
    ensures SkipSpaces(s, p) >= k <==> OnlyBlank(s[p..k])
    decreases k - p
  {
    if p < k {
      assert s[p..k] == [s[p]] + s[p + 1..k];
      if IsSpace(s[p]) {
        BlankUntil(s, p + 1, k);
        assert s[p..k][1..] == s[p + 1..k];
        OnlyBlankRest(s[p..k]);
      } else {
        assert s[p..k][0] == s[p];
      }
    }
  }
}
