/** Whatever the filter, skipping stops where parsing stops. */
module JsonSkipping {
  import opened Values
  import opened JsonText
  import opened JsonReading
  import Numbers

  lemma {:induction false} VariantSkips(s: Bytes, p: nat, f: Value, limit: nat, prev: Value, found: bool)
    requires p <= |s|
    requires var r := ParseVariant(s, p, f, limit, prev, found); r.Ok? && !CanBeInNumber(Peek(s, r.pos))
    ensures SkipVariant(s, p, limit, found) == At(ParseVariant(s, p, f, limit, prev, found).pos)
    decreases |s| - p, 2
  {
    hide Space, ParseArray, ParseObject, SkipArray, SkipObject, SkipToken, ParseToken;
    var q := Space(s, p, found).pos;
    var c := Peek(s, q);
    if c == LEFT_BRACKET {
      if AllowArray(f) {
        ArraySkips(s, q, f, limit);
      }
    } else if c == LEFT_BRACE {
      if AllowObject(f) {
        ObjectSkips(s, q, f, limit);
      }
    } else {
      TokenSkips(s, q, f, prev);
    }
  }

  lemma TokenSkips(s: Bytes, p: nat, f: Value, prev: Value)
    requires p < |s| && Peek(s, p) != 0
    requires ParseToken(s, p, f, prev).Ok? && !CanBeInNumber(Peek(s, ParseToken(s, p, f, prev).pos))
    ensures SkipToken(s, p) == At(ParseToken(s, p, f, prev).pos)
  {
    hide SkipQuoted, ParseQuoted, SkipKeyword, SkipNumeric, NumberEnd, Numbers.ParseNumber, AllowValue;
    var c := Peek(s, p);
    if IsQuote(c) {
      if AllowValue(f) {
        SkipQuotedAgrees(s, p + 1, c, 0, []);
      }
    } else if c != 116 && c != 102 && c != 110 && AllowValue(f) {
      SkipNumericAgrees(s, p, MAX_TOKEN);
    }
  }

  /** Whenever parseArray succeeds, under any filter, skipArray from the same position
      succeeds and stops at the same character, although it does not look for an empty array. */
  lemma {:induction false} ArraySkips(s: Bytes, p: nat, f: Value, limit: nat)
    requires p < |s| && ParseArray(s, p, f, limit).Ok?
    ensures SkipArray(s, p, limit) == At(ParseArray(s, p, f, limit).pos)
    decreases |s| - p, 1
  {
    hide Space, SkipVariant, ParseElems;
    var q := Space(s, p + 1, true).pos;
    if Peek(s, q) == RIGHT_BRACKET {
      SkipOnBracket(s, p + 1, q, limit - 1);
    } else {
      ElemsSkip(s, q, ElementFilter(f), limit, []);
      SkipElemsFromSpace(s, p + 1, q, limit);
    }
  }

  lemma {:induction false} ElemsSkip(s: Bytes, p: nat, f: Value, limit: nat, acc: seq<Value>)
    requires p <= |s| && limit > 0 && ParseElems(s, p, f, limit, acc).Ok?
    ensures SkipElems(s, p, limit) == At(ParseElems(s, p, f, limit, acc).pos)
    decreases |s| - p, 3
  {
    hide ParseVariant, SkipVariant, Space;
    var e := if Allow(f) then ParseVariant(s, p, f, limit - 1, Null, true)
             else Keeping(SkipVariant(s, p, limit - 1, true), Null);
    var q := e.pos;
    if Allow(f) {
      Delimited(s, q);
      VariantSkips(s, p, f, limit - 1, Null, true);
    }
    var r := Space(s, q, true).pos;
    if Peek(s, r) == COMMA {
      ElemsSkip(s, r + 1, f, limit, if Allow(f) then acc + [e.val] else acc);
    }
  }

  /** The same for objects. */
  lemma {:induction false} ObjectSkips(s: Bytes, p: nat, f: Value, limit: nat)
    requires p < |s| && ParseObject(s, p, f, limit).Ok?
    ensures SkipObject(s, p, limit) == At(ParseObject(s, p, f, limit).pos)
    decreases |s| - p, 1
  {
    hide Space, ParseMembers, SkipMembers;
    var q := Space(s, p + 1, true).pos;
    if Peek(s, q) != RIGHT_BRACE {
      MembersSkip(s, q, f, limit, []);
    }
  }

  lemma {:induction false} MembersSkip(s: Bytes, p: nat, f: Value, limit: nat, acc: seq<Member>)
    requires p <= |s| && limit > 0 && ParseMembers(s, p, f, limit, acc).Ok?
    ensures SkipMembers(s, p, limit) == At(ParseMembers(s, p, f, limit, acc).pos)
    decreases |s| - p, 4
  {
    hide ParseMember, SkipMember, Space;
    var m := ParseMember(s, p, f, limit, acc);
    Delimited(s, m.pos);
    MemberSkips(s, p, f, limit, acc);
    var r := Space(s, m.pos, true).pos;
    if Peek(s, r) == COMMA {
      MembersSkip(s, Space(s, r + 1, true).pos, f, limit, m.val);
    }
  }

  lemma {:induction false} MemberSkips(s: Bytes, p: nat, f: Value, limit: nat, acc: seq<Member>)
    requires p <= |s| && limit > 0 && ParseMember(s, p, f, limit, acc).Ok?
    requires !CanBeInNumber(Peek(s, ParseMember(s, p, f, limit, acc).pos))
    ensures SkipMember(s, p, limit) == At(ParseMember(s, p, f, limit, acc).pos)
    decreases |s| - p, 3
  {
    hide ParseKey, SkipKey, ParseVariant, SkipVariant, Space, SubFilter, Allow, Put, Lookup;
    SkipKeyAgrees(s, p);
    var name := ParseKey(s, p);
    var c := Space(s, name.pos, true).pos;
    var key := CStr(name.val);
    if Allow(SubFilter(f, key)) {
      VariantSkips(s, c + 1, SubFilter(f, key), limit - 1, Lookup(acc, key), true);
    }
  }
}
