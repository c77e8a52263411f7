/** The nesting limit is exact. */
module JsonDepth {
  import opened Values
  import opened JsonText
  import opened JsonReading
  import JsonFilter

  /** How one accepted reading of nesting `depth` behaves under another limit. */
  ghost predicate ExactAt<T>(r: Result<T>, other: Result<T>, depth: nat, limit: nat) {
    other == if depth <= limit then r else Err(TooDeep)
  }

  lemma {:induction false} VariantDepth(s: Bytes, p: nat, limit: nat, other: nat, found: bool)
    requires p <= |s| && ReadVariant(s, p, limit, found).Ok?
    ensures var r := ReadVariant(s, p, limit, found);
      Nesting(r.val) <= limit && ExactAt(r, ReadVariant(s, p, other, found), Nesting(r.val), other)
    decreases |s| - p, 2
  {
    hide ReadArray, ReadObject, ReadToken, Space, NestingOfElems, NestingOfMembers;
    var q := Space(s, p, found).pos;
    var c := Peek(s, q);
    if c == LEFT_BRACKET {
      ArrayDepth(s, q, limit, other);
    } else if c == LEFT_BRACE {
      ObjectDepth(s, q, limit, other);
    }
  }

  lemma {:induction false} ArrayDepth(s: Bytes, p: nat, limit: nat, other: nat)
    requires p < |s| && ReadArray(s, p, limit).Ok?
    ensures var r := ReadArray(s, p, limit);
      NestingOfElems(r.val) < limit && ExactAt(r, ReadArray(s, p, other), NestingOfElems(r.val) + 1, other)
    decreases |s| - p, 1
  {
    hide ReadElems, Space;
    var q := Space(s, p + 1, true).pos;
    if Peek(s, q) != RIGHT_BRACKET && other > 0 {
      ElemsDepth(s, q, limit, other);
    } else if Peek(s, q) != RIGHT_BRACKET {
      ElemsDepth(s, q, limit, limit);
    }
  }

  lemma {:induction false} ElemsDepth(s: Bytes, p: nat, limit: nat, other: nat)
    requires p <= |s| && limit > 0 && other > 0 && ReadElems(s, p, limit).Ok?
    ensures var r := ReadElems(s, p, limit);
      NestingOfElems(r.val) < limit && ExactAt(r, ReadElems(s, p, other), NestingOfElems(r.val) + 1, other)
    decreases |s| - p, 3
  {
    hide ReadVariant, Space, Nesting;
    var v := ReadVariant(s, p, limit - 1, true);
    VariantDepth(s, p, limit - 1, other - 1, true);
    var r := Space(s, v.pos, true).pos;
    if Peek(s, r) == COMMA {
      ElemsDepth(s, r + 1, limit, other);
      var rest := ReadElems(s, r + 1, limit).val;
      assert ([v.val] + rest)[1..] == rest;
    }
  }

  lemma {:induction false} ObjectDepth(s: Bytes, p: nat, limit: nat, other: nat)
    requires p < |s| && ReadObject(s, p, limit).Ok?
    ensures var r := ReadObject(s, p, limit);
      NestingOfMembers(r.val) < limit && ExactAt(r, ReadObject(s, p, other), NestingOfMembers(r.val) + 1, other)
    decreases |s| - p, 1
  {
    hide ReadMembers, Space;
    var q := Space(s, p + 1, true).pos;
    if Peek(s, q) != RIGHT_BRACE && other > 0 {
      MembersDepth(s, q, limit, other);
    } else if Peek(s, q) != RIGHT_BRACE {
      MembersDepth(s, q, limit, limit);
    }
  }

  lemma {:induction false} MembersDepth(s: Bytes, p: nat, limit: nat, other: nat)
    requires p <= |s| && limit > 0 && other > 0 && ReadMembers(s, p, limit).Ok?
    ensures var r := ReadMembers(s, p, limit);
      NestingOfMembers(r.val) < limit && ExactAt(r, ReadMembers(s, p, other), NestingOfMembers(r.val) + 1, other)
    decreases |s| - p, 3
  {
    hide ReadMember, Space, Nesting;
    var m := ReadMember(s, p, limit);
    MemberDepth(s, p, limit, other);
    var r := Space(s, m.pos, true).pos;
    if Peek(s, r) == COMMA {
      var n := Space(s, r + 1, true).pos;
      MembersDepth(s, n, limit, other);
      var rest := ReadMembers(s, n, limit).val;
      assert ([m.val] + rest)[1..] == rest;
    }
  }

  lemma {:induction false} MemberDepth(s: Bytes, p: nat, limit: nat, other: nat)
    requires p <= |s| && limit > 0 && other > 0 && ReadMember(s, p, limit).Ok?
    ensures var r := ReadMember(s, p, limit);
      Nesting(r.val.val) < limit && ExactAt(r, ReadMember(s, p, other), Nesting(r.val.val) + 1, other)
    decreases |s| - p, 2
  {
    hide ReadVariant, Space, Nesting, ParseKey;
    var c := Space(s, ParseKey(s, p).pos, true).pos;
    VariantDepth(s, c + 1, limit - 1, other - 1, true);
  }

  /** A text that some limit accepts is accepted, with the same result, by every limit
      at least its nesting, and rejected as too deep by every smaller one. */
  lemma DepthLimitIsExact(s: Bytes, limit: nat, other: nat)
    requires Parse(s, JsonFilter.ALL, limit).Ok?
    ensures JsonFilter.Reading(s, limit).Ok?
    ensures Nesting(JsonFilter.Reading(s, limit).val) <= limit
    ensures Parse(s, JsonFilter.ALL, other) ==
      if Nesting(JsonFilter.Reading(s, limit).val) <= other then Parse(s, JsonFilter.ALL, limit)
      else Err(TooDeep)
  {
    hide Parse, ReadVariant, Nesting, JsonFilter.Apply;
    JsonFilter.UnfilteredIsReading(s, limit);
    JsonFilter.UnfilteredIsReading(s, other);
    JsonFilter.ParseAppliesFilter(s, JsonFilter.ALL, limit);
    VariantDepth(s, 0, limit, other, false);
    if Parse(s, JsonFilter.ALL, other).Ok? {
      JsonFilter.ParseAppliesFilter(s, JsonFilter.ALL, other);
    }
  }

  // ---- Whatever the filter, the result is not deeper than the limit ----

  lemma {:induction false} PutDepth(ms: seq<Member>, key: Bytes, v: Value, d: nat)
    requires NestingOfMembers(ms) <= d && Nesting(v) <= d
    ensures NestingOfMembers(Put(ms, key, v)) <= d
    ensures Nesting(Lookup(ms, key)) <= d
  {
    hide Nesting;
    if ms == [] {
      assert Put(ms, key, v) == [Member(key, v)];
      assert [Member(key, v)][1..] == [];
      assert Nesting(Null) == 0 by { NullDepth(); }
    } else if ms[0].key == key {
      assert Put(ms, key, v)[1..] == ms[1..];
    } else {
      PutDepth(ms[1..], key, v, d);
      assert Put(ms, key, v)[1..] == Put(ms[1..], key, v);
    }
  }

  lemma NullDepth()
    ensures Nesting(Null) == 0
  {
  }

  lemma {:induction false} AppendDepth(es: seq<Value>, v: Value)
    ensures NestingOfElems(es + [v]) == Max(NestingOfElems(es), Nesting(v))
  {
    if es == [] {
      assert ([] + [v])[1..] == [];
    } else {
      AppendDepth(es[1..], v);
      assert (es + [v])[1..] == es[1..] + [v];
    }
  }

  /** The value parsed under any filter nests no deeper than the limit. */
  lemma {:induction false} ParsedVariantDepth(s: Bytes, p: nat, f: Value, limit: nat, prev: Value, found: bool)
    requires p <= |s|
    ensures var r := ParseVariant(s, p, f, limit, prev, found); r.Ok? ==> Nesting(r.val) <= Max(limit, Nesting(prev))
    decreases |s| - p, 2
  {
    hide ParseArray, ParseObject, SkipArray, SkipObject, Space;
    if Space(s, p, found).At? {
      var q := Space(s, p, found).pos;
      if Peek(s, q) == LEFT_BRACKET && AllowArray(f) {
        ParsedArrayDepth(s, q, f, limit);
      } else if Peek(s, q) == LEFT_BRACE && AllowObject(f) {
        ParsedObjectDepth(s, q, f, limit);
      } else {
        ParsedTokenDepth(s, q, f, prev);
      }
    }
  }

  lemma ParsedTokenDepth(s: Bytes, p: nat, f: Value, prev: Value)
    requires p < |s| && Peek(s, p) != 0
    ensures var r := ParseToken(s, p, f, prev); r.Ok? ==> Nesting(r.val) <= Nesting(prev)
  {
    hide ParseQuoted, SkipQuoted, SkipKeyword, SkipNumeric;
  }

  lemma {:induction false} ParsedArrayDepth(s: Bytes, p: nat, f: Value, limit: nat)
    requires p < |s|
    ensures var r := ParseArray(s, p, f, limit); r.Ok? ==> Nesting(r.val) <= limit
    decreases |s| - p, 1
  {
    hide ParseElems, Space, ElementFilter;
    if limit > 0 && Space(s, p + 1, true).At? {
      ParsedElemsDepth(s, Space(s, p + 1, true).pos, ElementFilter(f), limit, []);
    }
  }

  lemma {:induction false} ParsedElemsDepth(s: Bytes, p: nat, f: Value, limit: nat, acc: seq<Value>)
    requires p <= |s| && limit > 0 && NestingOfElems(acc) < limit
    ensures var r := ParseElems(s, p, f, limit, acc); r.Ok? ==> Nesting(r.val) <= limit
    decreases |s| - p, 3
  {
    hide ParseVariant, SkipVariant, Space, MoreElems, NestingOfElems;
    ParsedVariantDepth(s, p, f, limit - 1, Null, true);
    var v := if Allow(f) then ParseVariant(s, p, f, limit - 1, Null, true)
             else Keeping(SkipVariant(s, p, limit - 1, true), Null);
    if v.Ok? {
      AppendDepth(acc, v.val);
      var acc' := if Allow(f) then acc + [v.val] else acc;
      JsonFilter.MoreElemsUnfold(s, v.pos, f, limit, acc');
      var r := Space(s, v.pos, true);
      if r.At? && Peek(s, r.pos) == COMMA {
        ParsedElemsDepth(s, r.pos + 1, f, limit, acc');
      }
    }
  }

  lemma {:induction false} ParsedObjectDepth(s: Bytes, p: nat, f: Value, limit: nat)
    requires p < |s|
    ensures var r := ParseObject(s, p, f, limit); r.Ok? ==> Nesting(r.val) <= limit
    decreases |s| - p, 1
  {
    hide ParseMembers, Space;
    if limit > 0 && Space(s, p + 1, true).At? {
      ParsedMembersDepth(s, Space(s, p + 1, true).pos, f, limit, []);
    }
  }

  lemma {:induction false} ParsedMembersDepth(s: Bytes, p: nat, f: Value, limit: nat, acc: seq<Member>)
    requires p <= |s| && limit > 0 && NestingOfMembers(acc) < limit
    ensures var r := ParseMembers(s, p, f, limit, acc); r.Ok? ==> Nesting(r.val) <= limit
    decreases |s| - p, 3
  {
    hide ParseMember, MoreMembers, NestingOfMembers;
    ParsedMemberDepth(s, p, f, limit, acc);
    var m := ParseMember(s, p, f, limit, acc);
    if m.Ok? {
      ParsedMoreDepth(s, m.pos, f, limit, m.val);
    }
  }

  lemma {:induction false} ParsedMemberDepth(s: Bytes, p: nat, f: Value, limit: nat, acc: seq<Member>)
    requires p <= |s| && limit > 0 && NestingOfMembers(acc) < limit
    ensures var r := ParseMember(s, p, f, limit, acc); r.Ok? ==> NestingOfMembers(r.val) < limit
    decreases |s| - p, 2
  {
    hide ParseVariant, SkipVariant, Space, ParseKey, Put, Lookup, SubFilter, NestingOfMembers;
    var name := ParseKey(s, p);
    if name.Ok? && Space(s, name.pos, true).At? {
      var c := Space(s, name.pos, true).pos;
      if Peek(s, c) == COLON {
        var key := CStr(name.val);
        var sub := SubFilter(f, key);
        PutDepth(acc, key, Null, limit - 1);
        ParsedVariantDepth(s, c + 1, sub, limit - 1, Lookup(acc, key), true);
        var v := ParseVariant(s, c + 1, sub, limit - 1, Lookup(acc, key), true);
        if v.Ok? {
          PutDepth(acc, key, v.val, limit - 1);
        }
      }
    }
  }

  lemma {:induction false} ParsedMoreDepth(s: Bytes, p: nat, f: Value, limit: nat, acc: seq<Member>)
    requires p <= |s| && limit > 0 && NestingOfMembers(acc) < limit
    ensures var r := MoreMembers(s, p, f, limit, acc); r.Ok? ==> Nesting(r.val) <= limit
    decreases |s| - p, 4
  {
    hide ParseMembers, Space;
    var r := Space(s, p, true);
    if r.At? && Peek(s, r.pos) == COMMA && Space(s, r.pos + 1, true).At? {
      ParsedMembersDepth(s, Space(s, r.pos + 1, true).pos, f, limit, acc);
    }
  }

  lemma ResultFitsLimit(s: Bytes, f: Value, limit: nat)
    requires Parse(s, f, limit).Ok?
    ensures Nesting(Parse(s, f, limit).val) <= limit
  {
    ParsedVariantDepth(s, 0, f, limit, Null, false);
  }
}
