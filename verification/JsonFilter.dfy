/** Filtered parsing is reading followed by a projection of the value. */
module JsonFilter {
  import opened Values
  import opened JsonText
  import opened JsonReading

  // ---- What a filter does to a reading ----

  /** The value a variant holding `prev` ends up with when `v` is parsed into it. */
  function Apply(f: Value, v: Value, prev: Value): Value {
    match v
    case Null => prev
    case Arr(es) =>
      if !AllowArray(f) then prev
      else Arr(if Allow(ElementFilter(f)) then ApplyElems(ElementFilter(f), es) else [])
    case Obj(ms) => if AllowObject(f) then Obj(ApplyMembers(f, ms, [])) else prev
    case _ => if AllowValue(f) then v else prev
  }

  function ApplyElems(f: Value, es: seq<Value>): seq<Value> {
    if es == [] then [] else [Apply(f, es[0], Null)] + ApplyElems(f, es[1..])
  }

  /** Members in text order: one whose key is there already replaces its value in place. */
  function ApplyMembers(f: Value, ms: seq<Member>, acc: seq<Member>): seq<Member> {
    if ms == [] then acc else ApplyMembers(f, ms[1..], ApplyMember(f, ms[0], acc))
  }

  function ApplyMember(f: Value, m: Member, acc: seq<Member>): seq<Member> {
    var sub := SubFilter(f, m.key);
    if Allow(sub) then Put(acc, m.key, Apply(sub, m.val, Lookup(acc, m.key))) else acc
  }

  // ---- The parser is the reading, filtered ----

  /** What `r` becomes under a filter, for a variant holding `prev`. */
  ghost predicate Filtered(s: Bytes, parsed: Result<Value>, r: Result<Value>, f: Value, prev: Value) {
    && (r.Ok? && (IsTrue(f) || Stops(s, r)) ==> parsed == Ok(Apply(f, r.val, prev), r.pos))
    && (r.Err? && IsTrue(f) ==> parsed == Err(r.error))
  }

  /** For every text, filter and starting value: what the reading accepts, the filtered
      parser accepts, at the same position, with the filter applied; and a filter that
      allows everything rejects what the reading rejects, with the same error. */
  lemma {:induction false} VariantIsFiltered(s: Bytes, p: nat, f: Value, limit: nat, prev: Value, found: bool)
    requires p <= |s|
    ensures Filtered(s, ParseVariant(s, p, f, limit, prev, found), ReadVariant(s, p, limit, found), f, prev)
    decreases |s| - p, 2
  {
    hide ReadVariant, ParseVariant, Filtered, Space, ReadToken, ParseToken;
    VariantUnfold(s, p, f, limit, prev, found);
    if Space(s, p, found).At? {
      var q := Space(s, p, found).pos;
      var c := Peek(s, q);
      if c == LEFT_BRACKET {
        ArrayIsFiltered(s, q, f, limit);
        NestedIsFiltered(s, p, f, limit, prev, found);
      } else if c == LEFT_BRACE {
        ObjectIsFiltered(s, q, f, limit);
        NestedIsFiltered(s, p, f, limit, prev, found);
      } else {
        TokenIsFiltered(s, q, f, prev);
      }
    } else {
      FailureIsFiltered(s, Space(s, p, found).error, f, prev);
    }
  }

  lemma FailureIsFiltered(s: Bytes, e: Error, f: Value, prev: Value)
    ensures Filtered(s, Err(e), Err(e), f, prev)
  {
  }

  /** The two readers at a token and at a failure. */
  lemma VariantUnfold(s: Bytes, p: nat, f: Value, limit: nat, prev: Value, found: bool)
    requires p <= |s|
    ensures var start := Space(s, p, found);
      if start.Fail? then
        ParseVariant(s, p, f, limit, prev, found) == Err(start.error)
          && ReadVariant(s, p, limit, found) == Err(start.error)
      else
        Peek(s, start.pos) != LEFT_BRACKET && Peek(s, start.pos) != LEFT_BRACE ==>
          ParseVariant(s, p, f, limit, prev, found) == ParseToken(s, start.pos, f, prev)
          && ReadVariant(s, p, limit, found) == ReadToken(s, start.pos)
  {
    hide Space, ReadToken, ParseToken, ReadArray, ReadObject, ParseArray, ParseObject, SkipArray, SkipObject;
  }

  lemma NestedIsFiltered(s: Bytes, p: nat, f: Value, limit: nat, prev: Value, found: bool)
    requires p <= |s| && Space(s, p, found).At?
    requires var q := Space(s, p, found).pos;
      if Peek(s, q) == LEFT_BRACKET then
        var r := ReadArray(s, q, limit);
        && (r.Ok? ==>
          if AllowArray(f) then ParseArray(s, q, f, limit) == Ok(Apply(f, Arr(r.val), Null), r.pos)
          else SkipArray(s, q, limit) == At(r.pos))
        && (r.Err? && IsTrue(f) ==> ParseArray(s, q, f, limit) == Err(r.error))
      else
        var r := ReadObject(s, q, limit);
        && Peek(s, q) == LEFT_BRACE
        && (r.Ok? ==>
          if AllowObject(f) then ParseObject(s, q, f, limit) == Ok(Apply(f, Obj(r.val), Null), r.pos)
          else SkipObject(s, q, limit) == At(r.pos))
        && (r.Err? && IsTrue(f) ==> ParseObject(s, q, f, limit) == Err(r.error))
    ensures Filtered(s, ParseVariant(s, p, f, limit, prev, found), ReadVariant(s, p, limit, found), f, prev)
  {
    hide ReadArray, ReadObject, ParseArray, ParseObject, SkipArray, SkipObject, Space, ReadToken, ParseToken;
    hide ApplyElems, ApplyMembers, ElementFilter, Stops, Allow, Lookup;
  }

  lemma TokenIsFiltered(s: Bytes, p: nat, f: Value, prev: Value)
    requires p < |s| && Peek(s, p) != 0
    ensures Filtered(s, ParseToken(s, p, f, prev), ReadToken(s, p), f, prev)
  {
    hide ParseString, SkipKeyword, SkipQuoted, ParseNumeric, SkipNumeric, ApplyElems, ApplyMembers, SubFilter;
    hide ElementFilter;
    hide SkipToken, Allow, AllowArray, AllowObject;
    var r := ReadToken(s, p);
    if !AllowValue(f) && r.Ok? && Stops(s, r) {
      SkipTokenAgrees(s, p);
      TokenIsSkipped(s, p, f, prev);
    }
  }

  lemma TokenIsSkipped(s: Bytes, p: nat, f: Value, prev: Value)
    requires p < |s| && Peek(s, p) != 0 && !AllowValue(f)
    ensures ParseToken(s, p, f, prev) == Keeping(SkipToken(s, p), prev)
  {
  }

  lemma {:induction false} ArrayIsFiltered(s: Bytes, p: nat, f: Value, limit: nat)
    requires p < |s|
    ensures var r := ReadArray(s, p, limit);
      && (r.Ok? ==>
        if AllowArray(f) then ParseArray(s, p, f, limit) == Ok(Apply(f, Arr(r.val), Null), r.pos)
        else SkipArray(s, p, limit) == At(r.pos))
      && (r.Err? && IsTrue(f) ==> ParseArray(s, p, f, limit) == Err(r.error))
    decreases |s| - p, 1
  {
    hide Space, ReadElems, ParseElems, SkipElems;
    if !AllowArray(f) {
      if ReadArray(s, p, limit).Ok? {
        SkipArrayAgrees(s, p, limit);
      }
    } else if limit > 0 && Space(s, p + 1, true).At? {
      var q := Space(s, p + 1, true).pos;
      if Peek(s, q) != RIGHT_BRACKET {
        ElemsAreFiltered(s, q, ElementFilter(f), limit, []);
        assert forall es: seq<Value> :: [] + es == es;
      }
    }
  }

  lemma ApplyFirst(f: Value, v: Value, vs: seq<Value>, acc: seq<Value>)
    ensures acc + ApplyElems(f, [v] + vs) == acc + [Apply(f, v, Null)] + ApplyElems(f, vs)
    ensures acc + [Apply(f, v, Null)] + ApplyElems(f, []) == acc + [Apply(f, v, Null)]
  {
    assert ([v] + vs)[1..] == vs;
  }

  lemma {:induction false} ElemsAreFiltered(s: Bytes, p: nat, f: Value, limit: nat, acc: seq<Value>)
    requires p <= |s| && limit > 0
    ensures var r := ReadElems(s, p, limit);
      && (r.Ok? ==> ParseElems(s, p, f, limit, acc)
                    == Ok(Arr(if Allow(f) then acc + ApplyElems(f, r.val) else acc), r.pos))
      && (r.Err? && IsTrue(f) ==> ParseElems(s, p, f, limit, acc) == Err(r.error))
    decreases |s| - p, 3
  {
    hide ReadVariant, ParseVariant, SkipVariant, Space, Apply, MoreElems, ApplyElems, ParseElems, Allow;
    ParseElemsUnfold(s, p, f, limit, acc);
    TrueAllows(f);
    var v := ReadVariant(s, p, limit - 1, true);
    VariantIsFiltered(s, p, f, limit - 1, Null, true);
    if ReadElems(s, p, limit).Ok? {
      Delimited(s, v.pos);
      SkipVariantAgrees(s, p, limit - 1, true);
      assert ReadElems(s, p, limit).val == [v.val] + ReadElems(s, p, limit).val[1..];
      ApplyFirst(f, v.val, ReadElems(s, p, limit).val[1..], acc);
    }
    if v.Ok? {
      var acc' := if Allow(f) then acc + [Apply(f, v.val, Null)] else acc;
      var next := Space(s, v.pos, true);
      if next.At? && Peek(s, next.pos) == COMMA {
        ElemsAreFiltered(s, next.pos + 1, f, limit, acc');
      }
      MoreElemsUnfold(s, v.pos, f, limit, acc');
    }
  }

  lemma TrueAllows(f: Value)
    ensures IsTrue(f) ==> Allow(f)
  {
  }

  /** An element, parsed or skipped. */
  lemma ParseElemsUnfold(s: Bytes, p: nat, f: Value, limit: nat, acc: seq<Value>)
    requires p <= |s| && limit > 0
    ensures var e := if Allow(f) then ParseVariant(s, p, f, limit - 1, Null, true)
                     else Keeping(SkipVariant(s, p, limit - 1, true), Null);
      ParseElems(s, p, f, limit, acc) ==
        if e.Err? then Err(e.error) else MoreElems(s, e.pos, f, limit, if Allow(f) then acc + [e.val] else acc)
  {
    hide ParseVariant, SkipVariant, MoreElems;
  }

  /** The step after an element, in terms of the elements that follow. */
  lemma MoreElemsUnfold(s: Bytes, p: nat, f: Value, limit: nat, acc: seq<Value>)
    requires p <= |s| && limit > 0
    ensures MoreElems(s, p, f, limit, acc) ==
      match Space(s, p, true) {
        case Fail(e) => Err(e)
        case At(r) =>
          if Peek(s, r) == RIGHT_BRACKET then Ok(Arr(acc), r + 1)
          else if Peek(s, r) == COMMA then ParseElems(s, r + 1, f, limit, acc)
          else Err(InvalidInput)
      }
  {
  }

  lemma {:induction false} ObjectIsFiltered(s: Bytes, p: nat, f: Value, limit: nat)
    requires p < |s|
    ensures var r := ReadObject(s, p, limit);
      && (r.Ok? ==>
        if AllowObject(f) then ParseObject(s, p, f, limit) == Ok(Apply(f, Obj(r.val), Null), r.pos)
        else SkipObject(s, p, limit) == At(r.pos))
      && (r.Err? && IsTrue(f) ==> ParseObject(s, p, f, limit) == Err(r.error))
    decreases |s| - p, 1
  {
    hide Space, ReadMembers, ParseMembers, SkipMembers;
    if !AllowObject(f) {
      if ReadObject(s, p, limit).Ok? {
        SkipObjectAgrees(s, p, limit);
      }
    } else if limit > 0 && Space(s, p + 1, true).At? {
      var q := Space(s, p + 1, true).pos;
      if Peek(s, q) != RIGHT_BRACE {
        MembersAreFiltered(s, q, f, limit, []);
      }
    }
  }

  lemma {:induction false} MembersAreFiltered(s: Bytes, p: nat, f: Value, limit: nat, acc: seq<Member>)
    requires p <= |s| && limit > 0
    ensures var r := ReadMembers(s, p, limit);
      && (r.Ok? ==> ParseMembers(s, p, f, limit, acc) == Ok(Obj(ApplyMembers(f, r.val, acc)), r.pos))
      && (r.Err? && IsTrue(f) ==> ParseMembers(s, p, f, limit, acc) == Err(r.error))
    decreases |s| - p, 3
  {
    hide ReadMember, ParseMember, Space, MoreMembers, ApplyMember, ParseMembers;
    ParseMembersUnfold(s, p, f, limit, acc);
    var m := ReadMember(s, p, limit);
    MemberIsFiltered(s, p, f, limit, acc);
    if m.Ok? {
      if ReadMembers(s, p, limit).Ok? {
        Delimited(s, m.pos);
      }
      var acc' := ApplyMember(f, m.val, acc);
      var next := Space(s, m.pos, true);
      if next.At? && Peek(s, next.pos) == COMMA && Space(s, next.pos + 1, true).At? {
        MembersAreFiltered(s, Space(s, next.pos + 1, true).pos, f, limit, acc');
      }
      MoreIsFiltered(s, m.pos, f, limit, acc');
    }
  }

  lemma ParseMembersUnfold(s: Bytes, p: nat, f: Value, limit: nat, acc: seq<Member>)
    requires p <= |s| && limit > 0
    ensures var m := ParseMember(s, p, f, limit, acc);
      ParseMembers(s, p, f, limit, acc) == if m.Err? then Err(m.error) else MoreMembers(s, m.pos, f, limit, m.val)
  {
    hide ParseMember, MoreMembers;
  }

  /** The step after a member, in terms of the members that follow. */
  lemma MoreIsFiltered(s: Bytes, p: nat, f: Value, limit: nat, acc: seq<Member>)
    requires p <= |s| && limit > 0
    ensures MoreMembers(s, p, f, limit, acc) ==
      match Space(s, p, true) {
        case Fail(e) => Err(e)
        case At(r) =>
          if Peek(s, r) == RIGHT_BRACE then Ok(Obj(acc), r + 1)
          else if Peek(s, r) != COMMA then Err(InvalidInput)
          else if Space(s, r + 1, true).Fail? then Err(Space(s, r + 1, true).error)
          else ParseMembers(s, Space(s, r + 1, true).pos, f, limit, acc)
      }
  {
  }

  lemma {:induction false} MemberIsFiltered(s: Bytes, p: nat, f: Value, limit: nat, acc: seq<Member>)
    requires p <= |s| && limit > 0
    ensures var m := ReadMember(s, p, limit);
      && (m.Ok? && (IsTrue(f) || !CanBeInNumber(Peek(s, m.pos))) ==>
           ParseMember(s, p, f, limit, acc) == Ok(ApplyMember(f, m.val, acc), m.pos))
      && (m.Err? && IsTrue(f) ==> ParseMember(s, p, f, limit, acc) == Err(m.error))
    decreases |s| - p, 2
  {
    hide ReadVariant, ParseVariant, SkipVariant, Space, Apply, ParseQuoted, Put;
    var name := ParseKey(s, p);
    if name.Ok? && Space(s, name.pos, true).At? && Peek(s, Space(s, name.pos, true).pos) == COLON {
      var c := Space(s, name.pos, true).pos;
      var key := CStr(name.val);
      var sub := SubFilter(f, key);
      VariantIsFiltered(s, c + 1, sub, limit - 1, Lookup(acc, key), true);
      if !Allow(sub) && ReadVariant(s, c + 1, limit - 1, true).Ok? && Stops(s, ReadVariant(s, c + 1, limit - 1, true)) {
        SkipVariantAgrees(s, c + 1, limit - 1, true);
      }
    }
  }

  // ---- Projection ----

  /** The part of a value that a filter selects, by recursion on the value alone. */
  function Project(f: Value, v: Value): Value {
    match v
    case Null => Null
    case Arr(es) =>
      if !AllowArray(f) then Null
      else Arr(if Allow(ElementFilter(f)) then ProjectElems(ElementFilter(f), es) else [])
    case Obj(ms) => if AllowObject(f) then Obj(ProjectMembers(f, ms)) else Null
    case _ => if AllowValue(f) then v else Null
  }

  function ProjectElems(f: Value, es: seq<Value>): seq<Value> {
    if es == [] then [] else [Project(f, es[0])] + ProjectElems(f, es[1..])
  }

  function ProjectMembers(f: Value, ms: seq<Member>): seq<Member> {
    if ms == [] then []
    else
      var sub := SubFilter(f, ms[0].key);
      (if Allow(sub) then [Member(ms[0].key, Project(sub, ms[0].val))] else []) + ProjectMembers(f, ms[1..])
  }

  lemma {:induction false} ApplyIsProject(f: Value, v: Value)
    requires UniqueKeys(v)
    ensures Apply(f, v, Null) == Project(f, v)
    decreases v, 0
  {
    match v
    case Arr(es) => if AllowArray(f) { ApplyElemsIsProject(ElementFilter(f), es); }
    case Obj(ms) => if AllowObject(f) { ApplyMembersIsProject(f, ms, []); }
    case _ =>
  }

  lemma {:induction false} ApplyElemsIsProject(f: Value, es: seq<Value>)
    requires forall i :: 0 <= i < |es| ==> UniqueKeys(es[i])
    ensures ApplyElems(f, es) == ProjectElems(f, es)
    decreases es, 2
  {
    if es != [] {
      ApplyIsProject(f, es[0]);
      ApplyElemsIsProject(f, es[1..]);
    }
  }

  lemma {:induction false} FindAbsent(ms: seq<Member>, key: Bytes)
    requires forall j :: 0 <= j < |ms| ==> ms[j].key != key
    ensures Find(ms, key) == |ms|
  {
  }

  lemma ApplyNewMember(f: Value, m: Member, acc: seq<Member>)
    requires UniqueKeys(m.val)
    requires forall j :: 0 <= j < |acc| ==> acc[j].key != m.key
    ensures acc + ProjectMembers(f, [m]) == ApplyMember(f, m, acc)
    decreases m.val, 1
  {
    hide Project, Apply, UniqueKeys, SubFilter, Allow;
    FindAbsent(acc, m.key);
    ApplyIsProject(SubFilter(f, m.key), m.val);
    assert [m][1..] == [];
  }

  lemma ProjectFirst(f: Value, ms: seq<Member>)
    requires ms != []
    ensures ProjectMembers(f, ms) == ProjectMembers(f, ms[..1]) + ProjectMembers(f, ms[1..])
    ensures ProjectMembers(f, ms[..1]) == []
      || (|ProjectMembers(f, ms[..1])| == 1 && ProjectMembers(f, ms[..1])[0].key == ms[0].key)
  {
    hide Project;
    assert ms[..1][1..] == [];
  }

  /** While keys do not repeat, every member allowed by the filter is appended. */
  lemma {:induction false} ApplyMembersIsProject(f: Value, ms: seq<Member>, acc: seq<Member>)
    requires DistinctKeys(ms) && forall i :: 0 <= i < |ms| ==> UniqueKeys(ms[i].val)
    requires forall i, j :: 0 <= i < |ms| && 0 <= j < |acc| ==> ms[i].key != acc[j].key
    ensures ApplyMembers(f, ms, acc) == acc + ProjectMembers(f, ms)
    decreases ms, 2
  {
    hide UniqueKeys, ApplyMember, ProjectMembers;
    if ms == [] {
      assert ProjectMembers(f, ms) == [] by { ProjectNone(f); }
    } else {
      ApplyNewMember(f, ms[0], acc);
      ProjectFirst(f, ms);
      assert ms[..1] == [ms[0]];
      var acc' := ApplyMember(f, ms[0], acc);
      assert forall j :: 0 <= j < |acc'| ==> acc'[j].key == ms[0].key || (j < |acc| && acc'[j] == acc[j]);
      ApplyMembersIsProject(f, ms[1..], acc');
    }
  }

  lemma ProjectNone(f: Value)
    ensures ProjectMembers(f, []) == []
  {
  }

  lemma {:induction false} AllowAllProjectsToItself(f: Value, v: Value)
    requires IsTrue(f)
    ensures Project(f, v) == v
    decreases v
  {
    match v
    case Arr(es) => AllElemsProject(f, es);
    case Obj(ms) => AllMembersProject(f, ms);
    case _ =>
  }

  lemma {:induction false} AllElemsProject(f: Value, es: seq<Value>)
    requires IsTrue(f)
    ensures ProjectElems(f, es) == es
    decreases es
  {
    if es != [] {
      AllowAllProjectsToItself(f, es[0]);
      AllElemsProject(f, es[1..]);
    }
  }

  lemma {:induction false} AllMembersProject(f: Value, ms: seq<Member>)
    requires IsTrue(f)
    ensures ProjectMembers(f, ms) == ms
    decreases ms
  {
    if ms != [] {
      AllowAllProjectsToItself(f, ms[0].val);
      AllMembersProject(f, ms[1..]);
    }
  }

  // ---- Whole documents ----

  const ALL := Bool(true)

  /** The reading of a whole text: the value at its start. */
  function Reading(s: Bytes, limit: nat): Result<Value> { ReadVariant(s, 0, limit, false) }

  /** Every accepted text, duplicates or not: parsing under any filter is the reading
      with that filter applied in text order. */
  lemma ParseAppliesFilter(s: Bytes, f: Value, limit: nat)
    requires Parse(s, ALL, limit).Ok?
    ensures Reading(s, limit).Ok?
    ensures Parse(s, f, limit) == Ok(Apply(f, Reading(s, limit).val, Null), Parse(s, ALL, limit).pos)
  {
    hide ParseVariant, ReadVariant;
    VariantIsFiltered(s, 0, ALL, limit, Null, false);
    VariantIsFiltered(s, 0, f, limit, Null, false);
    TokensKeepTheirKind(ALL, Reading(s, limit).val);
    TokensKeepTheirKind(f, Reading(s, limit).val);
  }

  lemma TokensKeepTheirKind(f: Value, v: Value)
    ensures IsEnclosed(v) ==> IsEnclosed(Apply(f, v, Null))
    ensures IsTrue(f) && !IsEnclosed(v) ==> Apply(f, v, Null) == v
  {
  }

  /** Filtering commutes with parsing: a text the unfiltered parser accepts, and that
      repeats no key, parses under any filter to the projection of its value. */
  lemma FilteringCommutes(s: Bytes, f: Value, limit: nat)
    requires Parse(s, ALL, limit).Ok?
    requires Reading(s, limit).Ok? && UniqueKeys(Reading(s, limit).val)
    ensures Parse(s, f, limit) == Ok(Project(f, Parse(s, ALL, limit).val), Parse(s, ALL, limit).pos)
    ensures Parse(s, ALL, limit).val == Reading(s, limit).val
  {
    hide Parse, ReadVariant, Apply, Project, UniqueKeys;
    var v := Reading(s, limit).val;
    ParseAppliesFilter(s, f, limit);
    ParseAppliesFilter(s, ALL, limit);
    ApplyIsProject(f, v);
    ApplyIsProject(ALL, v);
    AllowAllProjectsToItself(ALL, v);
  }

  /** The unfiltered parser accepts what the reading accepts, and reports its errors. */
  lemma UnfilteredIsReading(s: Bytes, limit: nat)
    ensures var r := Reading(s, limit); var parsed := Parse(s, ALL, limit);
      && (r.Err? ==> parsed == Err(r.error))
      && (r.Ok? ==> (parsed.Ok? <==> IsEnclosed(r.val) || Peek(s, r.pos) == 0))
      && (parsed.Ok? ==> parsed.pos == r.pos)
      && (r.Ok? && parsed.Err? ==> parsed.error == InvalidInput)
  {
    hide ParseVariant, ReadVariant;
    VariantIsFiltered(s, 0, ALL, limit, Null, false);
    if Reading(s, limit).Ok? {
      TokensKeepTheirKind(ALL, Reading(s, limit).val);
    }
  }

  // ---- Repeated keys ----

  /** The last value under its key that is not null. */
  predicate Survives(ms: seq<Member>, j: nat)
    requires j < |ms|
  {
    ms[j].val != Null && forall k :: j < k < |ms| && ms[k].key == ms[j].key ==> ms[k].val == Null
  }

  /** Wherever a key is repeated, an array or object under it is followed by a last value, nulls
      aside, of the same kind; and so on in the values that survive. */
  predicate Kindly(v: Value) {
    match v
    case Arr(es) => forall i :: 0 <= i < |es| ==> Kindly(es[i])
    case Obj(ms) =>
      forall j :: 0 <= j < |ms| && Survives(ms, j) ==>
        && Kindly(ms[j].val)
        && forall i :: 0 <= i < j && ms[i].key == ms[j].key ==> KeepsKind(ms[i].val, ms[j].val)
    case _ => true
  }

  predicate KeepsKind(v: Value, w: Value) { (v.Arr? ==> w.Arr?) && (v.Obj? ==> w.Obj?) }

  /** Filtering the reading, against projecting what the unfiltered parser returns. */
  ghost predicate Commutes(f: Value, v: Value) { Apply(f, v, Null) == Project(f, Apply(ALL, v, Null)) }

  // ---- What a filter leaves under one key ----

  /** The value under `key` after the members `ms`, filtered by `sub`. */
  function Fold(sub: Value, ms: seq<Member>, key: Bytes): Value {
    if ms == [] then Null
    else
      var n := |ms| - 1;
      var before := Fold(sub, ms[..n], key);
      if ms[n].key == key then Apply(sub, ms[n].val, before) else before
  }

  /** A filter that lets a value through, in whole or in part. */
  predicate Permits(sub: Value, v: Value) {
    match v
    case Null => false
    case Arr(_) => AllowArray(sub)
    case Obj(_) => AllowObject(sub)
    case _ => AllowValue(sub)
  }

  lemma PermitsDecides(sub: Value, v: Value, prev: Value)
    ensures Apply(sub, v, prev) == if Permits(sub, v) then Apply(sub, v, Null) else prev
    ensures Permits(sub, v) ==> Apply(sub, v, Null) != Null
    ensures !Permits(sub, v) ==> Project(sub, v) == Null && Project(sub, Apply(ALL, v, Null)) == Null
  {
  }

  /** The last value that the filter permits is what remains. */
  lemma {:induction false} FoldIsLast(sub: Value, ms: seq<Member>, j: nat)
    requires j < |ms| && Permits(sub, ms[j].val)
    requires forall k :: j < k < |ms| && ms[k].key == ms[j].key ==> !Permits(sub, ms[k].val)
    ensures Fold(sub, ms, ms[j].key) == Apply(sub, ms[j].val, Null)
  {
    hide Apply, Permits;
    var n := |ms| - 1;
    PermitsDecides(sub, ms[n].val, Fold(sub, ms[..n], ms[j].key));
    if j < n {
      FoldIsLast(sub, ms[..n], j);
    }
  }

  lemma {:induction false} FoldIsNull(sub: Value, ms: seq<Member>, key: Bytes)
    requires forall k :: 0 <= k < |ms| && ms[k].key == key ==> !Permits(sub, ms[k].val)
    ensures Fold(sub, ms, key) == Null
  {
    hide Apply, Permits;
    if ms != [] {
      var n := |ms| - 1;
      PermitsDecides(sub, ms[n].val, Fold(sub, ms[..n], key));
      FoldIsNull(sub, ms[..n], key);
    }
  }

  lemma {:induction false} FoldIsNotNull(sub: Value, ms: seq<Member>, i: nat)
    requires i < |ms| && Permits(sub, ms[i].val)
    ensures Fold(sub, ms, ms[i].key) != Null
  {
    hide Apply, Permits;
    var n := |ms| - 1;
    PermitsDecides(sub, ms[n].val, Fold(sub, ms[..n], ms[i].key));
    if i < n {
      FoldIsNotNull(sub, ms[..n], i);
    }
  }

  /** The value that survives under a key, if any does. */
  lemma {:induction false} Survivor(ms: seq<Member>, key: Bytes) returns (j: nat)
    ensures j < |ms| ==> ms[j].key == key && Survives(ms, j)
    ensures j >= |ms| ==> forall k :: 0 <= k < |ms| && ms[k].key == key ==> ms[k].val == Null
  {
    j := |ms|;
    if ms != [] {
      var n := |ms| - 1;
      if ms[n].key == key && ms[n].val != Null {
        j := n;
      } else {
        j := Survivor(ms[..n], key);
        j := if j < n then j else |ms|;
      }
    }
  }

  /** Without a filter, the survivor remains; with one, it remains as far as it is permitted. */
  lemma SurvivorRemains(sub: Value, ms: seq<Member>, j: nat)
    requires j < |ms| && Survives(ms, j)
    ensures Fold(ALL, ms, ms[j].key) == Apply(ALL, ms[j].val, Null)
    ensures Permits(sub, ms[j].val) ==> Fold(sub, ms, ms[j].key) == Apply(sub, ms[j].val, Null)
  {
    hide Apply;
    FoldIsLast(ALL, ms, j);
    if Permits(sub, ms[j].val) {
      FoldIsLast(sub, ms, j);
    }
  }

  // ---- The members of a filtered object ----

  /** The different keys, in the order of their first members. */
  function Names(ms: seq<Member>): (names: seq<Bytes>)
    ensures forall i, j :: 0 <= i < j < |names| ==> names[i] != names[j]
    ensures forall k :: k in names <==> exists i :: 0 <= i < |ms| && ms[i].key == k
  {
    if ms == [] then []
    else
      var n := |ms| - 1;
      var names := Names(ms[..n]);
      assert forall i :: 0 <= i < n ==> ms[..n][i] == ms[i];
      if ms[n].key in names then names else names + [ms[n].key]
  }

  /** The members that the filter allows, each with what it leaves. */
  function Folded(f: Value, ms: seq<Member>, names: seq<Bytes>): seq<Member> {
    if names == [] then []
    else
      var n := |names| - 1;
      var sub := SubFilter(f, names[n]);
      Folded(f, ms, names[..n]) + if Allow(sub) then [Member(names[n], Fold(sub, ms, names[n]))] else []
  }

  lemma {:induction false} FoldedKeys(f: Value, ms: seq<Member>, names: seq<Bytes>, k: nat)
    requires k < |Folded(f, ms, names)|
    ensures Folded(f, ms, names)[k].key in names && Allow(SubFilter(f, Folded(f, ms, names)[k].key))
  {
    hide SubFilter, Allow, Fold;
    var n := |names| - 1;
    if k < |Folded(f, ms, names[..n])| {
      FoldedKeys(f, ms, names[..n], k);
    }
  }

  /** One more member, under a name that is not among these, changes nothing. */
  lemma {:induction false} FoldedOthers(f: Value, ms: seq<Member>, m: Member, names: seq<Bytes>)
    requires m.key !in names
    ensures Folded(f, ms + [m], names) == Folded(f, ms, names)
  {
    hide SubFilter, Allow, Apply;
    if names != [] {
      FoldedOthers(f, ms, m, names[..|names| - 1]);
      assert (ms + [m])[..|ms|] == ms;
    }
  }

  lemma FoldStep(sub: Value, ms: seq<Member>, m: Member)
    ensures Fold(sub, ms + [m], m.key) == Apply(sub, m.val, Fold(sub, ms, m.key))
  {
    hide Apply;
    assert (ms + [m])[..|ms|] == ms;
  }

  /** Putting the new value of a key in place. */
  lemma {:induction false} FoldedPut(f: Value, ms: seq<Member>, m: Member, names: seq<Bytes>)
    requires forall i, j :: 0 <= i < j < |names| ==> names[i] != names[j]
    requires m.key in names && Allow(SubFilter(f, m.key))
    ensures var sub, before := SubFilter(f, m.key), Folded(f, ms, names);
      && Lookup(before, m.key) == Fold(sub, ms, m.key)
      && Folded(f, ms + [m], names) == Put(before, m.key, Fold(sub, ms + [m], m.key))
      && Find(before, m.key) < |before|
  {
    hide SubFilter, Allow, Fold, Find, Put, Lookup;
    var n := |names| - 1;
    var rest := names[..n];
    var before := Folded(f, ms, rest);
    if names[n] == m.key {
      FoldedOthers(f, ms, m, rest);
      forall k | 0 <= k < |before| ensures before[k].key != m.key {
        FoldedKeys(f, ms, rest, k);
      }
      var sub := SubFilter(f, m.key);
      PutLast(before, Member(m.key, Fold(sub, ms, m.key)), Fold(sub, ms + [m], m.key));
    } else {
      assert m.key in rest;
      FoldedPut(f, ms, m, rest);
      FoldedLast(f, ms, m, names);
      PutFirst(before, Folded(f, ms, names)[|before|..], m.key, Fold(SubFilter(f, m.key), ms + [m], m.key));
    }
  }

  /** The last name is another one. */
  lemma FoldedLast(f: Value, ms: seq<Member>, m: Member, names: seq<Bytes>)
    requires names != [] && names[|names| - 1] != m.key
    requires var before := Folded(f, ms, names[..|names| - 1]); Find(before, m.key) < |before|
    ensures var before, all := Folded(f, ms, names[..|names| - 1]), Folded(f, ms, names);
      && Find(all, m.key) == Find(before, m.key) && Lookup(all, m.key) == Lookup(before, m.key)
      && all == before + all[|before|..] && Folded(f, ms + [m], names)
         == Folded(f, ms + [m], names[..|names| - 1]) + all[|before|..]
  {
    hide SubFilter, Allow, Apply;
    var before, all := Folded(f, ms, names[..|names| - 1]), Folded(f, ms, names);
    FindFirst(before, all[|before|..], m.key);
    assert (ms + [m])[..|ms|] == ms;
  }

  lemma {:induction false} FindFirst(a: seq<Member>, b: seq<Member>, key: Bytes)
    requires Find(a, key) < |a|
    ensures Find(a + b, key) == Find(a, key)
  {
    if a[0].key != key {
      assert (a + b)[1..] == a[1..] + b;
      FindFirst(a[1..], b, key);
    }
  }

  lemma PutFirst(a: seq<Member>, b: seq<Member>, key: Bytes, v: Value)
    requires Find(a, key) < |a|
    ensures Put(a + b, key, v) == Put(a, key, v) + b
  {
    FindFirst(a, b, key);
  }

  lemma PutLast(ms: seq<Member>, m: Member, v: Value)
    requires forall k :: 0 <= k < |ms| ==> ms[k].key != m.key
    ensures Find(ms + [m], m.key) == |ms| && Lookup(ms + [m], m.key) == m.val
    ensures Put(ms + [m], m.key, v) == ms + [Member(m.key, v)]
  {
    FindAfter(ms, m);
  }

  lemma FindAfter(ms: seq<Member>, m: Member)
    requires forall k :: 0 <= k < |ms| ==> ms[k].key != m.key
    ensures Find(ms + [m], m.key) == |ms| && Find(ms, m.key) == |ms|
  {
    assert (ms + [m])[|ms|] == m;
    assert forall j :: 0 <= j < |ms| ==> (ms + [m])[j].key != m.key;
    FindAbsent(ms, m.key);
  }

  /** The object that a filter makes of the members. */
  lemma {:induction false} ApplyIsFolded(f: Value, ms: seq<Member>)
    ensures ApplyMembers(f, ms, []) == Folded(f, ms, Names(ms))
  {
    hide SubFilter, Allow, Apply, Fold;
    if ms != [] {
      var n := |ms| - 1;
      var before, m := ms[..n], ms[n];
      assert ms == before + [m];
      ApplyIsFolded(f, before);
      ApplyLast(f, before, m, []);
      var sub, names := SubFilter(f, m.key), Names(before);
      FoldStep(sub, before, m);
      if m.key in names {
        if Allow(sub) {
          FoldedPut(f, before, m, names);
        } else {
          FoldedSkips(f, before, m, names);
        }
      } else {
        FoldedOthers(f, before, m, names);
        assert (names + [m.key])[..|names|] == names;
        NothingBefore(sub, before, m.key);
        forall k | 0 <= k < |Folded(f, before, names)| ensures Folded(f, before, names)[k].key != m.key {
          FoldedKeys(f, before, names, k);
        }
        FindAbsent(Folded(f, before, names), m.key);
      }
    }
  }

  lemma NothingBefore(sub: Value, ms: seq<Member>, key: Bytes)
    requires key !in Names(ms)
    ensures Fold(sub, ms, key) == Null
  {
    hide Permits;
    FoldIsNull(sub, ms, key);
  }

  lemma {:induction false} ApplyLast(f: Value, ms: seq<Member>, m: Member, acc: seq<Member>)
    ensures ApplyMembers(f, ms + [m], acc) == ApplyMember(f, m, ApplyMembers(f, ms, acc))
    decreases ms
  {
    hide ApplyMember;
    if ms == [] {
      assert [] + [m] == [m] && [m][1..] == [];
    } else {
      assert (ms + [m])[1..] == ms[1..] + [m];
      ApplyLast(f, ms[1..], m, ApplyMember(f, ms[0], acc));
    }
  }

  lemma {:induction false} FoldedSkips(f: Value, ms: seq<Member>, m: Member, names: seq<Bytes>)
    requires !Allow(SubFilter(f, m.key))
    ensures Folded(f, ms + [m], names) == Folded(f, ms, names)
  {
    hide SubFilter, Allow, Apply;
    if names != [] {
      FoldedSkips(f, ms, m, names[..|names| - 1]);
      assert (ms + [m])[..|ms|] == ms;
    }
  }

  lemma {:induction false} ProjectAdds(f: Value, a: seq<Member>, b: seq<Member>)
    ensures ProjectMembers(f, a + b) == ProjectMembers(f, a) + ProjectMembers(f, b)
  {
    hide ProjectMembers;
    if a == [] {
      ProjectNone(f);
      assert a + b == b;
    } else {
      assert (a + b)[1..] == a[1..] + b;
      ProjectAdds(f, a[1..], b);
      var first := ProjectMembers(f, a[..1]);
      ProjectFirst(f, a);
      ProjectFirst(f, a + b);
      assert (a + b)[..1] == a[..1];
      assert first + (ProjectMembers(f, a[1..]) + ProjectMembers(f, b))
          == (first + ProjectMembers(f, a[1..])) + ProjectMembers(f, b);
    }
  }

  lemma ProjectSingle(f: Value, m: Member)
    ensures var sub := SubFilter(f, m.key);
      ProjectMembers(f, [m]) == if Allow(sub) then [Member(m.key, Project(sub, m.val))] else []
  {
    hide SubFilter, Allow, Project;
    assert [m][1..] == [];
    ProjectNone(f);
  }

  /** The filtered members are the projected ones exactly when they agree under every name
      that the filter allows. */
  lemma {:induction false} FoldedProjects(f: Value, ms: seq<Member>, names: seq<Bytes>)
    ensures |Folded(f, ms, names)| == |ProjectMembers(f, Folded(ALL, ms, names))|
    ensures Folded(f, ms, names) == ProjectMembers(f, Folded(ALL, ms, names)) <==>
      forall k :: k in names && Allow(SubFilter(f, k)) ==>
        Fold(SubFilter(f, k), ms, k) == Project(SubFilter(f, k), Fold(ALL, ms, k))
  {
    hide SubFilter, Allow, Project, Fold;
    if names != [] {
      var n := |names| - 1;
      var rest, name := names[..n], names[n];
      FoldedProjects(f, ms, rest);
      AllSubFilter(name);
      var last := [Member(name, Fold(ALL, ms, name))];
      assert Folded(ALL, ms, names) == Folded(ALL, ms, rest) + last;
      ProjectAdds(f, Folded(ALL, ms, rest), last);
      ProjectSingle(f, last[0]);
      assert forall k :: k in names <==> k in rest || k == name;
      var sub := SubFilter(f, name);
      TailsAgree(Folded(f, ms, rest), ProjectMembers(f, Folded(ALL, ms, rest)),
        if Allow(sub) then [Member(name, Fold(sub, ms, name))] else [], ProjectMembers(f, last));
    } else {
      ProjectNone(f);
    }
  }

  lemma AllSubFilter(name: Bytes)
    ensures SubFilter(ALL, name) == ALL && Allow(ALL)
  {
  }

  lemma TailsAgree<T>(a: seq<T>, b: seq<T>, c: seq<T>, d: seq<T>)
    requires |a| == |b|
    ensures a + c == b + d <==> a == b && c == d
  {
    if a + c == b + d {
      assert a == (a + c)[..|a|] && b == (b + d)[..|a|];
      assert c == (a + c)[|a|..] && d == (b + d)[|a|..];
    }
  }

  lemma ObjectCommutes(f: Value, ms: seq<Member>)
    requires AllowObject(f)
    ensures Commutes(f, Obj(ms)) <==>
      forall k :: k in Names(ms) && Allow(SubFilter(f, k)) ==>
        Fold(SubFilter(f, k), ms, k) == Project(SubFilter(f, k), Fold(ALL, ms, k))
  {
    hide SubFilter, Allow, Fold, Folded, ApplyMembers, ProjectMembers, Names, Project, Commutes;
    ApplyIsFolded(f, ms);
    ApplyIsFolded(ALL, ms);
    FoldedProjects(f, ms, Names(ms));
    ObjectUnfold(f, ms);
  }

  lemma ObjectUnfold(f: Value, ms: seq<Member>)
    requires AllowObject(f)
    ensures Commutes(f, Obj(ms)) <==> ApplyMembers(f, ms, []) == ProjectMembers(f, ApplyMembers(ALL, ms, []))
  {
    hide ApplyMembers, ProjectMembers;
  }

  lemma {:induction false} ElemsCommute(f: Value, es: seq<Value>)
    ensures |ApplyElems(f, es)| == |ProjectElems(f, ApplyElems(ALL, es))| == |es|
    ensures ApplyElems(f, es) == ProjectElems(f, ApplyElems(ALL, es)) <==>
      forall i :: 0 <= i < |es| ==> Commutes(f, es[i])
  {
    hide Apply, Project;
    if es != [] {
      ElemsCommute(f, es[1..]);
      var a, b := [Apply(f, es[0], Null)], [Project(f, Apply(ALL, es[0], Null))];
      assert ApplyElems(ALL, es)[1..] == ApplyElems(ALL, es[1..]);
      TailsAgree(a, b, ApplyElems(f, es[1..]), ProjectElems(f, ApplyElems(ALL, es[1..])));
      assert forall i :: 0 < i < |es| ==> es[i] == es[1..][i - 1];
    }
  }

  lemma ArrayCommutes(f: Value, es: seq<Value>)
    requires AllowArray(f)
    ensures Commutes(f, Arr(es)) <==>
      (Allow(ElementFilter(f)) ==> forall i :: 0 <= i < |es| ==> Commutes(ElementFilter(f), es[i]))
  {
    hide ApplyElems, ProjectElems;
    assert ElementFilter(ALL) == ALL;
    if Allow(ElementFilter(f)) {
      ElemsCommute(ElementFilter(f), es);
    } else {
      NoElems(ElementFilter(f));
    }
  }

  lemma NoElems(f: Value)
    ensures ProjectElems(f, []) == []
  {
  }

  // ---- Exactly when filtering commutes ----

  /** A value of repeated but kindly keys commutes with every filter. */
  lemma {:induction false} KindlyCommutes(f: Value, v: Value)
    requires Kindly(v)
    ensures Commutes(f, v)
    decreases v, 1
  {
    match v
    case Arr(es) =>
      if AllowArray(f) {
        ArrayCommutes(f, es);
        forall i | 0 <= i < |es| ensures Commutes(ElementFilter(f), es[i]) {
          KindlyCommutes(ElementFilter(f), es[i]);
        }
      }
    case Obj(ms) =>
      if AllowObject(f) {
        ObjectCommutes(f, ms);
        forall k | k in Names(ms) ensures Fold(SubFilter(f, k), ms, k) == Project(SubFilter(f, k), Fold(ALL, ms, k)) {
          KindlyUnderKey(SubFilter(f, k), ms, k);
        }
      }
    case _ =>
  }

  lemma {:induction false} KindlyUnderKey(sub: Value, ms: seq<Member>, key: Bytes)
    requires Kindly(Obj(ms))
    ensures Fold(sub, ms, key) == Project(sub, Fold(ALL, ms, key))
    decreases Obj(ms), 0
  {
    hide Apply, Project, Fold;
    var j := Survivor(ms, key);
    if j >= |ms| {
      FoldIsNull(sub, ms, key);
      FoldIsNull(ALL, ms, key);
      ProjectOfNull(sub);
    } else {
      SurvivorRemains(sub, ms, j);
      PermitsDecides(sub, ms[j].val, Null);
      if Permits(sub, ms[j].val) {
        KindlyCommutes(sub, ms[j].val);
      } else {
        forall k | 0 <= k < |ms| && ms[k].key == key ensures !Permits(sub, ms[k].val) {
          if k < j {
            OtherKindBarred(sub, ms[k].val, ms[j].val);
          }
        }
        FoldIsNull(sub, ms, key);
      }
    }
  }

  lemma ProjectOfNull(sub: Value)
    ensures Project(sub, Null) == Null
  {
  }

  lemma OtherKindBarred(sub: Value, v: Value, w: Value)
    requires KeepsKind(v, w) && w != Null && !Permits(sub, w)
    ensures !Permits(sub, v)
  {
  }

  /** Any other value has a filter that does not commute: one that selects an array, or an
      object, where the last value is of another kind. */
  lemma {:induction false} UnkindlyDoesNot(v: Value) returns (f: Value)
    requires !Kindly(v)
    ensures !Commutes(f, v) && (f.Arr? || f.Obj?)
    decreases v, 1
  {
    match v
    case Arr(es) =>
      var i :| 0 <= i < |es| && !Kindly(es[i]);
      var g := UnkindlyDoesNot(es[i]);
      f := Arr([g]);
      ArrayCommutes(f, es);
    case Obj(ms) =>
      f := UnkindlyMember(ms);
  }

  lemma {:induction false} UnkindlyMember(ms: seq<Member>) returns (f: Value)
    requires !Kindly(Obj(ms))
    ensures !Commutes(f, Obj(ms)) && f.Obj?
    decreases Obj(ms), 0
  {
    hide Commutes, Fold, Apply, Project, Kindly, Names;
    UnkindlySurvivor(ms);
    var j :| 0 <= j < |ms| && Survives(ms, j) && (!Kindly(ms[j].val) || LosesKind(ms, j));
    var g;
    if !Kindly(ms[j].val) {
      g := UnkindlyDoesNot(ms[j].val);
      OnlyPermitted(g, ms[j].val);
      SurvivorRemains(g, ms, j);
      CommutesUnfold(g, ms[j].val);
    } else {
      var i :| 0 <= i < j && ms[i].key == ms[j].key && !KeepsKind(ms[i].val, ms[j].val);
      g := if ms[i].val.Arr? then Arr([]) else Obj([]);
      FoldIsNotNull(g, ms, i);
      SurvivorRemains(g, ms, j);
      PermitsDecides(g, ms[j].val, Null);
    }
    f := Obj([Member(ms[j].key, g)]);
    assert SubFilter(f, ms[j].key) == g;
    ObjectCommutes(f, ms);
    NamesOf(ms, j);
  }

  lemma UnkindlySurvivor(ms: seq<Member>)
    requires !Kindly(Obj(ms))
    ensures exists j :: 0 <= j < |ms| && Survives(ms, j) && (!Kindly(ms[j].val) || LosesKind(ms, j))
  {
  }

  /** An array or object under the key is followed by a value of another kind. */
  ghost predicate LosesKind(ms: seq<Member>, j: nat)
    requires j < |ms|
  {
    exists i :: 0 <= i < j && ms[i].key == ms[j].key && !KeepsKind(ms[i].val, ms[j].val)
  }

  lemma NamesOf(ms: seq<Member>, j: nat)
    requires j < |ms|
    ensures ms[j].key in Names(ms)
  {
  }

  lemma CommutesUnfold(f: Value, v: Value)
    ensures Commutes(f, v) <==> Apply(f, v, Null) == Project(f, Apply(ALL, v, Null))
  {
  }

  lemma OnlyPermitted(f: Value, v: Value)
    requires !Commutes(f, v)
    ensures Permits(f, v)
  {
  }

  /** Filtering commutes with parsing exactly when no array or object is hidden by a later
      value of another kind under its key: for every accepted text, all filters give the
      projection of the unfiltered result if and only if its reading is kindly. */
  lemma CommutesExactly(s: Bytes, limit: nat)
    requires Parse(s, ALL, limit).Ok?
    ensures Reading(s, limit).Ok?
    ensures (forall f :: Parse(s, f, limit) == Ok(Project(f, Parse(s, ALL, limit).val), Parse(s, ALL, limit).pos))
       <==> Kindly(Reading(s, limit).val)
    ensures UniqueKeys(Reading(s, limit).val) ==> Kindly(Reading(s, limit).val)
  {
    hide Parse, ReadVariant, Apply, Project, Kindly, UniqueKeys;
    ParseAppliesFilter(s, ALL, limit);
    var v := Reading(s, limit).val;
    if UniqueKeys(v) {
      UniqueIsKindly(v);
    }
    var whole := Parse(s, ALL, limit);
    if Kindly(v) {
      forall f ensures Parse(s, f, limit) == Ok(Project(f, whole.val), whole.pos) {
        ParseAppliesFilter(s, f, limit);
        KindlyCommutes(f, v);
      }
    } else {
      var f := UnkindlyDoesNot(v);
      ParseAppliesFilter(s, f, limit);
      CommutesUnfold(f, v);
      assert Parse(s, f, limit) != Ok(Project(f, whole.val), whole.pos);
    }
  }

  /** Keys that are not repeated are kindly. */
  lemma {:induction false} UniqueIsKindly(v: Value)
    requires UniqueKeys(v)
    ensures Kindly(v)
  {
    match v
    case Arr(es) =>
      forall i | 0 <= i < |es| ensures Kindly(es[i]) {
        UniqueIsKindly(es[i]);
      }
    case Obj(ms) =>
      forall j | 0 <= j < |ms| ensures Kindly(ms[j].val) {
        UniqueIsKindly(ms[j].val);
      }
    case _ =>
  }
}
