/** Repeated keys: what is seen of any accepted text through any filter, read off the text. */
module JsonRepeats {
  import opened Values
  import opened JsonText
  import opened JsonReading
  import opened JsonFilter
  import opened JsonSelection
  import opened JsonGrammar
  import JsonTexts

  /** The filter lets the value through, in whole or in part. */
  predicate LetsThrough(f: Value, v: Value) {
    v != Null && (TakesAll(f) || (v.Arr? && f.Arr?) || (v.Obj? && f.Obj?))
  }

  /** The last value under the key that the filter lets through. */
  ghost predicate LastLet(sub: Value, ms: seq<Member>, name: Bytes, j: nat)
    requires j < |ms|
  {
    && ms[j].key == name && LetsThrough(sub, ms[j].val)
    && forall k :: j < k < |ms| && ms[k].key == name ==> !LetsThrough(sub, ms[k].val)
  }

  /** The filter for the elements of an array. */
  ghost predicate ElementSub(f: Value, sub: Value) {
    if TakesAll(f) then sub == f else f.Arr? && f.elems != [] && sub == f.elems[0]
  }

  /** The filter for the values under a key. */
  ghost predicate KeySub(f: Value, name: Bytes, sub: Value) {
    if TakesAll(f) then sub == f else f.Obj? && Decides(f.members, name, sub)
  }

  /** At the end of the path, that is to be seen of the members and elements of `v` as they are
      written, repeated keys included: under each key the last value that the filter for the key
      lets through, or null when it lets none through. */
  ghost predicate Granted(f: Value, v: Value, path: seq<Step>, sight: Sight)
    decreases |path|, 1
  {
    if path == [] then
      match sight
      case Anything => true
      case AnArray => v.Arr? && LetsThrough(f, v)
      case AnObject => v.Obj? && LetsThrough(f, v)
      case Leaf(x) => v == x && IsLeaf(x) && TakesAll(f)
    else
      match path[0]
      case Key(name) =>
        && v.Obj? && LetsThrough(f, v)
        && exists sub ::
             KeySub(f, name, sub) && !TakesNothing(sub) && GrantedUnder(sub, v.members, name, path[1..], sight)
      case Index(i) =>
        && v.Arr? && LetsThrough(f, v) && i < |v.elems|
        && exists sub :: ElementSub(f, sub) && !TakesNothing(sub) && Granted(sub, v.elems[i], path[1..], sight)
  }

  ghost predicate GrantedUnder(sub: Value, ms: seq<Member>, name: Bytes, path: seq<Step>, sight: Sight)
    decreases |path|, 2
  {
    || (exists j :: 0 <= j < |ms| && LastLet(sub, ms, name, j) && Granted(sub, ms[j].val, path, sight))
    || (path == [] && sight == Anything && exists j :: 0 <= j < |ms| && ms[j].key == name)
  }

  lemma LetsThroughIsPermits(f: Value, v: Value)
    ensures LetsThrough(f, v) <==> Permits(f, v)
    ensures !LetsThrough(f, v) ==> Apply(f, v, Null) == Null
  {
  }

  /** The members of a filtered object. */
  lemma {:induction false} FoldedMember(f: Value, ms: seq<Member>, names: seq<Bytes>, p: Member)
    ensures p in Folded(f, ms, names) <==>
      p.key in names && Allow(SubFilter(f, p.key)) && p.val == Fold(SubFilter(f, p.key), ms, p.key)
  {
    hide SubFilter, Allow, Fold;
    if names != [] {
      FoldedMember(f, ms, names[..|names| - 1], p);
      assert names == names[..|names| - 1] + [names[|names| - 1]];
    }
  }

  lemma KeySubIsSubFilter(f: Value, v: Value, name: Bytes, sub: Value)
    requires v.Obj? && LetsThrough(f, v)
    ensures KeySub(f, name, sub) && !TakesNothing(sub) <==> sub == SubFilter(f, name) && Allow(sub)
  {
    hide Decides;
    TakesNothingIsNotAllowed(f);
    TakesNothingIsNotAllowed(sub);
    if !TakesAll(f) {
      DecidesIsSubFilter(f, name, sub);
    }
  }

  lemma ElementSubIsElementFilter(f: Value, v: Value, sub: Value)
    requires v.Arr? && LetsThrough(f, v)
    ensures ElementSub(f, sub) && !TakesNothing(sub) <==> sub == ElementFilter(f) && Allow(sub)
  {
    TakesNothingIsNotAllowed(f);
    TakesNothingIsNotAllowed(sub);
    if !TakesAll(f) {
      NoMembers(f);
    }
  }

  // ---- What the filter leaves is what is granted ----

  lemma {:induction false} ApplyShows(f: Value, v: Value, path: seq<Step>, sight: Sight)
    ensures Seen(Apply(f, v, Null), path, sight) <==> Granted(f, v, path, sight)
    decreases |path|, 1
  {
    LetsThroughIsPermits(f, v);
    TakesNothingIsNotAllowed(f);
    if path == [] || !LetsThrough(f, v) {
      hide ApplyElems, ApplyMembers;
    } else {
      match path[0]
      case Key(name) => KeyShows(f, v, path, sight, name);
      case Index(i) => IndexShows(f, v, path, sight, i);
    }
  }

  lemma {:induction false} IndexShows(f: Value, v: Value, path: seq<Step>, sight: Sight, i: nat)
    requires path != [] && path[0] == Index(i) && LetsThrough(f, v)
    ensures Seen(Apply(f, v, Null), path, sight) <==> Granted(f, v, path, sight)
    decreases |path|, 0
  {
    hide ApplyElems, ApplyMembers, ElementFilter, ElementSub, TakesNothing;
    if v.Arr? {
      var sub := ElementFilter(f);
      ElementSubIsElementFilter(f, v, sub);
      AppliedElem(sub, v.elems, i);
      if i < |v.elems| {
        ApplyShows(sub, v.elems[i], path[1..], sight);
      }
      forall other | ElementSub(f, other) && !TakesNothing(other) ensures other == sub {
        ElementSubIsElementFilter(f, v, other);
      }
    }
  }

  lemma {:induction false} AppliedElem(f: Value, es: seq<Value>, i: nat)
    ensures |ApplyElems(f, es)| == |es|
    ensures i < |es| ==> ApplyElems(f, es)[i] == Apply(f, es[i], Null)
  {
    hide Apply;
    if es != [] {
      AppliedElem(f, es[1..], if i > 0 then i - 1 else 0);
    }
  }

  lemma {:induction false} KeyShows(f: Value, v: Value, path: seq<Step>, sight: Sight, name: Bytes)
    requires path != [] && path[0] == Key(name) && LetsThrough(f, v)
    ensures Seen(Apply(f, v, Null), path, sight) <==> Granted(f, v, path, sight)
    decreases |path|, 0
  {
    hide ApplyElems, ApplyMembers, SubFilter, Fold, GrantedUnder, Allow, Granted;
    if v.Obj? {
      var sub := SubFilter(f, name);
      FoldShows(sub, v.members, name, path[1..], sight);
      KeySeen(f, v.members, name, path[1..], sight);
      KeyGranted(f, v, path, sight, name);
    } else {
      NoKeys(f, v, path, sight);
    }
  }

  lemma NoKeys(f: Value, v: Value, path: seq<Step>, sight: Sight)
    requires path != [] && path[0].Key? && !v.Obj?
    ensures !Granted(f, v, path, sight)
  {
  }

  lemma KeySeen(f: Value, ms: seq<Member>, name: Bytes, path: seq<Step>, sight: Sight)
    ensures var sub := SubFilter(f, name);
      (exists m :: m in ApplyMembers(f, ms, []) && m.key == name && Seen(m.val, path, sight)) <==>
        Allow(sub) && name in Names(ms) && Seen(Fold(sub, ms, name), path, sight)
  {
    hide ApplyMembers, SubFilter, Allow, Fold, Folded, Seen, Names;
    ApplyIsFolded(f, ms);
    var p := Member(name, Fold(SubFilter(f, name), ms, name));
    FoldedMember(f, ms, Names(ms), p);
    forall m | m in ApplyMembers(f, ms, []) && m.key == name ensures m == p {
      FoldedMember(f, ms, Names(ms), m);
    }
  }

  lemma KeyGranted(f: Value, v: Value, path: seq<Step>, sight: Sight, name: Bytes)
    requires v.Obj? && LetsThrough(f, v) && path != [] && path[0] == Key(name)
    ensures var sub := SubFilter(f, name);
      Granted(f, v, path, sight) <==> Allow(sub) && GrantedUnder(sub, v.members, name, path[1..], sight)
  {
    hide SubFilter, KeySub, TakesNothing, GrantedUnder, Allow, LetsThrough;
    KeySubIsSubFilter(f, v, name, SubFilter(f, name));
    forall other | KeySub(f, name, other) && !TakesNothing(other) ensures other == SubFilter(f, name) {
      KeySubIsSubFilter(f, v, name, other);
    }
  }

  /** What remains under a key. */
  lemma {:induction false} FoldShows(sub: Value, ms: seq<Member>, name: Bytes, path: seq<Step>, sight: Sight)
    ensures GrantedUnder(sub, ms, name, path, sight) <==>
      name in Names(ms) && Seen(Fold(sub, ms, name), path, sight)
    decreases |path|, 2
  {
    hide Apply, Fold, LastLet, Seen, Granted, LetsThrough;
    if j :| 0 <= j < |ms| && LastLet(sub, ms, name, j) {
      LastRemains(sub, ms, name, j);
      ApplyShows(sub, ms[j].val, path, sight);
      SeesAnything(Apply(sub, ms[j].val, Null));
      forall i | 0 <= i < |ms| && LastLet(sub, ms, name, i) ensures i == j {
        LastIsOne(sub, ms, name, i, j);
      }
    } else {
      NoneRemains(sub, ms, name);
      NullShows(path, sight);
    }
  }

  lemma SeesAnything(v: Value)
    ensures Seen(v, [], Anything)
  {
  }

  lemma NullShows(path: seq<Step>, sight: Sight)
    ensures Seen(Null, path, sight) <==> path == [] && sight == Anything
  {
  }

  lemma LastIsOne(sub: Value, ms: seq<Member>, name: Bytes, i: nat, j: nat)
    requires i < |ms| && j < |ms| && LastLet(sub, ms, name, i) && LastLet(sub, ms, name, j)
    ensures i == j
  {
    hide LetsThrough;
  }

  lemma LastRemains(sub: Value, ms: seq<Member>, name: Bytes, j: nat)
    requires j < |ms| && LastLet(sub, ms, name, j)
    ensures Fold(sub, ms, name) == Apply(sub, ms[j].val, Null) && name in Names(ms)
  {
    hide Apply, Fold, LetsThrough, Permits, Names;
    forall k | j <= k < |ms| ensures LetsThrough(sub, ms[k].val) <==> Permits(sub, ms[k].val) {
      LetsThroughIsPermits(sub, ms[k].val);
    }
    FoldIsLast(sub, ms, j);
  }

  lemma NoneRemains(sub: Value, ms: seq<Member>, name: Bytes)
    requires forall j :: 0 <= j < |ms| ==> !LastLet(sub, ms, name, j)
    ensures Fold(sub, ms, name) == Null
  {
    hide Fold, LetsThrough, Permits, LastLet;
    forall j | 0 <= j < |ms| && ms[j].key == name ensures !Permits(sub, ms[j].val) {
      LetsThroughIsPermits(sub, ms[j].val);
      if Permits(sub, ms[j].val) {
        var last := LastOf(sub, ms, name, j);
      }
    }
    FoldIsNull(sub, ms, name);
  }

  lemma {:induction false} LastOf(sub: Value, ms: seq<Member>, name: Bytes, j: nat) returns (last: nat)
    requires j < |ms| && ms[j].key == name && LetsThrough(sub, ms[j].val)
    ensures last < |ms| && LastLet(sub, ms, name, last)
    decreases |ms| - j
  {
    hide LetsThrough;
    if k :| j < k < |ms| && ms[k].key == name && LetsThrough(sub, ms[k].val) {
      last := LastOf(sub, ms, name, k);
    } else {
      last := j;
    }
  }

  // ---- Whole texts ----

  /** For every text of the grammar that is accepted, every filter and every path: what is seen of
      the parsed document is what the members and elements written in the text grant. */
  lemma TextGrants(before: Bytes, x: Json, rest: Bytes, f: Value, limit: nat, path: seq<Step>, sight: Sight)
    requires IsBlank(before) && IsJson(x) && (x.Number? && rest != [] ==> !IsNumberChar(rest[0]))
    requires JsonTexts.Accepted(x, rest, limit)
    ensures var s := before + (Spelled(x) + rest);
      && Parse(s, f, limit).Ok? && Parse(s, f, limit).pos == |before| + |Spelled(x)|
      && (Seen(Parse(s, f, limit).val, path, sight) <==> Granted(f, CutKeys(Meaning(x)), path, sight))
  {
    hide Parse, Meaning, CutKeys, IsJson, Spelled, Seen, Granted, Reading, Apply;
    JsonTexts.TextIsRead(before, x, rest, limit);
    var s := before + (Spelled(x) + rest);
    UnfilteredIsReading(s, limit);
    ParseAppliesFilter(s, f, limit);
    ApplyShows(f, CutKeys(Meaning(x)), path, sight);
  }
}
