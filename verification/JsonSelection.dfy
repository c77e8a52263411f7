/** What a filter selects of a document, path by path, read off the filter's own members and
    elements. */
module JsonSelection {
  import opened Values
  import opened JsonText
  import opened JsonFilter

  /** A step down a document or a filter. */
  datatype Step = Key(name: Bytes) | Index(i: nat)

  /** What may be seen at the end of a path. */
  datatype Sight = Anything | AnArray | AnObject | Leaf(x: Value)

  predicate IsLeaf(x: Value) { x != Null && !x.Arr? && !x.Obj? }

  /** At the end of the path, `v` shows that: something, an array, an object, or just this string,
      number or boolean. */
  ghost predicate Seen(v: Value, path: seq<Step>, sight: Sight)
    decreases |path|
  {
    if path == [] then
      match sight
      case Anything => true
      case AnArray => v.Arr?
      case AnObject => v.Obj?
      case Leaf(x) => v == x && IsLeaf(x)
    else
      match path[0]
      case Key(name) => v.Obj? && exists m :: m in v.members && m.key == name && Seen(m.val, path[1..], sight)
      case Index(i) => v.Arr? && i < |v.elems| && Seen(v.elems[i], path[1..], sight)
  }

  /** `true`, or the integer that equals it, takes everything. */
  predicate TakesAll(f: Value) { f == Bool(true) || f == Int(1) }

  /** Null, `false` and zero take nothing, not even an empty place. */
  predicate TakesNothing(f: Value) { f == Null || f == Bool(false) || f == Int(0) }

  /** The first member of that name is `next`, and not null. */
  ghost predicate Named(ms: seq<Member>, name: Bytes, next: Value) {
    && next != Null
    && exists i :: 0 <= i < |ms| && ms[i] == Member(name, next) && forall j :: 0 <= j < i ==> ms[j].key != name
  }

  /** The member that decides for a key: the one of its name, or else the one named "*". */
  ghost predicate Decides(ms: seq<Member>, name: Bytes, next: Value) {
    Named(ms, name, next) || ((forall other :: !Named(ms, name, other)) && Named(ms, [42], next))
  }

  /** The filter lets that be seen at the end of the path: it comes to one that takes all, or to
      an array or object filter where an array or object is. An array filter decides for every
      element by its first one. */
  ghost predicate Selects(f: Value, path: seq<Step>, sight: Sight)
    decreases |path|
  {
    TakesAll(f) ||
    if path == [] then
      match sight
      case Anything => true
      case AnArray => f.Arr?
      case AnObject => f.Obj?
      case Leaf(_) => false
    else
      match path[0]
      case Key(name) =>
        && f.Obj?
        && exists next :: Decides(f.members, name, next) && !TakesNothing(next) && Selects(next, path[1..], sight)
      case Index(_) => f.Arr? && f.elems != [] && !TakesNothing(f.elems[0]) && Selects(f.elems[0], path[1..], sight)
  }

  // ---- The filter's lookups ----

  lemma NamedIsLookup(ms: seq<Member>, name: Bytes, next: Value)
    ensures Named(ms, name, next) <==> next != Null && Lookup(ms, name) == next
  {
    var i := Find(ms, name);
    if i < |ms| && ms[i].val == next {
      assert ms[i] == Member(name, next);
    }
  }

  lemma DecidesIsSubFilter(f: Value, name: Bytes, next: Value)
    requires f.Obj?
    ensures Decides(f.members, name, next) <==> next != Null && SubFilter(f, name) == next
  {
    hide Named;
    var own := Lookup(f.members, name);
    NamedIsLookup(f.members, name, next);
    NamedIsLookup(f.members, name, own);
    NamedIsLookup(f.members, [42], next);
    if own == Null {
      forall other ensures !Named(f.members, name, other) {
        NamedIsLookup(f.members, name, other);
      }
    }
  }

  lemma TakesNothingIsNotAllowed(f: Value)
    ensures TakesNothing(f) <==> !Allow(f)
    ensures TakesAll(f) <==> IsTrue(f)
  {
  }

  // ---- The projection shows what is selected ----

  lemma {:induction false} ProjectedMember(f: Value, ms: seq<Member>, p: Member)
    ensures p in ProjectMembers(f, ms) <==>
      exists m :: m in ms && p == Member(m.key, Project(SubFilter(f, m.key), m.val)) && Allow(SubFilter(f, m.key))
  {
    hide Project, SubFilter, Allow;
    if ms != [] {
      ProjectedMember(f, ms[1..], p);
      assert ms == [ms[0]] + ms[1..];
      var sub := SubFilter(f, ms[0].key);
      assert p in ProjectMembers(f, ms) <==>
        (Allow(sub) && p == Member(ms[0].key, Project(sub, ms[0].val))) || p in ProjectMembers(f, ms[1..]);
    }
  }

  lemma {:induction false} ProjectedElem(f: Value, es: seq<Value>, i: nat)
    ensures |ProjectElems(f, es)| == |es|
    ensures i < |es| ==> ProjectElems(f, es)[i] == Project(f, es[i])
  {
    hide Project;
    if es != [] {
      ProjectedElem(f, es[1..], if i > 0 then i - 1 else 0);
    }
  }

  /** Through a filter exactly that is seen of a value which is there and selected. */
  lemma {:induction false} ProjectionShows(f: Value, v: Value, path: seq<Step>, sight: Sight)
    ensures Seen(Project(f, v), path, sight) <==> Seen(v, path, sight) && Selects(f, path, sight)
    decreases |path|
  {
    TakesNothingIsNotAllowed(f);
    if TakesAll(f) {
      AllowAllProjectsToItself(f, v);
    } else if path == [] {
      hide ProjectMembers, ProjectElems;
    } else {
      match path[0]
      case Key(name) => MemberShows(f, v, path, sight, name);
      case Index(i) => ElementShows(f, v, path, sight, i);
    }
  }

  lemma {:induction false} ElementShows(f: Value, v: Value, path: seq<Step>, sight: Sight, i: nat)
    requires path != [] && path[0] == Index(i) && !TakesAll(f) && !IsTrue(f)
    ensures Seen(Project(f, v), path, sight) <==> Seen(v, path, sight) && Selects(f, path, sight)
    decreases |path|, 0
  {
    hide ProjectMembers, ProjectElems;
    if v.Arr? && f.Arr? {
      NoMembers(f);
      var sub := ElementFilter(f);
      TakesNothingIsNotAllowed(sub);
      ProjectedElem(sub, v.elems, i);
      if i < |v.elems| {
        ProjectionShows(sub, v.elems[i], path[1..], sight);
      }
    }
  }

  lemma NoMembers(f: Value)
    requires f.Arr? && !IsTrue(f)
    ensures ElementFilter(f) == if f.elems != [] then f.elems[0] else Null
  {
  }

  lemma {:induction false} MemberShows(f: Value, v: Value, path: seq<Step>, sight: Sight, name: Bytes)
    requires path != [] && path[0] == Key(name) && !TakesAll(f) && !IsTrue(f)
    ensures Seen(Project(f, v), path, sight) <==> Seen(v, path, sight) && Selects(f, path, sight)
    decreases |path|, 0
  {
    hide ProjectMembers, ProjectElems, SubFilter, Decides;
    if v.Obj? && f.Obj? {
      var sub, r := SubFilter(f, name), ProjectMembers(f, v.members);
      TakesNothingIsNotAllowed(sub);
      SelectsByKey(f, path, sight, name);
      forall m | m in v.members && m.key == name
        ensures Seen(Project(sub, m.val), path[1..], sight)
          <==> Seen(m.val, path[1..], sight) && Selects(sub, path[1..], sight)
      {
        ProjectionShows(sub, m.val, path[1..], sight);
      }
      SeenByKey(f, v, path, sight, name);
    }
  }

  lemma SelectsByKey(f: Value, path: seq<Step>, sight: Sight, name: Bytes)
    requires f.Obj? && path != [] && path[0] == Key(name) && !TakesAll(f)
    ensures var sub := SubFilter(f, name);
      Selects(f, path, sight) <==> !TakesNothing(sub) && Selects(sub, path[1..], sight)
  {
    hide SubFilter, Decides;
    var sub := SubFilter(f, name);
    DecidesIsSubFilter(f, name, sub);
    if Selects(f, path, sight) {
      var next :| Decides(f.members, name, next) && !TakesNothing(next) && Selects(next, path[1..], sight);
      DecidesIsSubFilter(f, name, next);
    }
  }

  /** The member seen through the filter, and the member it comes from. */
  lemma SeenByKey(f: Value, v: Value, path: seq<Step>, sight: Sight, name: Bytes)
    requires v.Obj? && f.Obj? && path != [] && path[0] == Key(name)
    ensures Seen(Project(f, v), path, sight) <==>
      var sub := SubFilter(f, name);
      Allow(sub) && exists m :: m in v.members && m.key == name && Seen(Project(sub, m.val), path[1..], sight)
  {
    hide ProjectMembers, SubFilter, Allow;
    var sub, r := SubFilter(f, name), ProjectMembers(f, v.members);
    assert Project(f, v) == Obj(r);
    if Seen(Project(f, v), path, sight) {
      var p :| p in r && p.key == name && Seen(p.val, path[1..], sight);
      ProjectedMember(f, v.members, p);
    }
    if Allow(sub) && exists m :: m in v.members && m.key == name && Seen(Project(sub, m.val), path[1..], sight) {
      var m :| m in v.members && m.key == name && Seen(Project(sub, m.val), path[1..], sight);
      var p := Member(name, Project(sub, m.val));
      ProjectedMember(f, v.members, p);
      assert p in r;
    }
  }

  /** Every accepted text, every filter, every path: what is seen of the filtered result is what
      is seen of the whole one and is selected, if no key is repeated, or no array or object is
      hidden by a later value of another kind under its key. */
  lemma ParsedSelection(s: Bytes, f: Value, limit: nat, path: seq<Step>, sight: Sight)
    requires Parse(s, Bool(true), limit).Ok? && Reading(s, limit).Ok?
    requires UniqueKeys(Reading(s, limit).val) || Kindly(Reading(s, limit).val)
    ensures Parse(s, f, limit).Ok?
    ensures Seen(Parse(s, f, limit).val, path, sight) <==>
      Seen(Parse(s, Bool(true), limit).val, path, sight) && Selects(f, path, sight)
  {
    hide Parse, Project, Seen, Selects, UniqueKeys, Kindly, Reading;
    CommutesExactly(s, limit);
    ProjectionShows(f, Parse(s, Bool(true), limit).val, path, sight);
  }

  // ---- Depth ----

  /** An array or an object is seen at the end of the path. */
  ghost predicate IsNestedAt(v: Value, path: seq<Step>) { Seen(v, path, AnArray) || Seen(v, path, AnObject) }

  /** The nesting of a value is the length of the longest way down to an array or object, that one
      included. */
  lemma {:induction false} NestingIsDepth(v: Value, n: nat)
    ensures n < Nesting(v) <==> exists path: seq<Step> :: |path| == n && IsNestedAt(v, path)
    decreases n
  {
    if path: seq<Step> :| |path| == n && IsNestedAt(v, path) {
      NestedWay(v, path);
    }
    if n < Nesting(v) {
      var path := WayDown(v, n);
    }
  }

  lemma {:induction false} NestedWay(v: Value, path: seq<Step>)
    requires IsNestedAt(v, path)
    ensures |path| < Nesting(v)
    decreases |path|
  {
    if path != [] {
      match path[0]
      case Key(name) =>
        var m :| m in v.members && m.key == name && IsNestedAt(m.val, path[1..]);
        NestedWay(m.val, path[1..]);
        var i :| 0 <= i < |v.members| && v.members[i] == m;
        MemberNesting(v.members, i);
      case Index(i) =>
        NestedWay(v.elems[i], path[1..]);
        ElemNesting(v.elems, i);
    }
  }

  lemma {:induction false} ElemNesting(es: seq<Value>, i: nat)
    requires i < |es|
    ensures Nesting(es[i]) <= NestingOfElems(es)
    decreases |es|
  {
    if i > 0 {
      ElemNesting(es[1..], i - 1);
    }
  }

  lemma {:induction false} MemberNesting(ms: seq<Member>, i: nat)
    requires i < |ms|
    ensures Nesting(ms[i].val) <= NestingOfMembers(ms)
    decreases |ms|
  {
    if i > 0 {
      MemberNesting(ms[1..], i - 1);
    }
  }

  lemma {:induction false} WayDown(v: Value, n: nat) returns (path: seq<Step>)
    requires n < Nesting(v)
    ensures |path| == n && IsNestedAt(v, path)
    decreases n
  {
    if n == 0 {
      path := [];
    } else {
      match v
      case Arr(es) =>
        var i := DeepestElem(es);
        var rest := WayDown(es[i], n - 1);
        path := [Index(i)] + rest;
        assert path[1..] == rest;
      case Obj(ms) =>
        var i := DeepestMember(ms);
        var rest := WayDown(ms[i].val, n - 1);
        path := [Key(ms[i].key)] + rest;
        assert path[1..] == rest;
        assert ms[i] in ms;
    }
  }

  lemma {:induction false} DeepestElem(es: seq<Value>) returns (i: nat)
    requires NestingOfElems(es) > 0
    ensures i < |es| && Nesting(es[i]) == NestingOfElems(es)
    decreases |es|
  {
    if Nesting(es[0]) == NestingOfElems(es) {
      i := 0;
    } else {
      i := DeepestElem(es[1..]);
      i := i + 1;
    }
  }

  lemma {:induction false} DeepestMember(ms: seq<Member>) returns (i: nat)
    requires NestingOfMembers(ms) > 0
    ensures i < |ms| && Nesting(ms[i].val) == NestingOfMembers(ms)
    decreases |ms|
  {
    if Nesting(ms[0].val) == NestingOfMembers(ms) {
      i := 0;
    } else {
      i := DeepestMember(ms[1..]);
      i := i + 1;
    }
  }
}
