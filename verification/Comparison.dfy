/** operator== over the slots of two pools, which may be one. */
module Comparison {
  import opened Values
  import opened Heap
  import opened Pool
  import opened Trees
  import opened Collections
  import opened Equality

  // ---- A variant denotes one value ----

  lemma {:induction false} DenotesOneValue(m: Memory, c: Content, sh: Shape, v: Value, sh': Shape, v': Value)
    requires Denotes(m, c, sh, v) && Denotes(m, c, sh', v')
    ensures v == v' && sh == sh'
    decreases sh
  {
    if IsNested(v) {
      LinkedIsUnique(m.cells, c.head, c.tail, c.tail, Addrs(sh.kids), Addrs(sh'.kids));
      forall i | 0 <= i < |sh.kids| ensures sh.kids[i] == sh'.kids[i] && Child(v, i) == Child(v', i)
        && (v.Obj? ==> v.members[i].key == v'.members[i].key)
      {
        KidDenotesOne(m, sh.kids[i], v, sh'.kids[i], v', i) by {
          assert Addrs(sh.kids)[i] == Addrs(sh'.kids)[i];
        }
      }
      assert sh.kids == sh'.kids;
      SameChildren(v, v');
    } else if v.Str? && c.OwnedString? {
      assert v.s == m.chars[c.data - m.begin..c.data - m.begin + c.size] == v'.s;
    }
  }

  lemma SameChildren(v: Value, v': Value)
    requires IsNested(v) && v.Arr? == v'.Arr? && v.Obj? == v'.Obj? && Arity(v) == Arity(v')
    requires forall i :: 0 <= i < Arity(v) ==>
      Child(v, i) == Child(v', i) && (v.Obj? ==> v.members[i].key == v'.members[i].key)
    ensures v == v'
  {
    if v.Arr? {
      assert forall i :: 0 <= i < |v.elems| ==> Child(v, i) == v.elems[i] && Child(v', i) == v'.elems[i];
      assert v.elems == v'.elems;
    } else {
      assert forall i :: 0 <= i < |v.members| ==>
        v.members[i] == Member(v.members[i].key, Child(v, i))
          && v'.members[i] == Member(v'.members[i].key, Child(v', i));
      assert v.members == v'.members;
    }
  }

  lemma KidDenotesOne(m: Memory, k: Kid, v: Value, k': Kid, v': Value, i: nat)
    requires KidDenotes(m, k, v, i) && KidDenotes(m, k', v', i) && k.addr == k'.addr
    requires IsNested(v) && v.Arr? == v'.Arr? && v.Obj? == v'.Obj?
    ensures k == k' && Child(v, i) == Child(v', i)
    ensures v.Obj? ==> v.members[i].key == v'.members[i].key
    decreases k
  {
    DenotesOneValue(m, m.cells[k.addr].content, k.sub, Child(v, i), k'.sub, Child(v', i));
    var key := m.cells[k.addr].key;
    if v.Obj? && key.OwnedKey? {
      CStringIsUnique(m, key.at, v.members[i].key, v'.members[i].key);
    }
  }

  // ---- Two variants of one pool ----

  /** Walking down from two variants side by side, level by level, never comes to one slot on
      both sides. */
  ghost predicate NeverMeet(a: Kid, b: Kid)
    decreases a
  {
    && a.addr != b.addr
    && forall i, j :: 0 <= i < |a.sub.kids| && 0 <= j < |b.sub.kids| ==> NeverMeet(a.sub.kids[i], b.sub.kids[j])
  }

  /** A way down a tree, by the index at each level. */
  ghost predicate IsPath(k: Kid, p: seq<nat>)
    decreases |p|
  {
    p == [] || (p[0] < |k.sub.kids| && IsPath(k.sub.kids[p[0]], p[1..]))
  }

  ghost function At(k: Kid, p: seq<nat>): Kid
    requires IsPath(k, p)
    decreases |p|
  {
    if p == [] then k else At(k.sub.kids[p[0]], p[1..])
  }

  lemma {:induction false} OneMoreStep(k: Kid, p: seq<nat>, i: nat)
    requires IsPath(k, p) && i < |At(k, p).sub.kids|
    ensures IsPath(k, p + [i]) && At(k, p + [i]) == At(k, p).sub.kids[i]
    decreases |p|
  {
    if p == [] {
      assert [i][1..] == [];
    } else {
      OneMoreStep(k.sub.kids[p[0]], p[1..], i);
      assert (p + [i])[1..] == p[1..] + [i];
    }
  }

  lemma {:induction false} PathIsOwned(k: Kid, p: seq<nat>)
    requires IsPath(k, p)
    ensures OwnedBy(k, At(k, p).addr) && (p != [] ==> Owns(k.sub, At(k, p).addr))
    decreases |p|
  {
    if p != [] {
      PathIsOwned(k.sub.kids[p[0]], p[1..]);
    }
  }

  lemma {:induction false} PathsAreApart(k: Kid, p: seq<nat>, q: seq<nat>)
    requires Apart(k.sub) && !Owns(k.sub, k.addr) && IsPath(k, p) && IsPath(k, q) && p != q
    ensures At(k, p).addr != At(k, q).addr
    decreases |p|
  {
    PathIsOwned(k, p);
    PathIsOwned(k, q);
    if p != [] && q != [] {
      if p[0] == q[0] {
        PathsAreApart(k.sub.kids[p[0]], p[1..], q[1..]);
      } else {
        PathIsOwned(k.sub.kids[p[0]], p[1..]);
        PathIsOwned(k.sub.kids[q[0]], q[1..]);
      }
    }
  }

  /** Two different variants of one tree, beside each other or one inside the other, never meet. */
  lemma {:induction false} TreeNeverMeets(k: Kid, p: seq<nat>, q: seq<nat>)
    requires Apart(k.sub) && !Owns(k.sub, k.addr) && IsPath(k, p) && IsPath(k, q) && p != q
    ensures NeverMeet(At(k, p), At(k, q))
    decreases At(k, p)
  {
    hide Apart, Owns, IsPath;
    PathsAreApart(k, p, q);
    var a, b := At(k, p), At(k, q);
    forall i, j | 0 <= i < |a.sub.kids| && 0 <= j < |b.sub.kids| ensures NeverMeet(a.sub.kids[i], b.sub.kids[j]) {
      OneMoreStep(k, p, i);
      OneMoreStep(k, q, j);
      assert p + [i] != q + [j] by {
        assert (p + [i])[..|p|] == p && (q + [j])[..|q|] == q;
      }
      TreeNeverMeets(k, p + [i], q + [j]);
    }
  }

  // ---- Comparison ----

  /** One and the same collection of one pool. */
  predicate SameCollection(lp: MemoryPool, l: int, rp: MemoryPool, r: int, v: Value) {
    lp == rp && l == r && IsNested(v)
  }

  /** The two variants may be compared: they have no floats, and in one pool they are the same
      or never meet, as any two of one document. */
  ghost predicate Comparable(lp: MemoryPool, l: int, ls: Shape, v: Value, rp: MemoryPool, r: int, rs: Shape, w: Value) {
    FloatFree(v) && FloatFree(w) && (lp == rp ==> l == r || NeverMeet(Kid(l, ls), Kid(r, rs)))
  }

  /** Any two variants of one document may be compared. */
  lemma OneDocument(pool: MemoryPool, root: int, sh: Shape, v: Value, p: seq<nat>, q: seq<nat>, a: Value, b: Value)
    requires pool.Valid() && Holds(pool, root, sh, v) && IsPath(Kid(root, sh), p) && IsPath(Kid(root, sh), q)
    requires FloatFree(a) && FloatFree(b)
    ensures var k, k' := At(Kid(root, sh), p), At(Kid(root, sh), q);
      Comparable(pool, k.addr, k.sub, a, pool, k'.addr, k'.sub, b)
  {
    if p != q {
      TreeNeverMeets(Kid(root, sh), p, q);
    }
  }

  lemma ComparableElems(lp: MemoryPool, l: int, ls: Shape, es: seq<Value>,
                        rp: MemoryPool, r: int, rs: Shape, fs: seq<Value>, i: nat)
    requires Comparable(lp, l, ls, Arr(es), rp, r, rs, Arr(fs)) && !(lp == rp && l == r)
    requires i < |es| && i < |fs| && i < |ls.kids| && i < |rs.kids|
    ensures var a, b := ls.kids[i], rs.kids[i];
      Comparable(lp, a.addr, a.sub, es[i], rp, b.addr, b.sub, fs[i]) && !(lp == rp && a.addr == b.addr)
  {
    assert lp == rp ==> NeverMeet(Kid(l, ls).sub.kids[i], Kid(r, rs).sub.kids[i]);
  }

  lemma ComparableMembers(lp: MemoryPool, l: int, ls: Shape, ms: seq<Member>,
                          rp: MemoryPool, r: int, rs: Shape, ns: seq<Member>, i: nat, j: nat)
    requires Comparable(lp, l, ls, Obj(ms), rp, r, rs, Obj(ns)) && !(lp == rp && l == r)
    requires i < |ms| && j < |ns| && i < |ls.kids| && j < |rs.kids|
    ensures var a, b := ls.kids[i], rs.kids[j];
      Comparable(lp, a.addr, a.sub, ms[i].val, rp, b.addr, b.sub, ns[j].val) && !(lp == rp && a.addr == b.addr)
  {
    assert lp == rp ==> NeverMeet(Kid(l, ls).sub.kids[i], Kid(r, rs).sub.kids[j]);
  }

  /** One and the same collection compares equal at once; looking at what is in it would say
      the same exactly when it is reversible with itself. */
  lemma ShortcutAgrees(pool: MemoryPool, at: int, ls: Shape, v: Value, rs: Shape, w: Value)
    requires pool.Valid() && Holds(pool, at, ls, v) && Holds(pool, at, rs, w) && FloatFree(v)
    ensures v == w && (Compare(v, w) == Equal <==> Reversible(v, v))
  {
    hide Compare, Reversible, Linked, Apart, MemoryPool.Valid;
    DenotesOneValue(pool.Mem(), pool.cells[at].content, ls, v, rs, w);
    EqualsItself(v);
  }

  /** compare, on two variants. */
  method CompareVariants(lp: MemoryPool, l: int, rp: MemoryPool, r: int, ghost ls: Shape, ghost v: Value,
                         ghost rs: Shape, ghost w: Value)
    returns (result: CompareResult)
    requires lp.Valid() && rp.Valid() && Holds(lp, l, ls, v) && Holds(rp, r, rs, w)
    requires Comparable(lp, l, ls, v, rp, r, rs, w)
    ensures result == if SameCollection(lp, l, rp, r, v) then Equal else Compare(v, w)
    decreases Nesting(v) + Nesting(w), 1
  {
    hide MemoryPool.Valid, MemoryPool.Chars, Apart, Linked, KidDenotes, ArraysEqual, ObjectsEqual, NeverMeet;
    var c, d := lp.cells[l].content, rp.cells[r].content;
    if c.Collection? {
      if !d.Collection? || d.isObject != c.isObject {
        return Differ;
      }
      var equal;
      if c.isObject {
        equal := EqualObjects(rp, r, lp, l, rs, w.members, ls, v.members);
      } else {
        equal := EqualArrays(rp, r, lp, l, rs, w.elems, ls, v.elems);
      }
      return if equal then Equal else Differ;
    }
    result := CompareScalars(lp, c, rp, d, ls, v, rs, w);
  }

  method CompareScalars(lp: MemoryPool, c: Content, rp: MemoryPool, d: Content, ghost ls: Shape, ghost v: Value,
                        ghost rs: Shape, ghost w: Value)
    returns (result: CompareResult)
    requires lp.Valid() && rp.Valid() && Denotes(lp.Mem(), c, ls, v) && Denotes(rp.Mem(), d, rs, w)
    requires !IsNested(v) && FloatFree(v) && FloatFree(w)
    ensures result == Compare(v, w)
  {
    hide MemoryPool.Valid, MemoryPool.Chars, StringAt, Linked, KidDenotes, StringCompare, ArithmeticCompare;
    if c.NullContent? {
      return if d.NullContent? then Equal else Differ;
    } else if c.OwnedString? || c.LinkedString? {
      if !d.OwnedString? && !d.LinkedString? {
        return Differ;
      }
      var s := ReadText(lp, c, ls, v.s);
      var t := ReadText(rp, d, rs, w.s);
      return Reversed(StringResult(StringCompare(CStr(s), t, 0)));
    } else {
      if !d.BoolContent? && !d.IntContent? {
        return Differ;
      }
      NumbersAreOrdered(v, w);
      ArithmeticCompareIsExact(Visited(ContentNumber(d)), ContentNumber(c));
      return Reversed(ArithmeticCompare(Visited(ContentNumber(d)), ContentNumber(c)));
    }
  }

  /** A stored number, signed or unsigned as its type says. */
  function ContentNumber(c: Content): Number
    requires c.BoolContent? || c.IntContent?
  {
    if c.BoolContent? then Boolean(c.b) else if c.signed then Signed(c.n) else Unsigned(c.n)
  }

  /** operator== on arrays. */
  method EqualArrays(xp: MemoryPool, x: int, yp: MemoryPool, y: int, ghost xs: Shape, ghost es: seq<Value>,
                     ghost ys: Shape, ghost fs: seq<Value>)
    returns (equal: bool)
    requires xp.Valid() && yp.Valid() && Holds(xp, x, xs, Arr(es)) && Holds(yp, y, ys, Arr(fs))
    requires Comparable(yp, y, ys, Arr(fs), xp, x, xs, Arr(es))
    ensures equal <==> (xp == yp && x == y) || ArraysEqual(es, fs)
    decreases NestingOfElems(es) + NestingOfElems(fs), 2
  {
    hide MemoryPool.Valid, MemoryPool.Chars, Tree, Compare, ArraysEqual, NeverMeet;
    if xp == yp && x == y {
      return true;
    }
    HeldHead(xp, x, xs, Arr(es));
    HeldHead(yp, y, ys, Arr(fs));
    ArraysEqualAll(es, fs);
    var it1, it2 := xp.cells[x].content.head, yp.cells[y].content.head;
    ghost var i := 0;
    while true
      invariant 0 <= i <= |es| && i <= |fs|
      invariant it1 == (if i < |es| then xs.kids[i].addr else NULL)
        && it2 == (if i < |fs| then ys.kids[i].addr else NULL)
      invariant forall k :: 0 <= k < i ==> Compare(fs[k], es[k]) == Equal
      decreases |es| - i
    {
      if i < |es| {
        HeldSlot(xp, x, xs, Arr(es), i);
      }
      if i < |fs| {
        HeldSlot(yp, y, ys, Arr(fs), i);
      }
      if it1 == NULL && it2 == NULL {
        return true;
      }
      if it1 == NULL || it2 == NULL {
        return false;
      }
      NestingOfElem(es, i);
      NestingOfElem(fs, i);
      ComparableElems(yp, y, ys, fs, xp, x, xs, es, i);
      var result := CompareVariants(yp, it2, xp, it1, ys.kids[i].sub, fs[i], xs.kids[i].sub, es[i]);
      if result != Equal {
        return false;
      }
      it1, it2 := NextOf(it1, xp.cells[it1]), NextOf(it2, yp.cells[it2]);
      i := i + 1;
    }
  }

  /** operator== on objects. */
  method EqualObjects(xp: MemoryPool, x: int, yp: MemoryPool, y: int, ghost xs: Shape, ghost ms: seq<Member>,
                      ghost ys: Shape, ghost ns: seq<Member>)
    returns (equal: bool)
    requires xp.Valid() && yp.Valid() && Holds(xp, x, xs, Obj(ms)) && Holds(yp, y, ys, Obj(ns))
    requires Comparable(yp, y, ys, Obj(ns), xp, x, xs, Obj(ms))
    ensures equal <==> (xp == yp && x == y) || ObjectsEqual(ms, ns)
    decreases NestingOfMembers(ms) + NestingOfMembers(ns), 3
  {
    hide MemoryPool.Valid, MemoryPool.Chars, Tree, Compare, MembersMatch, NeverMeet;
    if xp == yp && x == y {
      return true;
    }
    HeldHead(xp, x, xs, Obj(ms));
    MembersMatchAll(ms, ns);
    var it := xp.cells[x].content.head;
    var count := 0;
    while it != NULL
      invariant 0 <= count <= |ms| && it == if count < |ms| then xs.kids[count].addr else NULL
      invariant forall k :: 0 <= k < count ==> Compare(Lookup(ns, ms[k].key), ms[k].val) == Equal
      decreases |ms| - count
    {
      HeldSlot(xp, x, xs, Obj(ms), count);
      var key := ReadKey(xp, xp.cells[it].key, ms[count].key);
      var result := CompareMember(xp, x, it, yp, y, key, xs, ms, ys, ns, count);
      if result != Equal {
        return false;
      }
      it := NextOf(it, xp.cells[it]);
      count := count + 1;
    }
    if count < |ms| {
      HeldSlot(xp, x, xs, Obj(ms), count);
    }
    var size := Size(yp, y, ys, Obj(ns));
    return count == size;
  }

  /** What the other object has under the key of a member, against the member; an absent one
      is null. */
  method CompareMember(xp: MemoryPool, ghost x: int, it: int, yp: MemoryPool, y: int, key: Bytes, ghost xs: Shape,
                       ghost ms: seq<Member>, ghost ys: Shape, ghost ns: seq<Member>, ghost i: nat)
    returns (result: CompareResult)
    requires xp.Valid() && yp.Valid() && Holds(yp, y, ys, Obj(ns)) && !(xp == yp && x == y)
    requires Comparable(yp, y, ys, Obj(ns), xp, x, xs, Obj(ms))
    requires i < |ms| && i < |xs.kids| && xs.kids[i].addr == it
    requires key == ms[i].key && Holds(xp, it, xs.kids[i].sub, ms[i].val)
    ensures FloatFree(Lookup(ns, key)) && result == Compare(Lookup(ns, key), ms[i].val)
    decreases NestingOfMembers(ms) + NestingOfMembers(ns), 2
  {
    hide MemoryPool.Valid, MemoryPool.Chars, Apart, Linked, KidDenotes, ArraysEqual, ObjectsEqual, NeverMeet;
    var slot := GetMember(yp, y, key, ys, ns);
    NestingOfMember(ms, i);
    NestingOfLookup(ns, key);
    ghost var j := Find(ns, key);
    if j < |ns| {
      HeldSlot(yp, y, ys, Obj(ns), j);
    }
    if slot == NULL {
      return if xp.cells[it].content.NullContent? then Equal else Differ;
    }
    ComparableMembers(yp, y, ys, ns, xp, x, xs, ms, j, i);
    result := CompareVariants(yp, slot, xp, it, ys.kids[j].sub, Lookup(ns, key), xs.kids[i].sub, ms[i].val);
  }
}
