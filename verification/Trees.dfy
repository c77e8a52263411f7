/** How the trees in memory change: one slot more, one slot fewer, one slot rewritten. */
module Trees {
  import opened Values
  import opened Heap

  predicate IsNested(v: Value) { v.Arr? || v.Obj? }

  /** Child `i'` of `v'` is child `i` of `v`, with the same key. */
  predicate SameChild(v: Value, i: nat, v': Value, i': nat) {
    && IsNested(v) && v.Arr? == v'.Arr? && v.Obj? == v'.Obj?
    && i < Arity(v) && i' < Arity(v')
    && Child(v', i') == Child(v, i) && (v.Obj? ==> v'.members[i'].key == v.members[i].key)
  }

  /** A child keeps its meaning when its own slot changes at most its link. */
  lemma KidFrame(m: Memory, m': Memory, k: Kid, v: Value, i: nat, v': Value, i': nat)
    requires KidDenotes(m, k, v, i) && Keeps(m, m') && SameChild(v, i, v', i')
    requires k.addr in m'.cells
    requires m'.cells[k.addr].content == m.cells[k.addr].content && m'.cells[k.addr].key == m.cells[k.addr].key
    requires forall a :: Owns(k.sub, a) ==> a in m.cells && a in m'.cells && m'.cells[a] == m.cells[a]
    ensures KidDenotes(m', k, v', i')
  {
    DenotesFrame(m, m', m.cells[k.addr].content, k.sub, Child(v, i));
    if v.Obj? {
      KeyStays(m, m', m.cells[k.addr].key, v.members[i].key);
    }
  }

  lemma OwnsAppend(sh: Shape, k: Kid, a: int)
    ensures Owns(Shape(sh.kids + [k]), a) <==> Owns(sh, a) || OwnedBy(k, a)
  {
    var all := sh.kids + [k];
    assert all[|sh.kids|] == k;
    assert forall i :: 0 <= i < |sh.kids| ==> all[i] == sh.kids[i];
    if Owns(sh, a) {
      var i :| 0 <= i < |sh.kids| && OwnedBy(sh.kids[i], a);
      assert OwnedBy(all[i], a);
    }
    if Owns(Shape(all), a) {
      var i :| 0 <= i < |all| && OwnedBy(all[i], a);
      assert i < |sh.kids| ==> OwnedBy(sh.kids[i], a);
    }
  }

  lemma ApartAppend(sh: Shape, k: Kid)
    requires Apart(sh) && Apart(k.sub) && !Owns(k.sub, k.addr)
    requires forall a :: OwnedBy(k, a) ==> !Owns(sh, a)
    ensures Apart(Shape(sh.kids + [k]))
  {
    var all := sh.kids + [k];
    forall i, j, a | 0 <= i < j < |all| && OwnedBy(all[i], a) ensures !OwnedBy(all[j], a) {
      if j == |sh.kids| {
        assert OwnedBy(sh.kids[i], a) && Owns(sh, a);
      }
    }
  }

  lemma OwnsRemove(sh: Shape, at: nat, a: int)
    requires at < |sh.kids| && Owns(Shape(sh.kids[..at] + sh.kids[at + 1..]), a)
    ensures Owns(sh, a)
  {
  }

  lemma ApartRemove(sh: Shape, at: nat)
    requires Apart(sh) && at < |sh.kids|
    ensures Apart(Shape(sh.kids[..at] + sh.kids[at + 1..]))
  {
    var rest := sh.kids[..at] + sh.kids[at + 1..];
    assert forall i :: 0 <= i < |rest| ==> rest[i] == sh.kids[if i < at then i else i + 1];
  }

  lemma OwnsReplace(sh: Shape, at: nat, sub: Shape, a: int)
    requires at < |sh.kids| && Owns(Shape(sh.kids[at := Kid(sh.kids[at].addr, sub)]), a)
    ensures Owns(sh, a) || Owns(sub, a)
  {
    var all := sh.kids[at := Kid(sh.kids[at].addr, sub)];
    var i :| 0 <= i < |all| && OwnedBy(all[i], a);
    if i != at || a == sh.kids[at].addr {
      assert OwnedBy(sh.kids[i], a);
    }
  }

  lemma ApartReplace(sh: Shape, at: nat, sub: Shape)
    requires Apart(sh) && Apart(sub) && at < |sh.kids| && !Owns(sub, sh.kids[at].addr)
    requires forall a :: Owns(sub, a) ==> Owns(sh.kids[at].sub, a) || !Owns(sh, a)
    ensures Apart(Shape(sh.kids[at := Kid(sh.kids[at].addr, sub)]))
  {
    var k := Kid(sh.kids[at].addr, sub);
    var all := sh.kids[at := k];
    forall i, a | 0 <= i < |sh.kids| && i != at && OwnedBy(sh.kids[i], a) ensures !OwnedBy(k, a) {
      assert Owns(sh, a);
      OtherKidApart(sh, at, i, a);
    }
  }

  /** A member or element more at the end: `m'` differs from `m` in the new slot, in the
      links of the others, and in slots that are not part of the tree. */
  lemma AppendKid(m: Memory, m': Memory, c: Content, c': Content, sh: Shape, v: Value, slot: int, v': Value)
    requires Tree(m, c, sh, v) && IsNested(v) && Keeps(m, m')
    requires !Owns(sh, slot) && slot in m'.cells && m'.cells[slot].content == NullContent
    requires c'.Collection? && c'.isObject == v.Obj? && Linked(m'.cells, c'.head, c'.tail, Addrs(sh.kids) + [slot])
    requires forall i :: 0 <= i < |sh.kids| ==> SameChild(v, i, v', i)
    requires v.Arr? == v'.Arr? && v.Obj? == v'.Obj?
    requires Arity(v') == Arity(v) + 1 && Child(v', Arity(v)) == Null
    requires ChildKey(m', m'.cells[slot].key, v', Arity(v))
    requires forall a :: Owns(sh, a) ==> OnlyLinkChanged(m, m', sh, a)
    ensures Tree(m', c', Shape(sh.kids + [Kid(slot, LEAF)]), v')
  {
    var k := Kid(slot, LEAF);
    var all := Shape(sh.kids + [k]);
    forall i | 0 <= i < |all.kids| ensures KidDenotes(m', all.kids[i], v', i) {
      if i < |sh.kids| {
        KidStays(m, m', c, sh, v, i, v', i);
      }
    }
    assert Addrs(all.kids) == Addrs(sh.kids) + [slot];
    forall a | OwnedBy(k, a) ensures !Owns(sh, a) {
      assert !Owns(LEAF, a);
    }
    ApartAppend(sh, k);
  }

  /** Slots of a tree that keep everything, or, directly below its root, all but the link. */
  ghost predicate OnlyLinkChanged(m: Memory, m': Memory, sh: Shape, a: int) {
    && a in m.cells && a in m'.cells
    && m'.cells[a] == m.cells[a].(next := m'.cells[a].next)
    && (a !in Addrs(sh.kids) ==> m'.cells[a] == m.cells[a])
  }

  lemma KidStays(m: Memory, m': Memory, c: Content, sh: Shape, v: Value, i: nat, v': Value, i': nat)
    requires Tree(m, c, sh, v) && IsNested(v) && Keeps(m, m') && i < |sh.kids| && SameChild(v, i, v', i')
    requires forall a :: OwnedBy(sh.kids[i], a) ==> OnlyLinkChanged(m, m', sh, a)
    ensures KidDenotes(m', sh.kids[i], v', i')
  {
    var k := sh.kids[i];
    assert KidDenotes(m, k, v, i);
    assert OwnedBy(k, k.addr);
    forall a | Owns(k.sub, a) ensures a in m.cells && a in m'.cells && m'.cells[a] == m.cells[a] {
      assert OwnedBy(k, a);
      SubNotDirect(sh, i, a);
    }
    KidFrame(m, m', k, v, i, v', i');
  }

  lemma OwnedOnce(sh: Shape, i: nat, j: nat, a: int)
    requires Apart(sh) && i < |sh.kids| && j < |sh.kids| && i != j
    ensures !(OwnedBy(sh.kids[i], a) && OwnedBy(sh.kids[j], a))
  {
  }

  lemma SubNotDirect(sh: Shape, i: nat, a: int)
    requires Apart(sh) && i < |sh.kids| && Owns(sh.kids[i].sub, a)
    ensures a !in Addrs(sh.kids)
  {
    assert OwnedBy(sh.kids[i], a);
    forall j | 0 <= j < |sh.kids| ensures Addrs(sh.kids)[j] != a {
      if i != j {
        OwnedOnce(sh, i, j, a);
      }
    }
  }

  /** An array or object without element or member number `at`. */
  function Without(v: Value, at: nat): Value
    requires IsNested(v) && at < Arity(v)
  {
    if v.Arr? then Arr(v.elems[..at] + v.elems[at + 1..]) else Obj(v.members[..at] + v.members[at + 1..])
  }

  lemma ChildWithout(v: Value, at: nat, i: nat)
    requires IsNested(v) && at < Arity(v) && i < Arity(v) - 1
    ensures Arity(Without(v, at)) == Arity(v) - 1
    ensures SameChild(v, if i < at then i else i + 1, Without(v, at), i)
  {
  }

  /** Removing member or element number `at`. */
  lemma RemoveKid(m: Memory, m': Memory, c: Content, c': Content, sh: Shape, v: Value, at: nat)
    requires Tree(m, c, sh, v) && IsNested(v) && Keeps(m, m') && at < |sh.kids|
    requires c'.Collection? && c'.isObject == v.Obj?
    requires Linked(m'.cells, c'.head, c'.tail, Addrs(sh.kids)[..at] + Addrs(sh.kids)[at + 1..])
    requires forall a :: Owns(sh, a) ==> OnlyLinkChanged(m, m', sh, a)
    ensures Tree(m', c', Shape(sh.kids[..at] + sh.kids[at + 1..]), Without(v, at))
  {
    hide KidDenotes, SameChild, OnlyLinkChanged, Keeps, Apart, Linked;
    var rest := Shape(sh.kids[..at] + sh.kids[at + 1..]);
    forall i | 0 <= i < |rest.kids| ensures KidDenotes(m', rest.kids[i], Without(v, at), i) {
      var j := if i < at then i else i + 1;
      assert rest.kids[i] == sh.kids[j];
      ChildWithout(v, at, i);
      assert forall a :: OwnedBy(sh.kids[j], a) ==> Owns(sh, a);
      KidStays(m, m', c, sh, v, j, Without(v, at), i);
    }
    assert Addrs(rest.kids) == Addrs(sh.kids)[..at] + Addrs(sh.kids)[at + 1..];
    ApartRemove(sh, at);
  }

  /** Rewriting the content of one child, over slots of its own or new ones. */
  lemma ReplaceKid(m: Memory, m': Memory, c: Content, sh: Shape, v: Value, at: nat, sub: Shape, v': Value)
    requires Tree(m, c, sh, v) && IsNested(v) && Keeps(m, m') && at < |sh.kids|
    requires v.Arr? == v'.Arr? && v.Obj? == v'.Obj? && Arity(v') == Arity(v)
    requires forall i :: 0 <= i < |sh.kids| && i != at ==> SameChild(v, i, v', i)
    requires v.Obj? ==> v'.members[at].key == v.members[at].key
    requires var a := sh.kids[at].addr;
      a in m'.cells && m'.cells[a] == m.cells[a].(content := m'.cells[a].content)
      && !Owns(sub, a) && Tree(m', m'.cells[a].content, sub, Child(v', at))
    requires forall a :: Owns(sh, a) && a != sh.kids[at].addr && !Owns(sh.kids[at].sub, a) ==>
      a in m'.cells && a in m.cells && m'.cells[a] == m.cells[a]
    requires forall a :: Owns(sub, a) ==> Owns(sh.kids[at].sub, a) || !Owns(sh, a)
    ensures Tree(m', c, Shape(sh.kids[at := Kid(sh.kids[at].addr, sub)]), v')
  {
    hide Keeps;
    var all := Shape(sh.kids[at := Kid(sh.kids[at].addr, sub)]);
    forall i | 0 <= i < |all.kids| ensures KidDenotes(m', all.kids[i], v', i) {
      assert KidDenotes(m, sh.kids[i], v, i);
      if i == at {
        if v.Obj? {
          KeyStays(m, m', m.cells[sh.kids[at].addr].key, v.members[at].key);
        }
      } else {
        OtherKidStays(m, m', c, sh, v, at, i, v');
      }
    }
    assert Addrs(all.kids) == Addrs(sh.kids);
    forall i | 0 <= i < |sh.kids|
      ensures sh.kids[i].addr in m'.cells && m'.cells[sh.kids[i].addr].next == m.cells[sh.kids[i].addr].next
    {
      assert KidDenotes(m, sh.kids[i], v, i) && KidDenotes(m', all.kids[i], v', i);
      if i != at {
        OtherKidApart(sh, at, i, sh.kids[i].addr);
      }
    }
    LinkedSame(m.cells, m'.cells, c.head, c.tail, Addrs(sh.kids));
    ApartReplace(sh, at, sub);
  }

  lemma OtherKidApart(sh: Shape, at: nat, i: nat, a: int)
    requires Apart(sh) && at < |sh.kids| && i < |sh.kids| && i != at && OwnedBy(sh.kids[i], a)
    ensures Owns(sh, a) && !OwnedBy(sh.kids[at], a)
  {
  }

  lemma OtherKidStays(m: Memory, m': Memory, c: Content, sh: Shape, v: Value, at: nat, i: nat, v': Value)
    requires Tree(m, c, sh, v) && Keeps(m, m') && at < |sh.kids| && i < |sh.kids| && i != at && SameChild(v, i, v', i)
    requires forall a :: Owns(sh, a) && a != sh.kids[at].addr && !Owns(sh.kids[at].sub, a) ==>
      a in m'.cells && a in m.cells && m'.cells[a] == m.cells[a]
    ensures KidDenotes(m', sh.kids[i], v', i)
  {
    var k := sh.kids[i];
    assert KidDenotes(m, k, v, i);
    forall a | OwnedBy(k, a) ensures a in m.cells && a in m'.cells && m'.cells[a] == m.cells[a] {
      OtherKidApart(sh, at, i, a);
    }
    assert OwnedBy(k, k.addr);
    KidFrame(m, m', k, v, i, v', i);
  }
}
