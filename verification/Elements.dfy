/** Arrays and objects as their callers use them: elements and members added, found or
    padded, and removed. */
module Elements {
  import opened Values
  import opened Heap
  import opened Pool
  import opened Trees
  import opened Collections

  // ---- What an operation leaves alone ----

  /** Between two states, the collection at `owner` was edited, from `sh` to `after`: saved
      strings stay; of the older slots only the owner's ends and the links of its own
      children changed; and what it owns now it owned before, or is new. */
  ghost predicate Edited(m: Memory, m': Memory, owner: int, sh: Shape, after: Shape) {
    && Keeps(m, m') && OnlyLinks(m.cells, m'.cells, owner, set a | a in Addrs(sh.kids))
    && OwnsNew(after, sh, m.cells)
  }

  lemma NothingEdited(m: Memory, owner: int, sh: Shape)
    requires owner in m.cells && m.cells[owner].content.Collection?
    ensures Edited(m, m, owner, sh, sh)
  {
  }

  /** One edit after another, when the children in between were there before or are new. */
  lemma EditedTwice(m: Memory, m': Memory, m'': Memory, owner: int, sh: Shape, mid: Shape, after: Shape)
    requires Edited(m, m', owner, sh, mid) && Edited(m', m'', owner, mid, after)
    requires forall a :: a in Addrs(mid.kids) ==> a in Addrs(sh.kids) || a !in m.cells
    ensures Edited(m, m'', owner, sh, after)
  {
    hide Owns;
    forall a | Owns(after, a) && a in m.cells ensures Owns(sh, a) {
      assert a == owner || a in m'.cells;
    }
  }

  lemma AddedIsEdit(m: Memory, m': Memory, owner: int, sh: Shape, slot: int)
    requires Keeps(m, m') && OnlyLinks(m.cells, m'.cells, owner, set a | a in Addrs(sh.kids)) && slot !in m.cells
    ensures Edited(m, m', owner, sh, Shape(sh.kids + [Kid(slot, LEAF)]))
  {
    forall a | Owns(Shape(sh.kids + [Kid(slot, LEAF)]), a) ensures Owns(sh, a) || a !in m.cells {
      OwnsAppend(sh, Kid(slot, LEAF), a);
      assert !Owns(LEAF, a);
    }
  }

  /** A value in the same pool that has no slot in common with the edited collection keeps its
      meaning. */
  lemma OthersStay(pool: MemoryPool, m: Memory, owner: int, sh: Shape, after: Shape, other: int, so: Shape, w: Value)
    requires pool.Valid() && Edited(m, pool.Mem(), owner, sh, after)
    requires other in m.cells && !Owns(so, other) && Tree(m, m.cells[other].content, so, w)
    requires forall a :: a == other || Owns(so, a) ==> a != owner && a !in Addrs(sh.kids)
    ensures Holds(pool, other, so, w)
  {
    hide Denotes, Apart;
    forall a | Owns(so, a) ensures a in m.cells && a in pool.cells && pool.cells[a] == m.cells[a] {
      OwnedAreCells(m, m.cells[other].content, so, w, a);
    }
    DenotesFrame(m, pool.Mem(), m.cells[other].content, so, w);
  }

  /** A collection nested in another one may be edited in place: around it, the outer value
      stays. */
  lemma NestedEdit(pool: MemoryPool, m: Memory, owner: int, sh: Shape, v: Value, at: nat, after: Shape, child: Value)
    requires pool.Valid() && owner in m.cells && !Owns(sh, owner) && Tree(m, m.cells[owner].content, sh, v)
    requires IsNested(v) && at < |sh.kids| && |sh.kids| == Arity(v)
    requires Edited(m, pool.Mem(), sh.kids[at].addr, sh.kids[at].sub, after)
    requires Holds(pool, sh.kids[at].addr, after, child)
    ensures Holds(pool, owner, Shape(sh.kids[at := Kid(sh.kids[at].addr, after)]), WithChild(v, at, child))
  {
    hide Denotes, KidDenotes, Apart;
    var c, slot, inner := m.cells[owner].content, sh.kids[at].addr, sh.kids[at].sub;
    assert OwnedBy(sh.kids[at], slot);
    forall a | Owns(sh, a) ensures a in m.cells {
      OwnedAreCells(m, c, sh, v, a);
    }
    forall a | a in Addrs(inner.kids) ensures Owns(inner, a) {
      ChildIsOwned(inner, a);
    }
    forall a | Owns(inner, a) ensures Owns(sh, a) && a != owner {
      assert OwnedBy(sh.kids[at], a);
    }
    assert forall i :: 0 <= i < |sh.kids| && i != at ==> SameChild(v, i, WithChild(v, at, child), i);
    ReplaceKid(m, pool.Mem(), c, sh, v, at, after, WithChild(v, at, child));
    if Owns(Shape(sh.kids[at := Kid(slot, after)]), owner) {
      OwnsReplace(sh, at, after, owner);
    }
  }

  lemma ChildIsOwned(sh: Shape, a: int)
    requires a in Addrs(sh.kids)
    ensures Owns(sh, a)
  {
    var i :| 0 <= i < |sh.kids| && Addrs(sh.kids)[i] == a;
    assert OwnedBy(sh.kids[i], a);
  }

  // ---- Adding a member ----

  /** addMember: a null member at the end, its key copied into the pool or linked. When
      there is no room, for the slot or for the key, the object keeps its members. */
  method AddMember(pool: MemoryPool, owner: int, text: Bytes, copied: bool, ghost sh: Shape, ghost ms: seq<Member>)
    returns (slot: int)
    requires pool.Valid() && Holds(pool, owner, sh, Obj(ms))
    modifies pool`left, pool`right, pool`overflowed, pool`cells, pool.buf
    ensures pool.Valid() && old(pool.Chars()) <= pool.Chars()
    ensures OnlyLinks(old(pool.cells), pool.cells, owner, set a | a in Addrs(sh.kids))
    ensures slot == NULL ==> pool.overflowed && Holds(pool, owner, sh, Obj(ms))
    ensures slot != NULL ==>
      && pool.overflowed == old(pool.overflowed) && slot !in old(pool.cells)
      && Holds(pool, owner, Shape(sh.kids + [Kid(slot, LEAF)]), Obj(ms + [Member(CStr(text), Null)]))
    ensures slot != NULL ==>
      pool.right == old(pool.right) - SLOT_SIZE && pool.Chars() == KeySaved(old(pool.Chars()), text, copied)
    ensures slot != NULL <==>
      old(Free(pool)) >= SLOT_SIZE + |KeySaved(old(pool.Chars()), text, copied)| - |old(pool.Chars())|
  {
    hide MemoryPool.SlotsLaid, MemoryPool.Chars, Linked, Tree, KeyIs, OnlyLinks;
    HeldIsList(pool, owner, sh, Obj(ms));
    ghost var m, addrs := pool.Mem(), Addrs(sh.kids);
    slot := AddSlot(pool, owner, addrs);
    if slot == NULL {
      NoLinks(pool.cells, owner, set a | a in addrs);
      return;
    }
    ghost var added := pool.cells;
    var key := StoreKey(pool, text, copied);
    if key == NoKey {
      RemoveSlot(pool, owner, slot, addrs + [slot], |addrs|);
      Unlisted(m, added, pool, owner, sh, Obj(ms), slot);
      return NULL;
    }
    SetMemberKey(pool, m, owner, sh, ms, slot, key, text);
  }

  /** storeString for a key: a copy in the pool, or a link; no key when there is no room. */
  method StoreKey(pool: MemoryPool, text: Bytes, copied: bool) returns (key: Key)
    requires pool.Valid()
    modifies pool`left, pool`overflowed, pool.buf
    ensures pool.Valid() && old(pool.Chars()) <= pool.Chars()
    ensures key == NoKey ==> pool.overflowed
    ensures key != NoKey ==>
      && pool.overflowed == old(pool.overflowed) && KeyIs(pool.Mem(), key, CStr(text))
      && pool.Chars() == KeySaved(old(pool.Chars()), text, copied)
    ensures key != NoKey <==> old(Free(pool)) >= |KeySaved(old(pool.Chars()), text, copied)| - |old(pool.Chars())|
  {
    hide MemoryPool.SlotsLaid, Saved;
    if !copied {
      return LinkedKey(text);
    }
    var copy := pool.SaveString(text);
    if copy == NULL {
      return NoKey;
    }
    StringAtIsCString(pool.Mem(), copy, text);
    return OwnedKey(copy);
  }

  /** setKey on the slot just added. */
  method SetMemberKey(pool: MemoryPool, ghost m: Memory, owner: int, ghost sh: Shape, ghost ms: seq<Member>,
                      slot: int, key: Key, ghost text: Bytes)
    requires pool.Valid() && Keeps(m, pool.Mem()) && KeyIs(pool.Mem(), key, CStr(text))
    requires owner in m.cells && !Owns(sh, owner) && Tree(m, m.cells[owner].content, sh, Obj(ms))
    requires slot !in m.cells && slot in pool.cells && slot != owner && pool.cells[slot] == Slot(NullContent, 0, NoKey)
    requires ListAt(pool.cells, owner, Addrs(sh.kids) + [slot])
    requires OnlyLinks(m.cells, pool.cells, owner, set a | a in Addrs(sh.kids))
    modifies pool`cells
    ensures pool.Valid() && pool.Chars() == old(pool.Chars())
    ensures OnlyLinks(m.cells, pool.cells, owner, set a | a in Addrs(sh.kids))
    ensures Holds(pool, owner, Shape(sh.kids + [Kid(slot, LEAF)]), Obj(ms + [Member(CStr(text), Null)]))
  {
    hide MemoryPool.SlotsLaid, MemoryPool.Chars, Linked, Tree, OnlyLinks, StringAt;
    ghost var before, added := pool.Mem(), pool.cells;
    pool.SetKey(slot, key);
    KeyedSlot(m.cells, added, pool.cells, owner, Addrs(sh.kids), slot);
    KeyStays(before, pool.Mem(), key, CStr(text));
    AddedChild(m, pool.Mem(), owner, key, CStr(text), sh, Obj(ms), slot);
  }

  /** The characters after storing a key. */
  ghost function KeySaved(chars: Bytes, text: Bytes, copied: bool): (r: Bytes)
    ensures chars <= r && |r| <= |chars| + if copied then |text| + 1 else 0
  {
    if copied then Save(chars, text) else chars
  }

  lemma NoLinks(cells: map<int, Slot>, owner: int, links: set<int>)
    requires owner in cells && cells[owner].content.Collection?
    ensures OnlyLinks(cells, cells, owner, links)
  {
  }

  /** A slot added and removed again: the object is as it was. */
  lemma Unlisted(m: Memory, added: map<int, Slot>, pool: MemoryPool, owner: int, sh: Shape, v: Value, slot: int)
    requires pool.Valid() && Keeps(m, pool.Mem())
    requires owner in m.cells && !Owns(sh, owner) && Tree(m, m.cells[owner].content, sh, v) && IsNested(v)
    requires slot !in m.cells && OnlyLinks(m.cells, added, owner, set a | a in Addrs(sh.kids))
    requires OnlyLinks(added, pool.cells, owner, set a | a in (Addrs(sh.kids) + [slot])[..|Addrs(sh.kids)|])
    requires ListAt(pool.cells, owner,
      (Addrs(sh.kids) + [slot])[..|Addrs(sh.kids)|] + (Addrs(sh.kids) + [slot])[|Addrs(sh.kids)| + 1..])
    ensures OnlyLinks(m.cells, pool.cells, owner, set a | a in Addrs(sh.kids)) && Holds(pool, owner, sh, v)
  {
    hide MemoryPool.SlotsLaid, Linked, Tree;
    var addrs := Addrs(sh.kids);
    assert (addrs + [slot])[..|addrs|] == addrs;
    assert addrs + (addrs + [slot])[|addrs| + 1..] == addrs;
    Relinked(m, pool.Mem(), owner, sh, v);
  }

  /** A collection whose links changed, but not its list. */
  lemma Relinked(m: Memory, m': Memory, owner: int, sh: Shape, v: Value)
    requires owner in m.cells && !Owns(sh, owner) && Tree(m, m.cells[owner].content, sh, v) && IsNested(v)
    requires Keeps(m, m') && OnlyLinks(m.cells, m'.cells, owner, set a | a in Addrs(sh.kids))
    requires Linked(m'.cells, m'.cells[owner].content.head, m'.cells[owner].content.tail, Addrs(sh.kids))
    ensures Tree(m', m'.cells[owner].content, sh, v)
  {
    hide Linked, KidDenotes;
    var c := m.cells[owner].content;
    forall a | Owns(sh, a) ensures OnlyLinkChanged(m, m', sh, a) {
      OwnedAreCells(m, c, sh, v, a);
    }
    forall i | 0 <= i < |sh.kids| ensures KidDenotes(m', sh.kids[i], v, i) {
      assert forall a :: OwnedBy(sh.kids[i], a) ==> Owns(sh, a);
      KidStays(m, m', c, sh, v, i, v, i);
    }
  }

  /** getOrAddMember: the member of that name, added when there is none. */
  method GetOrAddMember(pool: MemoryPool, owner: int, text: Bytes, copied: bool, ghost sh: Shape, ghost ms: seq<Member>)
    returns (slot: int, ghost after: Shape)
    requires pool.Valid() && Holds(pool, owner, sh, Obj(ms)) && 0 !in text
    modifies pool`left, pool`right, pool`overflowed, pool`cells, pool.buf
    ensures pool.Valid() && Edited(old(pool.Mem()), pool.Mem(), owner, sh, after)
    ensures slot == NULL ==> pool.overflowed && Find(ms, text) == |ms| && after == sh && Holds(pool, owner, sh, Obj(ms))
    ensures slot != NULL ==>
      var ms' := if Find(ms, text) < |ms| then ms else ms + [Member(text, Null)];
      && Holds(pool, owner, after, Obj(ms')) && |after.kids| == |ms'| && after.kids[Find(ms, text)].addr == slot
      && (Find(ms, text) < |ms| ==> pool.cells == old(pool.cells) && pool.left == old(pool.left))
    ensures slot == NULL ==>
      old(Free(pool)) < SLOT_SIZE + |KeySaved(old(pool.Chars()), text, copied)| - |old(pool.Chars())|
  {
    hide MemoryPool.SlotsLaid, MemoryPool.Chars, Tree, OnlyLinks;
    CStrOfNulFree(text);
    after := sh;
    ghost var m := pool.Mem();
    HeldHead(pool, owner, sh, Obj(ms));
    NothingEdited(m, owner, sh);
    slot := GetMember(pool, owner, text, sh, ms);
    if slot != NULL {
      return;
    }
    if Find(ms, text) < |ms| {
      HeldSlot(pool, owner, sh, Obj(ms), Find(ms, text));
    }
    slot := AddMember(pool, owner, text, copied, sh, ms);
    if slot != NULL {
      after := Shape(sh.kids + [Kid(slot, LEAF)]);
      AddedIsEdit(m, pool.Mem(), owner, sh, slot);
    } else {
      assert OwnsNew(sh, sh, m.cells);
    }
  }

  // ---- Elements by index ----

  function Nulls(n: nat): (r: seq<Value>)
    ensures |r| == n && forall i :: 0 <= i < n ==> r[i] == Null
  {
    seq(n, _ => Null)
  }

  /** getOrAddElement: element number `index`, with nulls before it when the array is
      shorter; or NULL when they do not all fit. */
  method GetOrAddElement(pool: MemoryPool, owner: int, index: nat, ghost sh: Shape, ghost es: seq<Value>)
    returns (slot: int, ghost after: Shape, ghost padding: nat)
    requires pool.Valid() && Holds(pool, owner, sh, Arr(es))
    modifies pool`right, pool`overflowed, pool`cells
    ensures pool.Valid() && Holds(pool, owner, after, Arr(es + Nulls(padding))) && |after.kids| == |es| + padding
    ensures Edited(old(pool.Mem()), pool.Mem(), owner, sh, after)
    ensures index < |es| ==> padding == 0 && slot == after.kids[index].addr && pool.cells == old(pool.cells)
    ensures index >= |es| && slot != NULL ==> padding == index + 1 - |es| && slot == after.kids[index].addr
    ensures index >= |es| && slot == NULL ==> padding < index + 1 - |es| && pool.overflowed
    ensures slot == NULL <==> index >= |es| && old(Free(pool)) < SLOT_SIZE * (index + 1 - |es|)
  {
    hide MemoryPool.SlotsLaid, MemoryPool.Chars, Tree, OnlyLinks;
    after, padding := sh, 0;
    assert es + Nulls(0) == es;
    HeldHead(pool, owner, sh, Arr(es));
    NothingEdited(pool.Mem(), owner, sh);
    slot := pool.cells[owner].content.head;
    var left := index;
    ghost var i := 0;
    while slot != NULL && left > 0
      invariant 0 <= i <= |es| && 0 <= left && left + i == index
      invariant slot == if i < |es| then sh.kids[i].addr else NULL
      modifies {}
      decreases left
    {
      HeldSlot(pool, owner, sh, Arr(es), i);
      slot := NextOf(slot, pool.cells[slot]);
      left := left - 1;
      i := i + 1;
    }
    if i < |es| {
      HeldSlot(pool, owner, sh, Arr(es), i);
    }
    if slot == NULL {
      slot, after, padding := AddNulls(pool, owner, left + 1, sh, es);
    }
  }

  /** Adds `count` elements; the slot of the last one, or NULL. */
  method AddNulls(pool: MemoryPool, owner: int, count: nat, ghost sh: Shape, ghost es: seq<Value>)
    returns (slot: int, ghost after: Shape, ghost added: nat)
    requires pool.Valid() && Holds(pool, owner, sh, Arr(es)) && count > 0
    modifies pool`right, pool`overflowed, pool`cells
    ensures pool.Valid() && Holds(pool, owner, after, Arr(es + Nulls(added))) && |after.kids| == |es| + added
    ensures Edited(old(pool.Mem()), pool.Mem(), owner, sh, after)
    ensures slot != NULL ==> added == count && slot == after.kids[|es| + added - 1].addr
    ensures slot == NULL ==> added < count && pool.overflowed
    ensures slot == NULL <==> old(Free(pool)) < SLOT_SIZE * count
  {
    hide MemoryPool.SlotsLaid, MemoryPool.Chars, Tree, OnlyLinks, Owns, Edited;
    after, added, slot := sh, 0, NULL;
    assert es + Nulls(0) == es;
    HeldHead(pool, owner, sh, Arr(es));
    ghost var m := pool.Mem();
    NothingEdited(m, owner, sh);
    var left := count;
    while left > 0
      invariant 0 <= left <= count && pool.Valid() && added <= count - left
      invariant Holds(pool, owner, after, Arr(es + Nulls(added))) && |after.kids| == |es| + added
      invariant Edited(m, pool.Mem(), owner, sh, after)
      invariant forall a :: a in Addrs(after.kids) ==> a in Addrs(sh.kids) || a !in m.cells
      invariant m.cells.Keys <= pool.cells.Keys
      invariant Free(pool) == old(Free(pool)) - SLOT_SIZE * added
      invariant added < count - left ==> slot == NULL && pool.overflowed && Free(pool) < SLOT_SIZE
      invariant left < count && added == count - left ==> slot != NULL && slot == after.kids[|es| + added - 1].addr
    {
      ghost var mid := pool.Mem();
      slot := AddChild(pool, owner, NoKey, [], after, Arr(es + Nulls(added)));
      if slot != NULL {
        AddedIsEdit(mid, pool.Mem(), owner, after, slot);
        EditedTwice(m, mid, pool.Mem(), owner, sh, after, Shape(after.kids + [Kid(slot, LEAF)]));
        assert es + Nulls(added) + [Null] == es + Nulls(added + 1);
        after, added := Shape(after.kids + [Kid(slot, LEAF)]), added + 1;
      }
      left := left - 1;
    }
  }

  // ---- Removing ----

  /** removeSlot on a held collection. */
  method RemoveChild(pool: MemoryPool, owner: int, slot: int, ghost sh: Shape, ghost v: Value, ghost at: nat)
    returns (ghost after: Shape)
    requires pool.Valid() && Holds(pool, owner, sh, v) && IsNested(v)
    requires at < Arity(v) && at < |sh.kids| && sh.kids[at].addr == slot
    modifies pool`cells
    ensures pool.Valid() && pool.Chars() == old(pool.Chars())
    ensures Holds(pool, owner, after, Without(v, at)) && Edited(old(pool.Mem()), pool.Mem(), owner, sh, after)
  {
    hide MemoryPool.SlotsLaid, MemoryPool.Chars, Linked, Denotes, Apart, OnlyLinkChanged, Owns, Edited;
    HeldIsList(pool, owner, sh, v);
    ghost var m := pool.Mem();
    RemoveSlot(pool, owner, slot, Addrs(sh.kids), at);
    after := Shape(sh.kids[..at] + sh.kids[at + 1..]);
    assert forall a :: a in Addrs(sh.kids)[..at] ==> a in Addrs(sh.kids);
    OnlyLinksBelow(m, pool.Mem(), owner, sh, v, set a | a in Addrs(sh.kids)[..at]);
    RemoveKid(m, pool.Mem(), m.cells[owner].content, pool.cells[owner].content, sh, v, at);
    RemovedIsEdit(m, pool.Mem(), owner, sh, at);
  }

  lemma RemovedIsEdit(m: Memory, m': Memory, owner: int, sh: Shape, at: nat)
    requires at < |sh.kids| && Keeps(m, m') && OnlyLinks(m.cells, m'.cells, owner, set a | a in Addrs(sh.kids)[..at])
    ensures var after := Shape(sh.kids[..at] + sh.kids[at + 1..]);
      Edited(m, m', owner, sh, after) && forall a :: Owns(after, a) ==> Owns(sh, a)
  {
    var after := Shape(sh.kids[..at] + sh.kids[at + 1..]);
    forall a | Owns(after, a) ensures Owns(sh, a) {
      OwnsRemove(sh, at, a);
    }
    assert forall a :: a in Addrs(sh.kids)[..at] ==> a in Addrs(sh.kids);
  }

  /** Changed links among the slots of a list, seen from the tree. */
  lemma OnlyLinksBelow(m: Memory, m': Memory, owner: int, sh: Shape, v: Value, links: set<int>)
    requires owner in m.cells && !Owns(sh, owner) && Tree(m, m.cells[owner].content, sh, v)
    requires OnlyLinks(m.cells, m'.cells, owner, links) && forall a :: a in links ==> a in Addrs(sh.kids)
    ensures forall a :: Owns(sh, a) ==> OnlyLinkChanged(m, m', sh, a)
  {
    hide Linked, Denotes, Apart;
    forall a | Owns(sh, a) ensures OnlyLinkChanged(m, m', sh, a) {
      OwnedAreCells(m, m.cells[owner].content, sh, v, a);
    }
  }

  /** removeElement */
  method RemoveElement(pool: MemoryPool, owner: int, index: nat, ghost sh: Shape, ghost es: seq<Value>)
    returns (ghost after: Shape)
    requires pool.Valid() && Holds(pool, owner, sh, Arr(es))
    modifies pool`cells
    ensures pool.Valid() && Holds(pool, owner, after, Arr(if index < |es| then es[..index] + es[index + 1..] else es))
    ensures Edited(old(pool.Mem()), pool.Mem(), owner, sh, after)
  {
    hide MemoryPool.Valid, MemoryPool.Chars, MemoryPool.SlotsLaid, Tree, Linked, Owns, Edited;
    HeldIsList(pool, owner, sh, Arr(es));
    NothingEdited(pool.Mem(), owner, sh);
    after := sh;
    var slot := GetSlotAt(pool, owner, index, Addrs(sh.kids));
    if index < |es| {
      HeldSlot(pool, owner, sh, Arr(es), index);
    }
    if slot != NULL {
      after := RemoveChild(pool, owner, slot, sh, Arr(es), index);
    }
  }

  /** removeMember */
  method RemoveMember(pool: MemoryPool, owner: int, key: Bytes, ghost sh: Shape, ghost ms: seq<Member>)
    returns (ghost after: Shape)
    requires pool.Valid() && Holds(pool, owner, sh, Obj(ms))
    modifies pool`cells
    ensures pool.Valid() && Edited(old(pool.Mem()), pool.Mem(), owner, sh, after)
    ensures var i := Find(ms, key);
      Holds(pool, owner, after, Obj(if i < |ms| then ms[..i] + ms[i + 1..] else ms))
  {
    hide MemoryPool.SlotsLaid, MemoryPool.Chars, Tree;
    after := sh;
    HeldHead(pool, owner, sh, Obj(ms));
    NothingEdited(pool.Mem(), owner, sh);
    var slot := GetMember(pool, owner, key, sh, ms);
    ghost var i := Find(ms, key);
    if i < |ms| {
      HeldSlot(pool, owner, sh, Obj(ms), i);
    }
    if slot != NULL {
      after := RemoveChild(pool, owner, slot, sh, Obj(ms), i);
    }
  }

  // ---- Depth ----

  /** variantNesting: the loop keeps the maximum over the children. */
  method VariantNesting(pool: MemoryPool, at: int, ghost sh: Shape, ghost v: Value) returns (depth: nat)
    requires pool.Valid() && Holds(pool, at, sh, v)
    ensures depth == Nesting(v)
    decreases sh
  {
    hide MemoryPool.Valid, MemoryPool.Chars, Tree, Owns, NextOf, NestingFrom;
    HeldNesting(pool, at, sh, v);
    if !pool.cells[at].content.Collection? {
      return 0;
    }
    HeldHead(pool, at, sh, v);
    var maxChildNesting := 0;
    var s := pool.cells[at].content.head;
    ghost var i := 0;
    while s != NULL
      invariant 0 <= i <= Arity(v) && s == if i < Arity(v) then sh.kids[i].addr else NULL
      invariant Nesting(v) == 1 + Max(maxChildNesting, NestingFrom(v, i))
      decreases Arity(v) - i
    {
      HeldSlot(pool, at, sh, v, i);
      var childNesting := VariantNesting(pool, s, sh.kids[i].sub, Child(v, i));
      NestingUnfold(v, i);
      if childNesting > maxChildNesting {
        maxChildNesting := childNesting;
      }
      s := NextOf(s, pool.cells[s]);
      i := i + 1;
    }
    if i < Arity(v) {
      HeldSlot(pool, at, sh, v, i);
    }
    return maxChildNesting + 1;
  }

  lemma HeldNesting(pool: MemoryPool, at: int, sh: Shape, v: Value)
    requires pool.Valid() && Holds(pool, at, sh, v)
    ensures at in pool.cells && pool.cells[at].content.Collection? == IsNested(v)
    ensures Nesting(v) == if IsNested(v) then 1 + NestingFrom(v, 0) else 0
    ensures IsNested(v) ==> NestingFrom(v, Arity(v)) == 0
  {
    hide Linked, Apart, KidDenotes;
  }

  /** The depth of the children from number `i` on. */
  function NestingFrom(v: Value, i: nat): nat
    requires IsNested(v) && i <= Arity(v)
  {
    if v.Arr? then NestingOfElems(v.elems[i..]) else NestingOfMembers(v.members[i..])
  }

  lemma NestingUnfold(v: Value, i: nat)
    requires IsNested(v) && i < Arity(v)
    ensures NestingFrom(v, i) == Max(Nesting(Child(v, i)), NestingFrom(v, i + 1))
  {
  }
}
