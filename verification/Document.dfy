/** A document whose pool is compacted and reallocated in place. */
module Document {
  import opened Values
  import opened Heap
  import opened Pool
  import opened Trees
  import opened Collections

  // ---- Relocation ----

  /** movePointers on a variant: owned strings move with the strings, slots with the slots. */
  function MovedContent(c: Content, strings: int, variants: int): Content {
    match c
    case OwnedString(data, size) => OwnedString(data + strings, size)
    case Collection(isObject, head, tail) => Collection(isObject, MovedPointer(head, variants),
      MovedPointer(tail, variants))
    case _ => c
  }

  function MovedPointer(p: int, distance: int): int {
    if p == NULL then NULL else p + distance
  }

  function MovedKey(k: Key, strings: int): Key {
    if k.OwnedKey? then OwnedKey(k.at + strings) else k
  }

  function MovedSlot(s: Slot, strings: int, variants: int): Slot {
    Slot(MovedContent(s.content, strings, variants), s.next, MovedKey(s.key, strings))
  }

  function MovedShape(sh: Shape, variants: int): (r: Shape)
    ensures |r.kids| == |sh.kids|
    ensures forall i :: 0 <= i < |sh.kids| ==>
      r.kids[i].addr == sh.kids[i].addr + variants && r.kids[i].sub == MovedShape(sh.kids[i].sub, variants)
  {
    Shape(seq(|sh.kids|, i requires 0 <= i < |sh.kids| => Kid(sh.kids[i].addr + variants,
      MovedShape(sh.kids[i].sub, variants))))
  }

  lemma {:induction false} MovedOwns(sh: Shape, variants: int, a: int)
    ensures Owns(MovedShape(sh, variants), a + variants) <==> Owns(sh, a)
    decreases sh
  {
    var moved := MovedShape(sh, variants);
    forall i | 0 <= i < |sh.kids| ensures OwnedBy(moved.kids[i], a + variants) <==> OwnedBy(sh.kids[i], a) {
      MovedOwns(sh.kids[i].sub, variants, a);
    }
    if Owns(sh, a) {
      var i :| 0 <= i < |sh.kids| && OwnedBy(sh.kids[i], a);
      assert OwnedBy(moved.kids[i], a + variants);
    }
    if Owns(moved, a + variants) {
      var i :| 0 <= i < |moved.kids| && OwnedBy(moved.kids[i], a + variants);
      assert OwnedBy(sh.kids[i], a);
    }
  }

  lemma {:induction false} MovedApart(sh: Shape, variants: int)
    requires Apart(sh)
    ensures Apart(MovedShape(sh, variants))
    decreases sh
  {
    var moved := MovedShape(sh, variants);
    forall i | 0 <= i < |moved.kids| ensures !Owns(moved.kids[i].sub, moved.kids[i].addr) && Apart(moved.kids[i].sub) {
      MovedApart(sh.kids[i].sub, variants);
      MovedOwns(sh.kids[i].sub, variants, sh.kids[i].addr);
    }
    forall i, j, b | 0 <= i < j < |moved.kids| && OwnedBy(moved.kids[i], b) ensures !OwnedBy(moved.kids[j], b) {
      KidsStayApart(sh, variants, i, j, b);
    }
  }

  lemma KidsStayApart(sh: Shape, variants: int, i: nat, j: nat, b: int)
    requires Apart(sh) && i < j < |sh.kids| && OwnedBy(MovedShape(sh, variants).kids[i], b)
    ensures !OwnedBy(MovedShape(sh, variants).kids[j], b)
  {
    MovedOwns(sh.kids[i].sub, variants, b - variants);
    MovedOwns(sh.kids[j].sub, variants, b - variants);
    OwnedOnce(sh, i, j, b - variants);
  }

  /** The memory after strings moved by one distance and slots by another. */
  ghost predicate Moved(m: Memory, m': Memory, sh: Shape, strings: int, variants: int) {
    && m'.begin == m.begin + strings && m'.chars == m.chars
    && forall a :: Owns(sh, a) ==>
         && a in m.cells && a + variants in m'.cells && a + variants != NULL && a + variants != ROOT
         && m'.cells[a + variants] == MovedSlot(m.cells[a], strings, variants)
  }

  /** The two distances cancel out: the moved structure denotes the same value. */
  lemma {:induction false} MovedDenotes(m: Memory, m': Memory, c: Content, sh: Shape, v: Value, strings: int,
                                        variants: int)
    requires Denotes(m, c, sh, v) && Moved(m, m', sh, strings, variants)
    ensures Denotes(m', MovedContent(c, strings, variants), MovedShape(sh, variants), v)
    decreases sh
  {
    var moved := MovedShape(sh, variants);
    if IsNested(v) {
      forall i | 0 <= i < |moved.kids| ensures KidDenotes(m', moved.kids[i], v, i) {
        KidMoves(m, m', c, sh, v, i, strings, variants);
      }
      MovedLinked(m, m', c, sh, strings, variants);
    } else {
      assert moved == LEAF;
    }
  }

  lemma KidMoves(m: Memory, m': Memory, c: Content, sh: Shape, v: Value, i: nat, strings: int, variants: int)
    requires Denotes(m, c, sh, v) && IsNested(v) && i < |sh.kids| && Moved(m, m', sh, strings, variants)
    ensures KidDenotes(m', MovedShape(sh, variants).kids[i], v, i)
    decreases sh, 0
  {
    hide Linked, Denotes, StringAt, MovedContent;
    var k := sh.kids[i];
    KidParts(m, c, sh, v, i);
    assert OwnedBy(k, k.addr) && Owns(sh, k.addr);
    forall a | Owns(k.sub, a) ensures Owns(sh, a) {
      assert OwnedBy(k, a);
    }
    MovedDenotes(m, m', m.cells[k.addr].content, k.sub, Child(v, i), strings, variants);
    KeyMoves(m, m', m.cells[k.addr].key, v, i, strings);
  }

  lemma KidParts(m: Memory, c: Content, sh: Shape, v: Value, i: nat)
    requires Denotes(m, c, sh, v) && IsNested(v) && i < |sh.kids|
    ensures var k := sh.kids[i];
      && i < Arity(v) && k.addr in m.cells && ChildKey(m, m.cells[k.addr].key, v, i)
      && Denotes(m, m.cells[k.addr].content, k.sub, Child(v, i))
  {
    assert KidDenotes(m, sh.kids[i], v, i);
  }

  lemma KeyMoves(m: Memory, m': Memory, key: Key, v: Value, i: nat, strings: int)
    requires i < Arity(v) && ChildKey(m, key, v, i) && m'.begin == m.begin + strings && m'.chars == m.chars
    ensures ChildKey(m', MovedKey(key, strings), v, i)
  {
  }

  lemma MovedLinked(m: Memory, m': Memory, c: Content, sh: Shape, strings: int, variants: int)
    requires c.Collection? && Linked(m.cells, c.head, c.tail, Addrs(sh.kids)) && Moved(m, m', sh, strings, variants)
    ensures var moved := MovedContent(c, strings, variants);
      Linked(m'.cells, moved.head, moved.tail, Addrs(MovedShape(sh, variants).kids))
  {
    hide Linked;
    var addrs, addrs' := Addrs(sh.kids), Addrs(MovedShape(sh, variants).kids);
    forall i | 0 <= i < |addrs|
      ensures addrs[i] in m.cells && addrs'[i] in m'.cells && addrs'[i] != NULL && addrs'[i] != ROOT
      ensures m'.cells[addrs'[i]].next == m.cells[addrs[i]].next
    {
      assert OwnedBy(sh.kids[i], sh.kids[i].addr) && Owns(sh, sh.kids[i].addr);
    }
    ListMoved(m.cells, m'.cells, c.head, c.tail, addrs, addrs', variants);
  }

  lemma ListMoved(cells: map<int, Slot>, cells': map<int, Slot>, head: int, tail: int, addrs: seq<int>,
                  addrs': seq<int>, d: int)
    requires Linked(cells, head, tail, addrs) && |addrs'| == |addrs|
    requires forall i :: 0 <= i < |addrs| ==> addrs'[i] == addrs[i] + d
    requires forall i :: 0 <= i < |addrs| ==>
      addrs[i] in cells && addrs'[i] in cells' && addrs'[i] != NULL && addrs'[i] != ROOT
        && cells'[addrs'[i]].next == cells[addrs[i]].next
    ensures Linked(cells', MovedPointer(head, d), MovedPointer(tail, d), addrs')
  {
    forall i | 0 <= i < |addrs'|
      ensures addrs'[i] in cells' && addrs'[i] != NULL && addrs'[i] != ROOT && LinkedAt(cells', addrs', i)
    {
      LinkedNext(cells, head, tail, addrs, i);
    }
    if addrs != [] {
      LinkedNext(cells, head, tail, addrs, 0);
      LinkedNext(cells, head, tail, addrs, |addrs| - 1);
    }
    assert Distinct(addrs') by {
      forall i, j | 0 <= i < j < |addrs'| ensures addrs'[i] != addrs'[j] {
        assert addrs[i] != addrs[j];
      }
    }
  }

  // ---- movePointers ----

  /** The slots of a structure, copied to shifted addresses, with `at` not among them. */
  ghost predicate Copied(m: Memory, cells: map<int, Slot>, sh: Shape, variants: int, at: int) {
    forall a :: Owns(sh, a) ==>
      && a in m.cells && a + variants in cells && cells[a + variants] == m.cells[a]
      && a + variants != at && a + variants != NULL
  }

  /** Slots `cells` with those of `kids`, shifted, also rewritten. */
  ghost predicate Rewritten(before: map<int, Slot>, now: map<int, Slot>, kids: seq<Kid>, strings: int, variants: int) {
    && now.Keys == before.Keys
    && forall b :: b in before ==>
         now[b] == if Owns(Shape(kids), b - variants) then MovedSlot(before[b], strings, variants) else before[b]
  }

  /** movePointers on the variant at `at`: its tree was copied to the shifted addresses with
      the old pointers in it; afterwards every pointer in it is moved, once. */
  method MovePointers(pool: MemoryPool, at: int, strings: int, variants: int, ghost m: Memory, ghost sh: Shape,
                      ghost v: Value)
    requires pool.Valid() && at in pool.cells && Tree(m, pool.cells[at].content, sh, v)
    requires Copied(m, pool.cells, sh, variants, at)
    modifies pool`cells
    ensures pool.Valid() && pool.Chars() == old(pool.Chars()) && pool.cells.Keys == old(pool.cells).Keys
    ensures Rewritten(old(pool.cells)[at := pool.cells[at]], pool.cells, sh.kids, strings, variants)
    ensures pool.cells[at]
      == old(pool.cells)[at].(content := MovedContent(old(pool.cells)[at].content, strings, variants))
    decreases sh, 1
  {
    hide Rewritten, Denotes, Apart, Copied, MemoryPool.Chars;
    var c := pool.cells[at].content;
    ContentOfTree(m, c, sh, v);
    ghost var cells := pool.cells;
    match c
    case OwnedString(data, size) =>
      pool.SetContent(at, OwnedString(data + strings, size));
      NothingRewritten(pool.cells, sh.kids, strings, variants);
      assert cells[at := pool.cells[at]] == pool.cells;
    case Collection(isObject, head, tail) =>
      pool.SetContent(at, Collection(isObject, MovedPointer(head, variants), MovedPointer(tail, variants)));
      CopiedStays(m, cells, pool.cells, sh, variants, at);
      ghost var mid := pool.cells;
      MoveSlots(pool, at, strings, variants, m, c, sh, v);
      OwnerKept(m, cells, mid, pool.cells, at, sh, strings, variants);
    case _ =>
      NothingRewritten(pool.cells, sh.kids, strings, variants);
      assert cells[at := pool.cells[at]] == pool.cells;
  }

  lemma ContentOfTree(m: Memory, c: Content, sh: Shape, v: Value)
    requires Tree(m, c, sh, v)
    ensures c.Collection? <==> IsNested(v)
    ensures !c.Collection? ==> sh.kids[..0] == sh.kids
  {
  }

  /** The owner of the slots is none of them. */
  lemma OwnerKept(m: Memory, cells: map<int, Slot>, mid: map<int, Slot>, now: map<int, Slot>, at: int, sh: Shape,
                  strings: int, variants: int)
    requires Copied(m, cells, sh, variants, at) && at in cells && at in mid
      && Rewritten(mid, now, sh.kids, strings, variants)
    requires mid == cells[at := mid[at]]
    ensures at in now && now[at] == mid[at] && now.Keys == cells.Keys
    ensures Rewritten(cells[at := now[at]], now, sh.kids, strings, variants)
  {
    assert Shape(sh.kids) == sh;
  }

  /** The loop of CollectionData::movePointers over the slots. */
  method MoveSlots(pool: MemoryPool, at: int, strings: int, variants: int, ghost m: Memory, ghost c: Content,
                   ghost sh: Shape, ghost v: Value)
    requires pool.Valid() && at in pool.cells && Tree(m, c, sh, v) && IsNested(v)
    requires pool.cells[at].content == MovedContent(c, strings, variants)
    requires Copied(m, pool.cells, sh, variants, at)
    modifies pool`cells
    ensures pool.Valid() && pool.Chars() == old(pool.Chars())
    ensures Rewritten(old(pool.cells), pool.cells, sh.kids, strings, variants)
    decreases sh, 0
  {
    hide Rewritten, Tree, Copied;
    TreeHead(m, c, sh, v);
    TreeSlots(m, c, sh, v, pool.cells, variants, at);
    ghost var cells := pool.cells;
    NothingRewritten(cells, sh.kids, strings, variants);
    var slot := pool.cells[at].content.head;
    ghost var i := 0;
    while slot != NULL
      invariant 0 <= i <= |sh.kids| && pool.Valid() && pool.Chars() == old(pool.Chars())
      invariant slot == if i < |sh.kids| then sh.kids[i].addr + variants else NULL
      invariant Rewritten(cells, pool.cells, sh.kids[..i], strings, variants)
      decreases |sh.kids| - i
    {
      SlotReady(pool, at, cells, strings, variants, m, c, sh, v, i);
      ghost var mid := pool.cells;
      MoveSlot(pool, slot, strings, variants, m, sh.kids[i].sub, Child(v, i));
      SlotMoved(at, cells, mid, pool.cells, strings, variants, m, c, sh, v, i);
      slot := NextOf(slot, pool.cells[slot]);
      i := i + 1;
    }
    AllRewritten(cells, pool.cells, sh.kids, i, strings, variants);
  }

  lemma AllRewritten(cells: map<int, Slot>, now: map<int, Slot>, kids: seq<Kid>, i: nat, strings: int, variants: int)
    requires i == |kids| && Rewritten(cells, now, kids[..i], strings, variants)
    ensures Rewritten(cells, now, kids, strings, variants)
  {
  }

  lemma TreeHead(m: Memory, c: Content, sh: Shape, v: Value)
    requires Tree(m, c, sh, v) && IsNested(v)
    ensures c.Collection? && |sh.kids| == Arity(v)
    ensures c.head == if sh.kids == [] then NULL else sh.kids[0].addr
    ensures sh.kids != [] ==> Owns(sh, sh.kids[0].addr) && sh.kids[0].addr != NULL
  {
  }

  lemma TreeSlots(m: Memory, c: Content, sh: Shape, v: Value, cells: map<int, Slot>, variants: int, at: int)
    requires Tree(m, c, sh, v) && IsNested(v)
    requires Copied(m, cells, sh, variants, at)
    ensures forall i :: 0 <= i < |sh.kids| ==> sh.kids[i].addr + variants != NULL
  {
    forall i | 0 <= i < |sh.kids| ensures Owns(sh, sh.kids[i].addr) {
      assert OwnedBy(sh.kids[i], sh.kids[i].addr);
    }
  }

  lemma NothingRewritten(cells: map<int, Slot>, kids: seq<Kid>, strings: int, variants: int)
    ensures Rewritten(cells, cells, kids[..0], strings, variants)
  {
  }

  /** The slots of kid number `i` are still as they were copied. */
  lemma SlotReady(pool: MemoryPool, at: int, cells: map<int, Slot>, strings: int, variants: int, m: Memory,
                  c: Content, sh: Shape, v: Value, i: nat)
    requires Tree(m, c, sh, v) && IsNested(v) && i < |sh.kids| && |sh.kids| == Arity(v)
    requires Copied(m, cells, sh, variants, at)
    requires Rewritten(cells, pool.cells, sh.kids[..i], strings, variants)
    ensures var k := sh.kids[i];
      && k.addr + variants in pool.cells && k.addr in m.cells
      && pool.cells[k.addr + variants] == m.cells[k.addr]
      && Tree(m, m.cells[k.addr].content, k.sub, Child(v, i))
      && Copied(m, pool.cells, k.sub, variants, k.addr + variants)
  {
    var k := sh.kids[i];
    assert KidDenotes(m, k, v, i);
    assert OwnedBy(k, k.addr);
    forall a | OwnedBy(k, a)
      ensures a in m.cells && a + variants in pool.cells && pool.cells[a + variants] == m.cells[a]
        && a + variants != NULL
    {
      assert Owns(sh, a);
      NotBefore(sh, i, a);
      assert a + variants - variants == a;
    }
    forall a | Owns(k.sub, a) ensures OwnedBy(k, a) && a != k.addr {
    }
  }

  lemma NotBefore(sh: Shape, i: nat, a: int)
    requires Apart(sh) && i < |sh.kids| && OwnedBy(sh.kids[i], a)
    ensures !Owns(Shape(sh.kids[..i]), a)
  {
  }

  /** One more kid rewritten; its link leads to the next one. */
  lemma SlotMoved(at: int, cells: map<int, Slot>, mid: map<int, Slot>, now: map<int, Slot>, strings: int, variants: int,
                  m: Memory, c: Content, sh: Shape, v: Value, i: nat)
    requires Tree(m, c, sh, v) && IsNested(v) && i < |sh.kids| && |sh.kids| == Arity(v)
    requires sh.kids[i].addr in m.cells && sh.kids[i].addr + variants in mid
    requires mid[sh.kids[i].addr + variants] == m.cells[sh.kids[i].addr]
    requires Rewritten(cells, mid, sh.kids[..i], strings, variants)
    requires Rewritten(mid, now, [sh.kids[i]], strings, variants)
    requires Copied(m, cells, sh, variants, at)
    ensures Rewritten(cells, now, sh.kids[..i + 1], strings, variants)
    ensures sh.kids[i].addr + variants in now
    ensures NextOf(sh.kids[i].addr + variants, now[sh.kids[i].addr + variants])
         == if i + 1 < |sh.kids| then sh.kids[i + 1].addr + variants else NULL
  {
    hide Linked, Denotes, MovedContent, Copied;
    var k := sh.kids[i];
    OneMoreRewritten(cells, mid, now, strings, variants, sh, i);
    OwnsOne(k, k.addr);
    assert now[k.addr + variants] == MovedSlot(m.cells[k.addr], strings, variants) by {
      assert k.addr + variants - variants == k.addr;
    }
    ListOfTree(m, c, sh, v);
    LinkedNext(m.cells, c.head, c.tail, Addrs(sh.kids), i);
    if i + 1 < |sh.kids| {
      LinkedNext(m.cells, c.head, c.tail, Addrs(sh.kids), i + 1);
    }
  }

  lemma ListOfTree(m: Memory, c: Content, sh: Shape, v: Value)
    requires Tree(m, c, sh, v) && IsNested(v)
    ensures c.Collection? && Linked(m.cells, c.head, c.tail, Addrs(sh.kids))
  {
    hide Linked;
  }

  lemma OneMoreRewritten(cells: map<int, Slot>, mid: map<int, Slot>, now: map<int, Slot>, strings: int, variants: int,
                         sh: Shape, i: nat)
    requires Apart(sh) && i < |sh.kids|
    requires Rewritten(cells, mid, sh.kids[..i], strings, variants)
    requires Rewritten(mid, now, [sh.kids[i]], strings, variants)
    ensures Rewritten(cells, now, sh.kids[..i + 1], strings, variants)
  {
    hide MovedSlot, Owns, Apart;
    forall b | b in cells
      ensures now[b] == if Owns(Shape(sh.kids[..i + 1]), b - variants) then MovedSlot(cells[b], strings, variants)
        else cells[b]
    {
      SlotOnceMore(cells, mid, now, strings, variants, sh, i, b);
    }
  }

  lemma SlotOnceMore(cells: map<int, Slot>, mid: map<int, Slot>, now: map<int, Slot>, strings: int, variants: int,
                     sh: Shape, i: nat, b: int)
    requires Apart(sh) && i < |sh.kids| && b in cells
    requires Rewritten(cells, mid, sh.kids[..i], strings, variants)
    requires Rewritten(mid, now, [sh.kids[i]], strings, variants)
    ensures b in now
    ensures now[b] == if Owns(Shape(sh.kids[..i + 1]), b - variants) then MovedSlot(cells[b], strings, variants)
      else cells[b]
  {
    hide MovedSlot, Owns, Apart;
    var k := sh.kids[i];
    assert sh.kids[..i + 1] == sh.kids[..i] + [k];
    OwnsAppend(Shape(sh.kids[..i]), k, b - variants);
    OwnsOne(k, b - variants);
    if OwnedBy(k, b - variants) {
      NotBefore(sh, i, b - variants);
    }
    RewrittenSlot(cells, mid, sh.kids[..i], strings, variants, b);
    RewrittenSlot(mid, now, [k], strings, variants, b);
  }

  lemma RewrittenSlot(before: map<int, Slot>, now: map<int, Slot>, kids: seq<Kid>, strings: int, variants: int, b: int)
    requires Rewritten(before, now, kids, strings, variants) && b in before
    ensures b in now
    ensures now[b] == if Owns(Shape(kids), b - variants) then MovedSlot(before[b], strings, variants) else before[b]
  {
  }

  lemma OwnsOne(k: Kid, a: int)
    ensures Owns(Shape([k]), a) <==> OwnedBy(k, a)
  {
    assert [k][0] == k;
  }

  /** VariantSlot::movePointers */
  method MoveSlot(pool: MemoryPool, slot: int, strings: int, variants: int, ghost m: Memory, ghost sh: Shape,
                  ghost v: Value)
    requires pool.Valid() && slot in pool.cells && Tree(m, pool.cells[slot].content, sh, v)
    requires Copied(m, pool.cells, sh, variants, slot)
    modifies pool`cells
    ensures pool.Valid() && pool.Chars() == old(pool.Chars())
    ensures Rewritten(old(pool.cells), pool.cells, [Kid(slot - variants, sh)], strings, variants)
    decreases sh, 2
  {
    hide Tree, Rewritten, Copied;
    ghost var cells := pool.cells;
    var key := pool.cells[slot].key;
    if key.OwnedKey? {
      pool.SetKey(slot, OwnedKey(key.at + strings));
    }
    CopiedStays(m, cells, pool.cells, sh, variants, slot);
    ghost var keyed := pool.cells;
    MovePointers(pool, slot, strings, variants, m, sh, v);
    assert cells[slot := pool.cells[slot]] == keyed[slot := pool.cells[slot]];
    SlotRewritten(cells, pool.cells, slot, m, sh, strings, variants);
  }

  lemma CopiedStays(m: Memory, cells: map<int, Slot>, now: map<int, Slot>, sh: Shape, variants: int, at: int)
    requires Copied(m, cells, sh, variants, at)
    requires forall a :: a in cells && a != at ==> a in now && now[a] == cells[a]
    ensures Copied(m, now, sh, variants, at)
  {
  }

  lemma SlotRewritten(cells: map<int, Slot>, now: map<int, Slot>, slot: int, m: Memory, sh: Shape, strings: int,
                      variants: int)
    requires Copied(m, cells, sh, variants, slot) && slot in cells && now.Keys == cells.Keys
    requires Rewritten(cells[slot := now[slot]], now, sh.kids, strings, variants)
    requires now[slot] == MovedSlot(cells[slot], strings, variants)
    ensures Rewritten(cells, now, [Kid(slot - variants, sh)], strings, variants)
  {
    var k := Kid(slot - variants, sh);
    assert Shape(sh.kids) == sh;
    forall b | b in cells
      ensures now[b] == if Owns(Shape([k]), b - variants) then MovedSlot(cells[b], strings, variants) else cells[b]
    {
      OwnsOne(k, b - variants);
    }
  }

  // ---- shrinkToFit ----

  /** shrinkToFit: the pool is cut to what it uses and moved to wherever the allocator puts
      it; the document keeps its value. On a pool already cut it does nothing. */
  method ShrinkToFit(pool: MemoryPool, address: nat, ghost sh: Shape, ghost v: Value) returns (ghost after: Shape)
    requires pool.Valid() && Holds(pool, ROOT, sh, v)
    requires address % ALIGNMENT == 0
    requires AddPadding(pool.left) + (pool.end - pool.right) > pool.begin ==> address > 0
    modifies pool
    ensures pool.Valid() && Holds(pool, ROOT, after, v) && pool.overflowed == old(pool.overflowed)
    ensures pool.Chars() == old(pool.Chars()) && pool.end - pool.right == old(pool.end - pool.right)
    ensures pool.right == AddPadding(pool.left)
    ensures old(AddPadding(pool.left) == pool.right) ==>
      && pool.begin == old(pool.begin) && pool.left == old(pool.left) && pool.right == old(pool.right)
      && pool.end == old(pool.end) && pool.cells == old(pool.cells) && pool.buf == old(pool.buf) && after == sh
  {
    hide MemoryPool.SlotsLaid, MemoryPool.Chars, Tree, Shifted, AddPadding;
    SlotBounds(pool);
    ghost var m := pool.Mem();
    after := sh;
    var reclaimed := pool.Squash();
    if reclaimed == 0 {
      return;
    }
    PaddingShifts(pool.left, address - pool.begin);
    after := Follow(pool, address, reclaimed, m, sh, v);
  }

  /** The second half of shrinkToFit, after the slots were moved down by `reclaimed`. */
  method Follow(pool: MemoryPool, address: nat, reclaimed: nat, ghost m: Memory, ghost sh: Shape, ghost v: Value)
    returns (ghost after: Shape)
    requires pool.Valid() && ROOT in m.cells && !Owns(sh, ROOT) && Tree(m, m.cells[ROOT].content, sh, v)
    requires pool.begin == m.begin && pool.Chars() == m.chars && pool.cells == Shifted(m.cells, 0 - reclaimed)
    requires forall a :: a in m.cells && a != ROOT ==> pool.right <= a - reclaimed < pool.end
    requires address % ALIGNMENT == 0 && (pool.end > pool.begin ==> address > 0)
    modifies pool
    ensures pool.Valid() && Holds(pool, ROOT, after, v) && pool.overflowed == old(pool.overflowed)
      && pool.Chars() == m.chars
    ensures var d := address - old(pool.begin);
      pool.left == old(pool.left) + d && pool.right == old(pool.right) + d && pool.end == old(pool.end) + d
  {
    hide MemoryPool.SlotsLaid, MemoryPool.Chars, Tree, Copied, Rewritten, Shifted, MovedContent;
    var oldPtr := pool.begin;
    pool.Reallocate();
    pool.MovePointers(address);
    var offset := address - oldPtr;
    CopiedByShifts(pool, m, sh, v, reclaimed, offset);
    ghost var cells := pool.cells;
    MovePointers(pool, ROOT, offset, offset - reclaimed, m, sh, v);
    MovedHeld(pool, m, cells, sh, v, offset, offset - reclaimed);
    after := MovedShape(sh, offset - reclaimed);
  }

  lemma SlotBounds(pool: MemoryPool)
    requires pool.Valid()
    ensures forall a :: a in pool.cells && a != ROOT ==> pool.right <= a < pool.end
    ensures pool.begin % ALIGNMENT == 0
  {
  }

  /** Squashing and reallocating leave every slot's bytes at its new address, pointers unchanged. */
  lemma CopiedByShifts(pool: MemoryPool, m: Memory, sh: Shape, v: Value, reclaimed: nat, offset: int)
    requires pool.Valid() && ROOT in m.cells && Tree(m, m.cells[ROOT].content, sh, v) && !Owns(sh, ROOT)
    requires ROOT in Shifted(m.cells, 0 - reclaimed)
    requires pool.cells == Shifted(Shifted(m.cells, 0 - reclaimed), offset)
    requires forall a :: a in m.cells && a != ROOT ==> 0 <= a - reclaimed && 0 < a - reclaimed + offset
    ensures Copied(m, pool.cells, sh, offset - reclaimed, ROOT) && pool.cells[ROOT] == m.cells[ROOT]
  {
    hide MemoryPool.Valid, Shifted, Denotes, Apart;
    ShiftedRoot(m.cells, 0 - reclaimed);
    ShiftedRoot(Shifted(m.cells, 0 - reclaimed), offset);
    forall a | Owns(sh, a)
      ensures a in m.cells && a + offset - reclaimed in pool.cells && pool.cells[a + offset - reclaimed] == m.cells[a]
    {
      OwnedAreCells(m, m.cells[ROOT].content, sh, v, a);
      ShiftedTo(m.cells, 0 - reclaimed, a);
      ShiftedTo(Shifted(m.cells, 0 - reclaimed), offset, a - reclaimed);
      assert a - reclaimed + offset == a + offset - reclaimed;
    }
  }

  lemma MovedHeld(pool: MemoryPool, m: Memory, cells: map<int, Slot>, sh: Shape, v: Value, strings: int, variants: int)
    requires pool.Valid() && ROOT in m.cells && Tree(m, m.cells[ROOT].content, sh, v)
    requires ROOT in cells && cells.Keys == pool.cells.Keys && Copied(m, cells, sh, variants, ROOT)
    requires pool.cells[ROOT].content == MovedContent(m.cells[ROOT].content, strings, variants)
    requires Rewritten(cells[ROOT := pool.cells[ROOT]], pool.cells, sh.kids, strings, variants)
    requires pool.begin == m.begin + strings && pool.Chars() == m.chars
    ensures Holds(pool, ROOT, MovedShape(sh, variants), v)
  {
    hide MemoryPool.Valid, Denotes, Apart, MovedContent;
    assert Shape(sh.kids) == sh;
    forall a | Owns(sh, a)
      ensures a in m.cells && a + variants in pool.cells && a + variants != NULL && a + variants != ROOT
      ensures pool.cells[a + variants] == MovedSlot(m.cells[a], strings, variants)
    {
      assert a + variants - variants == a;
    }
    MovedDenotes(m, pool.Mem(), m.cells[ROOT].content, sh, v, strings, variants);
    MovedApart(sh, variants);
    MovedOwns(sh, variants, ROOT - variants);
  }
}
