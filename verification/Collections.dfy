/** CollectionData: the slot list of an array or object, held by the variant at `owner`. */
module Collections {
  import opened Values
  import opened Heap
  import opened Pool
  import opened Trees

  /** The collection at `owner` is the list of slots `addrs`. */
  ghost predicate ListAt(cells: map<int, Slot>, owner: int, addrs: seq<int>) {
    && owner in cells && owner !in addrs
    && var c := cells[owner].content;
       c.Collection? && Linked(cells, c.head, c.tail, addrs)
  }

  /** Every change is to the `next` link of slots in `links`, or to the owner's head and tail. */
  ghost predicate OnlyLinks(cells: map<int, Slot>, cells': map<int, Slot>, owner: int, links: set<int>) {
    && owner in cells && owner in cells'
    && cells[owner].content.Collection? && cells'[owner].content.Collection?
    && cells'[owner] == cells[owner].(content := cells'[owner].content)
    && cells'[owner].content.isObject == cells[owner].content.isObject
    && forall a :: a in cells && a != owner ==>
         && a in cells'
         && (if a in links then cells'[a] == cells[a].(next := cells'[a].next) else cells'[a] == cells[a])
  }

  /** Linking one more slot after the tail. */
  lemma LinkedAppend(cells: map<int, Slot>, cells': map<int, Slot>, head: int, tail: int, addrs: seq<int>, slot: int)
    requires Linked(cells, head, tail, addrs)
    requires slot !in addrs && slot != NULL && slot != ROOT && slot in cells' && cells'[slot].next == 0
    requires forall i :: 0 <= i < |addrs| - 1 ==> addrs[i] in cells' && cells'[addrs[i]] == cells[addrs[i]]
    requires addrs != [] ==> tail in cells' && NextOf(tail, cells'[tail]) == slot
    ensures Linked(cells', if addrs == [] then slot else head, slot, addrs + [slot])
  {
    var all := addrs + [slot];
    forall i | 0 <= i < |all|
      ensures all[i] in cells' && all[i] != NULL && all[i] != ROOT && LinkedAt(cells', all, i)
    {
      if i < |addrs| {
        LinkedNext(cells, head, tail, addrs, i);
      }
    }
  }

  /** Unlinking slot number `i`. */
  lemma LinkedRemove(cells: map<int, Slot>, cells': map<int, Slot>, head: int, tail: int, addrs: seq<int>, i: nat,
                     rest: seq<int>, head': int, tail': int)
    requires Linked(cells, head, tail, addrs) && i < |addrs| && rest == addrs[..i] + addrs[i + 1..]
    requires forall j :: 0 <= j < |addrs| && j != i && j != i - 1 ==>
      addrs[j] in cells' && cells'[addrs[j]] == cells[addrs[j]]
    requires i > 0 ==>
      addrs[i - 1] in cells' && LinksTo(addrs[i - 1], cells'[addrs[i - 1]], NextOf(addrs[i], cells[addrs[i]]))
    requires head' == if i == 0 then NextOf(addrs[i], cells[addrs[i]]) else head
    requires tail' == if i + 1 < |addrs| then tail else if i == 0 then NULL else addrs[i - 1]
    ensures Linked(cells', head', tail', rest)
  {
    hide LinkedAt, Distinct;
    forall j | 0 <= j < |rest|
      ensures rest[j] in cells' && rest[j] != NULL && rest[j] != ROOT && LinkedAt(cells', rest, j)
    {
      RestLinked(cells, cells', head, tail, addrs, i, rest, j);
    }
    if i > 0 {
      assert rest[0] == addrs[0];
    }
    LinkedNext(cells, head, tail, addrs, i);
    DistinctRest(addrs, i);
  }

  lemma DistinctRest(addrs: seq<int>, i: nat)
    requires Distinct(addrs) && i < |addrs|
    ensures Distinct(addrs[..i] + addrs[i + 1..])
  {
  }

  lemma RestLinked(cells: map<int, Slot>, cells': map<int, Slot>, head: int, tail: int, addrs: seq<int>, i: nat,
                   rest: seq<int>, j: nat)
    requires Linked(cells, head, tail, addrs) && i < |addrs| && rest == addrs[..i] + addrs[i + 1..] && j < |rest|
    requires forall j :: 0 <= j < |addrs| && j != i && j != i - 1 ==>
      addrs[j] in cells' && cells'[addrs[j]] == cells[addrs[j]]
    requires i > 0 ==>
      addrs[i - 1] in cells' && LinksTo(addrs[i - 1], cells'[addrs[i - 1]], NextOf(addrs[i], cells[addrs[i]]))
    ensures rest[j] in cells' && rest[j] != NULL && rest[j] != ROOT && LinkedAt(cells', rest, j)
  {
    hide Linked;
    var k := if j < i then j else j + 1;
    LinkedNext(cells, head, tail, addrs, i);
    LinkedNext(cells, head, tail, addrs, k);
    assert rest[j] == addrs[k];
    var next := if j + 1 < |rest| then rest[j + 1] else NULL;
    if k + 1 == i {
      assert next == NextOf(addrs[i], cells[addrs[i]]);
    } else {
      assert cells'[rest[j]] == cells[addrs[k]];
      if k + 1 < |addrs| {
        LinkedNext(cells, head, tail, addrs, k + 1);
        assert next == addrs[k + 1];
      }
    }
    assert LinksTo(rest[j], cells'[rest[j]], next);
  }

  lemma NoTail(cells: map<int, Slot>, head: int, tail: int, addrs: seq<int>)
    requires Linked(cells, head, tail, addrs)
    ensures tail == NULL <==> addrs == []
    ensures head == NULL <==> addrs == []
  {
  }

  /** addSlot: a cleared slot at the end of the list, or NULL when the pool is full. */
  method AddSlot(pool: MemoryPool, owner: int, ghost addrs: seq<int>) returns (slot: int)
    requires pool.Valid() && ListAt(pool.cells, owner, addrs)
    modifies pool`right, pool`overflowed, pool`cells
    ensures pool.Valid() && pool.Chars() == old(pool.Chars())
    ensures slot == NULL <==> !old(pool.CanAlloc(SLOT_SIZE))
    ensures slot == NULL ==> pool.overflowed && pool.cells == old(pool.cells) && pool.right == old(pool.right)
    ensures slot != NULL ==>
      && slot == pool.right == old(pool.right) - SLOT_SIZE && pool.overflowed == old(pool.overflowed)
      && slot !in old(pool.cells) && pool.cells.Keys == old(pool.cells).Keys + {slot}
      && pool.cells[slot] == Slot(NullContent, 0, NoKey)
      && ListAt(pool.cells, owner, addrs + [slot])
      && OnlyLinks(old(pool.cells), pool.cells, owner, set a | a in addrs)
  {
    slot := pool.AllocVariant();
    if slot == NULL {
      return;
    }
    ghost var before := old(pool.cells);
    var c := pool.cells[owner].content;
    if c.tail != NULL {
      assert c.tail in before && c.tail == addrs[|addrs| - 1];
      var tail := pool.cells[c.tail];
      assert (slot - c.tail) % SLOT_SIZE == 0 by { SlotsAligned(pool, slot, c.tail); }
      pool.SetNext(c.tail, slot);
      pool.SetContent(owner, c.(tail := slot));
    } else {
      NoTail(before, c.head, c.tail, addrs);
      pool.SetContent(owner, c.(head := slot, tail := slot));
    }
    LinkedAppend(before, pool.cells, c.head, c.tail, addrs, slot);
  }

  lemma SlotsAligned(pool: MemoryPool, a: int, b: int)
    requires pool.Valid() && a in pool.cells && b in pool.cells && a != ROOT && b != ROOT
    ensures (a - b) % SLOT_SIZE == 0
  {
  }

  /** VariantSlot::next(distance) from the head: the slot number `index`, or NULL. */
  method GetSlotAt(pool: MemoryPool, owner: int, index: nat, ghost addrs: seq<int>) returns (slot: int)
    requires ListAt(pool.cells, owner, addrs)
    ensures slot == if index < |addrs| then addrs[index] else NULL
  {
    slot := pool.cells[owner].content.head;
    var distance := index;
    ghost var i := 0;
    while slot != NULL && distance > 0
      invariant 0 <= i <= |addrs| && 0 <= distance && distance + i == index
      invariant slot == if i < |addrs| then addrs[i] else NULL
      decreases distance
    {
      LinkedNext(pool.cells, pool.cells[owner].content.head, pool.cells[owner].content.tail, addrs, i);
      slot := NextOf(slot, pool.cells[slot]);
      distance := distance - 1;
      i := i + 1;
    }
    if i < |addrs| {
      LinkedNext(pool.cells, pool.cells[owner].content.head, pool.cells[owner].content.tail, addrs, i);
    }
  }

  /** getPreviousSlot: the slot that links to `target`, or NULL when it is the head. */
  method GetPreviousSlot(pool: MemoryPool, owner: int, target: int, ghost addrs: seq<int>, ghost at: nat)
    returns (prev: int)
    requires ListAt(pool.cells, owner, addrs) && at < |addrs| && addrs[at] == target
    ensures prev == if at == 0 then NULL else addrs[at - 1]
  {
    var current := pool.cells[owner].content.head;
    ghost var i := 0;
    LinkedNext(pool.cells, pool.cells[owner].content.head, pool.cells[owner].content.tail, addrs, at);
    while current != NULL
      invariant 0 <= i <= |addrs| && (0 < at ==> i < at)
      invariant current == if i < |addrs| then addrs[i] else NULL
      decreases |addrs| - i
    {
      LinkedNext(pool.cells, pool.cells[owner].content.head, pool.cells[owner].content.tail, addrs, i);
      var next := NextOf(current, pool.cells[current]);
      if next == target {
        return current;
      }
      current := next;
      i := i + 1;
    }
    return NULL;
  }

  /** The slots after unlinking number `at`: its predecessor, or the head, skips it. */
  ghost function Unlinked(cells: map<int, Slot>, owner: int, addrs: seq<int>, at: nat): map<int, Slot>
    requires ListAt(cells, owner, addrs) && at < |addrs|
    requires forall a, b :: a in addrs && b in addrs ==> (a - b) % SLOT_SIZE == 0
  {
    var c := cells[owner].content;
    LinkedNext(cells, c.head, c.tail, addrs, at);
    var next := NextOf(addrs[at], cells[addrs[at]]);
    var head := if at == 0 then next else c.head;
    var tail := if next != NULL then c.tail else if at == 0 then NULL else addrs[at - 1];
    var relinked :=
      if at == 0 then cells
      else
        (LinkedNext(cells, c.head, c.tail, addrs, at - 1);
         assert next != NULL ==> next == addrs[at + 1] && next in addrs;
         cells[addrs[at - 1] := WithNext(addrs[at - 1], cells[addrs[at - 1]], next)]);
    relinked[owner := relinked[owner].(content := c.(head := head, tail := tail))]
  }

  lemma UnlinkedIsList(cells: map<int, Slot>, owner: int, addrs: seq<int>, at: nat)
    requires ListAt(cells, owner, addrs) && at < |addrs|
    requires forall a, b :: a in addrs && b in addrs ==> (a - b) % SLOT_SIZE == 0
    ensures var cells' := Unlinked(cells, owner, addrs, at);
      && cells'.Keys == cells.Keys
      && ListAt(cells', owner, addrs[..at] + addrs[at + 1..])
      && OnlyLinks(cells, cells', owner, set a | a in addrs[..at])
  {
    var c := cells[owner].content;
    var cells' := Unlinked(cells, owner, addrs, at);
    LinkedNext(cells, c.head, c.tail, addrs, at);
    if at > 0 {
      LinkedNext(cells, c.head, c.tail, addrs, at - 1);
      assert addrs[..at][at - 1] == addrs[at - 1];
    }
    LinkedRemove(cells, cells', c.head, c.tail, addrs, at,
      addrs[..at] + addrs[at + 1..], cells'[owner].content.head, cells'[owner].content.tail);
  }

  lemma AllAligned(pool: MemoryPool, owner: int, addrs: seq<int>)
    requires pool.Valid() && ListAt(pool.cells, owner, addrs)
    ensures forall a, b :: a in addrs && b in addrs ==> (a - b) % SLOT_SIZE == 0
  {
    hide MemoryPool.Valid;
    forall a, b | a in addrs && b in addrs ensures (a - b) % SLOT_SIZE == 0 {
      SlotsAligned(pool, a, b);
    }
  }

  /** removeSlot: the list without slot number `at`; the slot itself is not reclaimed. */
  method RemoveSlot(pool: MemoryPool, owner: int, slot: int, ghost addrs: seq<int>, ghost at: nat)
    requires pool.Valid() && ListAt(pool.cells, owner, addrs)
    requires at < |addrs| && addrs[at] == slot
    modifies pool`cells
    ensures pool.Valid() && pool.Chars() == old(pool.Chars()) && pool.cells.Keys == old(pool.cells).Keys
    ensures ListAt(pool.cells, owner, addrs[..at] + addrs[at + 1..])
    ensures OnlyLinks(old(pool.cells), pool.cells, owner, set a | a in addrs[..at])
  {
    AllAligned(pool, owner, addrs);
    UnlinkedIsList(pool.cells, owner, addrs, at);
    var c := pool.cells[owner].content;
    var prev := GetPreviousSlot(pool, owner, slot, addrs, at);
    LinkedNext(pool.cells, c.head, c.tail, addrs, at);
    var next := NextOf(slot, pool.cells[slot]);
    if prev != NULL {
      LinkedNext(pool.cells, c.head, c.tail, addrs, at - 1);
      pool.SetNext(prev, next);
    } else {
      c := c.(head := next);
    }
    if next == NULL {
      c := c.(tail := prev);
    }
    pool.SetContent(owner, c);
  }

  // ---- The same operations on values ----

  /** The variant at `owner` is a tree that denotes `v`, and is not part of it. */
  ghost predicate Holds(pool: MemoryPool, owner: int, sh: Shape, v: Value)
    requires pool.Valid()
    reads pool, pool.buf
  {
    owner in pool.cells && !Owns(sh, owner) && Tree(pool.Mem(), pool.cells[owner].content, sh, v)
  }

  lemma HeldIsList(pool: MemoryPool, owner: int, sh: Shape, v: Value)
    requires pool.Valid() && Holds(pool, owner, sh, v) && IsNested(v)
    ensures ListAt(pool.cells, owner, Addrs(sh.kids)) && |sh.kids| == Arity(v)
    ensures pool.cells[owner].content.isObject == v.Obj?
    ensures forall a :: Owns(sh, a) ==> a in pool.cells
    ensures forall i :: 0 <= i < |sh.kids| ==> Owns(sh, sh.kids[i].addr)
  {
    hide Linked, KidDenotes, Apart;
    forall a | Owns(sh, a) ensures a in pool.cells {
      OwnedAreCells(pool.Mem(), pool.cells[owner].content, sh, v, a);
    }
    forall i | 0 <= i < |sh.kids| ensures Owns(sh, sh.kids[i].addr) {
      assert OwnedBy(sh.kids[i], sh.kids[i].addr);
    }
  }

  /** The text of a slot's key, as strcmp reads it. */
  method ReadKey(pool: MemoryPool, key: Key, ghost text: Bytes) returns (t: Bytes)
    requires pool.Valid() && KeyIs(pool.Mem(), key, text)
    ensures t == text
  {
    match key
    case OwnedKey(at) =>
      t := CStr(pool.buf[at - pool.begin..pool.left - pool.begin]);
      assert pool.buf[at - pool.begin..pool.left - pool.begin] == pool.Chars()[at - pool.begin..];
      CStrOfSuffix(pool.Mem(), at, text);
    case LinkedKey(linked) => t := CStr(linked);
  }

  lemma CStrOfSuffix(m: Memory, at: int, text: Bytes)
    requires CStringAt(m, at, text)
    ensures CStr(m.chars[at - m.begin..]) == text
  {
  }

  /** The bytes of an owned or linked string. */
  method ReadText(pool: MemoryPool, c: Content, ghost sh: Shape, ghost text: Bytes) returns (t: Bytes)
    requires pool.Valid() && Denotes(pool.Mem(), c, sh, Str(text))
    ensures t == text
  {
    if c.OwnedString? {
      var at := c.data - pool.begin;
      assert pool.Chars()[at..at + c.size] == pool.buf[at..at + c.size];
      return pool.buf[at..at + c.size];
    }
    return c.text;
  }

  /** Walking the list of a held value: its head, each slot's successor, each member's key. */
  lemma HeldHead(pool: MemoryPool, owner: int, sh: Shape, v: Value)
    requires pool.Valid() && Holds(pool, owner, sh, v) && IsNested(v)
    ensures owner in pool.cells && pool.cells[owner].content.Collection? && |sh.kids| == Arity(v)
    ensures pool.cells[owner].content.isObject == v.Obj?
    ensures pool.cells[owner].content.head == if Arity(v) > 0 then sh.kids[0].addr else NULL
  {
    hide KidDenotes;
  }

  lemma HeldSlot(pool: MemoryPool, owner: int, sh: Shape, v: Value, i: nat)
    requires pool.Valid() && Holds(pool, owner, sh, v) && IsNested(v) && i < Arity(v)
    ensures owner in pool.cells && |sh.kids| == Arity(v)
    ensures var a := sh.kids[i].addr;
      && a in pool.cells && a != NULL && a != owner
      && NextOf(a, pool.cells[a]) == (if i + 1 < Arity(v) then sh.kids[i + 1].addr else NULL)
      && ChildKey(pool.Mem(), pool.cells[a].key, v, i)
      && Tree(pool.Mem(), pool.cells[a].content, sh.kids[i].sub, Child(v, i))
      && !Owns(sh.kids[i].sub, a) && Owns(sh, a)
  {
    hide Linked;
    var c := pool.cells[owner].content;
    LinkedNext(pool.cells, c.head, c.tail, Addrs(sh.kids), i);
    assert KidDenotes(pool.Mem(), sh.kids[i], v, i);
    assert OwnedBy(sh.kids[i], sh.kids[i].addr);
  }

  /** slotSize: the number of slots in the list. */
  method Size(pool: MemoryPool, owner: int, ghost sh: Shape, ghost v: Value) returns (n: nat)
    requires pool.Valid() && Holds(pool, owner, sh, v) && IsNested(v)
    ensures n == Arity(v)
  {
    hide MemoryPool.Valid, MemoryPool.Chars, Tree;
    HeldHead(pool, owner, sh, v);
    n := 0;
    var slot := pool.cells[owner].content.head;
    while slot != NULL
      invariant 0 <= n <= Arity(v) && slot == if n < Arity(v) then sh.kids[n].addr else NULL
      decreases Arity(v) - n
    {
      HeldSlot(pool, owner, sh, v, n);
      n := n + 1;
      slot := NextOf(slot, pool.cells[slot]);
    }
    if n < Arity(v) {
      HeldSlot(pool, owner, sh, v, n);
    }
  }

  /** getMember: the slot of the first member with that key, or NULL. */
  method GetMember(pool: MemoryPool, owner: int, key: Bytes, ghost sh: Shape, ghost ms: seq<Member>) returns (slot: int)
    requires pool.Valid() && Holds(pool, owner, sh, Obj(ms))
    ensures |sh.kids| == |ms|
    ensures var i := Find(ms, key); slot == if i < |ms| then sh.kids[i].addr else NULL
  {
    hide Holds, Tree, KeyIs;
    HeldHead(pool, owner, sh, Obj(ms));
    slot := pool.cells[owner].content.head;
    ghost var i := 0;
    while slot != NULL
      invariant 0 <= i <= |ms| && i <= Find(ms, key)
      invariant slot == if i < |ms| then sh.kids[i].addr else NULL
      decreases |ms| - i
    {
      HeldSlot(pool, owner, sh, Obj(ms), i);
      var text := ReadKey(pool, pool.cells[slot].key, ms[i].key);
      if text == key {
        return;
      }
      slot := NextOf(slot, pool.cells[slot]);
      i := i + 1;
    }
    if i < |ms| {
      HeldSlot(pool, owner, sh, Obj(ms), i);
    }
  }

  /** An array with one more null element, or an object with one more null member. */
  function Extended(v: Value, key: Bytes): Value
    requires IsNested(v)
  {
    if v.Arr? then Arr(v.elems + [Null]) else Obj(v.members + [Member(key, Null)])
  }

  /** addSlot and, for a member, setKey: a null child at the end, or NULL when the pool is full. */
  method AddChild(pool: MemoryPool, owner: int, key: Key, ghost text: Bytes, ghost sh: Shape, ghost v: Value)
    returns (slot: int)
    requires pool.Valid() && Holds(pool, owner, sh, v) && IsNested(v)
    requires if v.Arr? then key == NoKey else KeyIs(pool.Mem(), key, text)
    modifies pool`right, pool`overflowed, pool`cells
    ensures pool.Valid() && pool.Chars() == old(pool.Chars())
    ensures slot == NULL <==> !old(pool.CanAlloc(SLOT_SIZE))
    ensures slot == NULL ==> pool.overflowed && pool.cells == old(pool.cells) && pool.right == old(pool.right)
    ensures slot != NULL ==>
      && pool.overflowed == old(pool.overflowed) && pool.right == old(pool.right) - SLOT_SIZE
      && slot !in old(pool.cells) && slot != owner && pool.cells.Keys == old(pool.cells).Keys + {slot}
      && pool.cells[slot] == Slot(NullContent, 0, key)
      && Holds(pool, owner, Shape(sh.kids + [Kid(slot, LEAF)]), Extended(v, text))
      && OnlyLinks(old(pool.cells), pool.cells, owner, set a | a in Addrs(sh.kids))
  {
    hide Linked, Tree, KeyIs, OnlyLinks;
    HeldIsList(pool, owner, sh, v);
    ghost var m := pool.Mem();
    slot := AddSlot(pool, owner, Addrs(sh.kids));
    if slot == NULL {
      return;
    }
    ghost var added := pool.cells;
    if key != NoKey {
      pool.SetKey(slot, key);
    }
    KeyedSlot(m.cells, added, pool.cells, owner, Addrs(sh.kids), slot);
    if v.Obj? {
      KeyStays(m, pool.Mem(), key, text);
    }
    AddedChild(m, pool.Mem(), owner, key, text, sh, v, slot);
  }

  lemma AddedChild(m: Memory, m': Memory, owner: int, key: Key, text: Bytes, sh: Shape, v: Value, slot: int)
    requires owner in m.cells && !Owns(sh, owner) && Tree(m, m.cells[owner].content, sh, v) && IsNested(v)
    requires Keeps(m, m')
    requires if v.Arr? then key == NoKey else KeyIs(m', key, text)
    requires slot !in m.cells && slot in m'.cells && m'.cells[slot] == Slot(NullContent, 0, key)
    requires OnlyLinks(m.cells, m'.cells, owner, set a | a in Addrs(sh.kids))
    requires Linked(m'.cells, m'.cells[owner].content.head, m'.cells[owner].content.tail, Addrs(sh.kids) + [slot])
    ensures owner in m'.cells && !Owns(Shape(sh.kids + [Kid(slot, LEAF)]), owner)
    ensures Tree(m', m'.cells[owner].content, Shape(sh.kids + [Kid(slot, LEAF)]), Extended(v, text))
  {
    hide Linked, Denotes, Apart, KeyIs, KidDenotes;
    var c := m.cells[owner].content;
    forall a | Owns(sh, a) ensures OnlyLinkChanged(m, m', sh, a) {
      OwnedAreCells(m, c, sh, v, a);
    }
    if Owns(sh, slot) {
      OwnedAreCells(m, c, sh, v, slot);
    }
    NestedIsCollection(m, c, sh, v);
    AppendKid(m, m', c, m'.cells[owner].content, sh, v, slot, Extended(v, text));
    OwnsAppend(sh, Kid(slot, LEAF), owner);
    assert !Owns(LEAF, owner);
  }

  lemma NestedIsCollection(m: Memory, c: Content, sh: Shape, v: Value)
    requires Tree(m, c, sh, v) && IsNested(v)
    ensures c.Collection? && c.isObject == v.Obj? && |sh.kids| == Arity(v)
  {
  }

  /** Setting the key of the new slot does not disturb the list. */
  lemma KeyedSlot(cells: map<int, Slot>, added: map<int, Slot>, keyed: map<int, Slot>, owner: int, addrs: seq<int>,
                  slot: int)
    requires slot !in cells && slot != owner && OnlyLinks(cells, added, owner, set a | a in addrs)
    requires ListAt(added, owner, addrs + [slot])
    requires slot in keyed && (keyed == added || keyed == added[slot := added[slot].(key := keyed[slot].key)])
    ensures OnlyLinks(cells, keyed, owner, set a | a in addrs)
    ensures ListAt(keyed, owner, addrs + [slot])
  {
    LinkedSame(added, keyed, added[owner].content.head, added[owner].content.tail, addrs + [slot]);
  }

  // ---- Growth ----

  /** Strings and slots were only added since `cells` and `chars`, and of the older slots
      only the content of `target` changed. */
  ghost predicate Grew(m: Memory, cells: map<int, Slot>, chars: Bytes, target: int) {
    && chars <= m.chars
    && (forall a :: a in cells && a != target ==> a in m.cells && m.cells[a] == cells[a])
    && (target in cells ==> target in m.cells && m.cells[target] == cells[target].(content := m.cells[target].content))
  }

  /** Every slot of `sh` belonged to `before`, or did not exist among `cells`. */
  ghost predicate OwnsNew(sh: Shape, before: Shape, cells: map<int, Slot>) {
    forall a :: Owns(sh, a) ==> Owns(before, a) || a !in cells
  }

  /** A value under construction: it is held at `owner`, over slots newer than `cells`. */
  ghost predicate Built(pool: MemoryPool, owner: int, sh: Shape, v: Value, cells: map<int, Slot>, chars: Bytes)
    requires pool.Valid()
    reads pool, pool.buf
  {
    owner in cells && Holds(pool, owner, sh, v) && OwnsNew(sh, LEAF, cells) && Grew(pool.Mem(), cells, chars, owner)
  }

  /** Writes a value without slots into a variant. */
  method WriteLeaf(pool: MemoryPool, owner: int, c: Content, ghost v: Value)
    requires pool.Valid() && owner in pool.cells && Denotes(pool.Mem(), c, LEAF, v)
    modifies pool`cells
    ensures pool.Valid() && pool.Chars() == old(pool.Chars())
    ensures Built(pool, owner, LEAF, v, old(pool.cells), old(pool.Chars()))
    ensures pool.cells == old(pool.cells)[owner := old(pool.cells)[owner].(content := c)]
  {
    hide MemoryPool.Valid, MemoryPool.Chars;
    assert forall a :: !Owns(LEAF, a);
    ghost var m := pool.Mem();
    pool.SetContent(owner, c);
    DenotesFrame(m, pool.Mem(), c, LEAF, v);
  }

  lemma StringDenotes(m: Memory, data: int, size: nat, text: Bytes)
    requires size == |text| && StringAt(m, data, text)
    ensures Denotes(m, OwnedString(data, size), LEAF, Str(text))
  {
    hide StringAt;
  }

  /** setString with a string just saved in the pool. */
  method WriteString(pool: MemoryPool, owner: int, data: int, size: nat, ghost text: Bytes, ghost chars: Bytes)
    requires pool.Valid() && owner in pool.cells && size == |text|
    requires StringAt(pool.Mem(), data, text) && chars <= pool.Chars()
    modifies pool`cells
    ensures pool.Valid() && pool.Chars() == old(pool.Chars())
    ensures Built(pool, owner, LEAF, Str(text), old(pool.cells), chars)
    ensures pool.cells == old(pool.cells)[owner := old(pool.cells)[owner].(content := OwnedString(data, size))]
  {
    hide MemoryPool.Valid, MemoryPool.Chars, StringAt;
    StringDenotes(pool.Mem(), data, size, text);
    WriteLeaf(pool, owner, OwnedString(data, size), Str(text));
  }

  /** After the content of child number `at` was rewritten, the owner holds the value with
      that child replaced. */
  lemma ChildRewritten(pool: MemoryPool, m: Memory, owner: int, sh: Shape, v: Value, at: nat, sub: Shape, v': Value)
    requires pool.Valid() && pool.begin == m.begin && IsNested(v) && at < |sh.kids| && |sh.kids| == Arity(v)
    requires Grew(pool.Mem(), m.cells, m.chars, sh.kids[at].addr)
    requires owner in m.cells && !Owns(sh, owner) && Tree(m, m.cells[owner].content, sh, v)
    requires v.Arr? == v'.Arr? && v.Obj? == v'.Obj? && Arity(v') == Arity(v)
    requires Holds(pool, sh.kids[at].addr, sub, Child(v', at)) && OwnsNew(sub, sh.kids[at].sub, m.cells)
    requires forall i :: 0 <= i < |sh.kids| && i != at ==> SameChild(v, i, v', i)
    requires v.Obj? ==> v'.members[at].key == v.members[at].key
    ensures Holds(pool, owner, Shape(sh.kids[at := Kid(sh.kids[at].addr, sub)]), v')
  {
    hide Denotes, Apart, KidDenotes;
    var c := m.cells[owner].content;
    var slot := sh.kids[at].addr;
    assert OwnedBy(sh.kids[at], slot);
    forall a | Owns(sh, a) ensures a in m.cells {
      OwnedAreCells(m, c, sh, v, a);
    }
    forall a | Owns(sh.kids[at].sub, a) ensures Owns(sh, a) {
      assert OwnedBy(sh.kids[at], a);
    }
    ReplaceKid(m, pool.Mem(), c, sh, v, at, sub, v');
    if Owns(Shape(sh.kids[at := Kid(slot, sub)]), owner) {
      OwnsReplace(sh, at, sub, owner);
    }
  }

  /** An array or object with child number `at` replaced. */
  function WithChild(v: Value, at: nat, child: Value): Value
    requires IsNested(v) && at < Arity(v)
  {
    if v.Arr? then Arr(v.elems[at := child]) else Obj(v.members[at := Member(v.members[at].key, child)])
  }

  /** The same for a collection whose slots are all newer than `cells`. */
  lemma NewChildRewritten(pool: MemoryPool, m: Memory, owner: int, sh: Shape, v: Value, at: nat, sub: Shape,
                          child: Value,
                          cells: map<int, Slot>, chars: Bytes)
    requires pool.Valid() && pool.begin == m.begin && IsNested(v) && at < |sh.kids| && |sh.kids| == Arity(v)
    requires Grew(pool.Mem(), m.cells, m.chars, sh.kids[at].addr) && Grew(m, cells, chars, owner)
    requires owner in m.cells && !Owns(sh, owner) && Tree(m, m.cells[owner].content, sh, v)
    requires Holds(pool, sh.kids[at].addr, sub, child) && OwnsNew(sub, sh.kids[at].sub, m.cells)
    requires owner in cells && OwnsNew(sh, LEAF, cells)
    ensures var after := Shape(sh.kids[at := Kid(sh.kids[at].addr, sub)]);
      && Holds(pool, owner, after, WithChild(v, at, child))
      && OwnsNew(after, LEAF, cells) && Grew(pool.Mem(), cells, chars, owner)
  {
    hide Holds, Tree;
    var slot := sh.kids[at].addr;
    var after := Shape(sh.kids[at := Kid(slot, sub)]);
    var v' := WithChild(v, at, child);
    assert forall i :: 0 <= i < |sh.kids| && i != at ==> SameChild(v, i, v', i);
    ChildRewritten(pool, m, owner, sh, v, at, sub, v');
    assert OwnedBy(sh.kids[at], slot) && Owns(sh, slot);
    assert !Owns(LEAF, slot);
    forall a | Owns(after, a) ensures a !in cells {
      assert !Owns(LEAF, a);
      OwnsReplace(sh, at, sub, a);
      if Owns(sh.kids[at].sub, a) {
        assert OwnedBy(sh.kids[at], a) && Owns(sh, a);
      }
    }
  }

  /** A child added to a collection whose slots are all newer than `cells`. */
  lemma AddedIsNew(m: Memory, m': Memory, owner: int, sh: Shape, slot: int, cells: map<int, Slot>, chars: Bytes)
    requires Grew(m, cells, chars, owner) && OwnsNew(sh, LEAF, cells) && owner in cells
    requires m.chars <= m'.chars && slot !in m.cells
    requires OnlyLinks(m.cells, m'.cells, owner, set a | a in Addrs(sh.kids))
    ensures Grew(m', cells, chars, owner) && OwnsNew(Shape(sh.kids + [Kid(slot, LEAF)]), LEAF, cells)
  {
    forall i | 0 <= i < |sh.kids| ensures Addrs(sh.kids)[i] !in cells {
      assert OwnedBy(sh.kids[i], sh.kids[i].addr) && Owns(sh, sh.kids[i].addr);
      assert !Owns(LEAF, sh.kids[i].addr);
    }
    forall a | Owns(Shape(sh.kids + [Kid(slot, LEAF)]), a) ensures a !in cells {
      assert !Owns(LEAF, a);
      OwnsAppend(sh, Kid(slot, LEAF), a);
    }
  }

  /** Saving a string disturbs no value. */
  lemma SavedStill(pool: MemoryPool, m: Memory, owner: int, sh: Shape, v: Value, cells: map<int, Slot>, chars: Bytes)
    requires pool.Valid() && pool.begin == m.begin && pool.cells == m.cells && m.chars <= pool.Chars()
    requires owner in m.cells && !Owns(sh, owner) && Tree(m, m.cells[owner].content, sh, v)
      && Grew(m, cells, chars, owner)
    ensures Holds(pool, owner, sh, v) && Grew(pool.Mem(), cells, chars, owner)
  {
    forall a | Owns(sh, a) ensures a in m.cells {
      OwnedAreCells(m, m.cells[owner].content, sh, v, a);
    }
    DenotesFrame(m, pool.Mem(), m.cells[owner].content, sh, v);
  }
}
