/** Deep copies between pools, and the room they need. */
module DeepCopy {
  import opened Values
  import opened Heap
  import opened Pool
  import opened Trees
  import opened Collections
  import opened Elements
  import opened StringRoom

  // ---- memoryUsage ----

  /** The bytes that a value takes in a pool: its slots, and its owned strings and keys with
      their terminators. */
  ghost function Usage(m: Memory, c: Content, sh: Shape, v: Value): nat
    requires Denotes(m, c, sh, v)
    decreases sh, 1
  {
    if c.OwnedString? then c.size + 1
    else if IsNested(v) then UsageFrom(m, c, sh, v, 0)
    else 0
  }

  /** The usage of the children from number `i` on. */
  ghost function UsageFrom(m: Memory, c: Content, sh: Shape, v: Value, i: nat): nat
    requires Denotes(m, c, sh, v) && IsNested(v) && i <= |sh.kids|
    decreases sh, 0, |sh.kids| - i
  {
    if i == |sh.kids| then 0 else KidUsage(m, c, sh, v, i) + UsageFrom(m, c, sh, v, i + 1)
  }

  ghost function KidUsage(m: Memory, c: Content, sh: Shape, v: Value, i: nat): nat
    requires Denotes(m, c, sh, v) && IsNested(v) && i < |sh.kids|
    decreases sh, 0, 0
  {
    var k := sh.kids[i];
    assert KidDenotes(m, k, v, i);
    SLOT_SIZE + Usage(m, m.cells[k.addr].content, k.sub, Child(v, i))
      + if m.cells[k.addr].key.OwnedKey? && v.Obj? then |v.members[i].key| + 1 else 0
  }

  /** memoryUsage of a variant. */
  method MemoryUsage(pool: MemoryPool, at: int, ghost sh: Shape, ghost v: Value) returns (total: nat)
    requires pool.Valid() && Holds(pool, at, sh, v)
    ensures total == Usage(pool.Mem(), pool.cells[at].content, sh, v)
    decreases sh, 2
  {
    hide MemoryPool.Valid, MemoryPool.Chars, Apart, KidDenotes;
    var c := pool.cells[at].content;
    match c
    case OwnedString(_, size) => return size + 1;
    case Collection(_, _, _) => total := CollectionUsage(pool, at, sh, v);
    case _ => return 0;
  }

  /** CollectionData::memoryUsage: the loop over the slots. */
  method CollectionUsage(pool: MemoryPool, at: int, ghost sh: Shape, ghost v: Value) returns (total: nat)
    requires pool.Valid() && Holds(pool, at, sh, v) && IsNested(v)
    ensures total == UsageFrom(pool.Mem(), pool.cells[at].content, sh, v, 0)
    decreases sh, 1
  {
    hide MemoryPool.Valid, MemoryPool.Chars, Denotes, Apart, KidUsage;
    ghost var m, c := pool.Mem(), pool.cells[at].content;
    HeldHead(pool, at, sh, v);
    total := 0;
    var s := pool.cells[at].content.head;
    ghost var i := 0;
    while s != NULL
      invariant 0 <= i <= |sh.kids| && s == if i < |sh.kids| then sh.kids[i].addr else NULL
      invariant total + UsageFrom(m, c, sh, v, i) == UsageFrom(m, c, sh, v, 0)
      decreases |sh.kids| - i
    {
      HeldSlot(pool, at, sh, v, i);
      var used := SlotUsage(pool, at, s, sh, v, i);
      total := total + used;
      s := NextOf(s, pool.cells[s]);
      i := i + 1;
    }
    if i < |sh.kids| {
      HeldSlot(pool, at, sh, v, i);
    }
  }

  method SlotUsage(pool: MemoryPool, at: int, s: int, ghost sh: Shape, ghost v: Value,
                   ghost i: nat) returns (total: nat)
    requires pool.Valid() && Holds(pool, at, sh, v) && IsNested(v) && i < |sh.kids| && sh.kids[i].addr == s
      && |sh.kids| == Arity(v)
    ensures total == KidUsage(pool.Mem(), pool.cells[at].content, sh, v, i)
    decreases sh, 0
  {
    hide MemoryPool.Valid, MemoryPool.Chars, Denotes, Apart;
    HeldSlot(pool, at, sh, v, i);
    total := MemoryUsage(pool, s, sh.kids[i].sub, Child(v, i));
    total := total + SLOT_SIZE;
    var key := pool.cells[s].key;
    if key.OwnedKey? {
      var text := ReadKey(pool, key, if v.Obj? then v.members[i].key else []);
      total := total + |text| + 1;
    }
  }

  // ---- What a copy takes ----

  /** The owned strings and keys of a value, in the order in which a copy saves them. */
  ghost function Texts(m: Memory, c: Content, sh: Shape, v: Value): seq<Bytes>
    requires Denotes(m, c, sh, v)
    decreases sh, 1
  {
    if c.OwnedString? then [v.s] else if IsNested(v) then TextsFrom(m, c, sh, v, 0) else []
  }

  ghost function TextsFrom(m: Memory, c: Content, sh: Shape, v: Value, i: nat): seq<Bytes>
    requires Denotes(m, c, sh, v) && IsNested(v) && i <= |sh.kids|
    decreases sh, 0, |sh.kids| - i
  {
    if i == |sh.kids| then [] else KidTexts(m, c, sh, v, i) + TextsFrom(m, c, sh, v, i + 1)
  }

  ghost function KidTexts(m: Memory, c: Content, sh: Shape, v: Value, i: nat): seq<Bytes>
    requires Denotes(m, c, sh, v) && IsNested(v) && i < |sh.kids|
    decreases sh, 0, 0
  {
    var k := sh.kids[i];
    assert KidDenotes(m, k, v, i);
    KeyTexts(m.cells[k.addr].key, v, i) + Texts(m, m.cells[k.addr].content, k.sub, Child(v, i))
  }

  function KeyTexts(key: Key, v: Value, i: nat): seq<Bytes>
    requires i < Arity(v)
  {
    if v.Obj? && key.OwnedKey? then [v.members[i].key] else []
  }

  /** The slots of a tree. */
  function Slots(sh: Shape): nat
    decreases sh, 1
  {
    SlotsFrom(sh, 0)
  }

  function SlotsFrom(sh: Shape, i: nat): nat
    requires i <= |sh.kids|
    decreases sh, 0, |sh.kids| - i
  {
    if i == |sh.kids| then 0 else 1 + Slots(sh.kids[i].sub) + SlotsFrom(sh, i + 1)
  }

  /** There is room for the slots, and for the strings, saved in that order. */
  ghost predicate Fits(room: int, chars: Bytes, texts: seq<Bytes>, slots: nat) {
    |SaveAll(chars, texts)| - |chars| + SLOT_SIZE * slots <= room
  }

  lemma {:induction false} SaveBothRuns(chars: Bytes, a: seq<Bytes>, b: seq<Bytes>)
    requires Terminated(chars)
    ensures SaveAll(chars, a + b) == SaveAll(SaveAll(chars, a), b)
    ensures |chars| <= |SaveAll(chars, a)| <= |SaveAll(chars, a + b)|
    decreases a
  {
    hide Terminated, Save;
    SaveAllExtends(chars, a);
    SaveAllExtends(SaveAll(chars, a), b);
    if a == [] {
      assert a + b == b;
    } else {
      SaveSaves(chars, a[0]);
      SaveBothRuns(Save(chars, a[0]), a[1..], b);
      assert (a + b)[1..] == a[1..] + b;
    }
  }

  lemma SaveSingle(chars: Bytes, text: Bytes)
    ensures SaveAll(chars, [text]) == Save(chars, text) && SaveAll(chars, []) == chars
  {
    assert SaveAll(Save(chars, text), [text][1..]) == Save(chars, text);
  }

  /** A copy never takes more than the memory usage of its source. */
  lemma UsageSuffices(m: Memory, c: Content, sh: Shape, v: Value, chars: Bytes)
    requires Denotes(m, c, sh, v) && Terminated(chars)
    ensures Fits(Usage(m, c, sh, v), chars, Texts(m, c, sh, v), Slots(sh))
  {
    SavesBound(chars, Texts(m, c, sh, v));
    UsageIsSum(m, c, sh, v);
  }

  /** The room of a list of strings, each counted as often as it occurs. */
  function TextRoom(texts: seq<Bytes>): nat {
    if texts == [] then 0 else |texts[0]| + 1 + TextRoom(texts[1..])
  }

  lemma {:induction false} TextRoomAdds(a: seq<Bytes>, b: seq<Bytes>)
    ensures TextRoom(a + b) == TextRoom(a) + TextRoom(b)
  {
    if a == [] {
      assert a + b == b;
    } else {
      TextRoomAdds(a[1..], b);
      assert (a + b)[1..] == a[1..] + b;
    }
  }

  lemma {:induction false} SavesBound(chars: Bytes, texts: seq<Bytes>)
    ensures |SaveAll(chars, texts)| <= |chars| + TextRoom(texts)
    decreases texts
  {
    if texts != [] {
      SavesBound(Save(chars, texts[0]), texts[1..]);
    }
  }

  lemma {:induction false} UsageIsSum(m: Memory, c: Content, sh: Shape, v: Value)
    requires Denotes(m, c, sh, v)
    ensures Usage(m, c, sh, v) == SLOT_SIZE * Slots(sh) + TextRoom(Texts(m, c, sh, v))
    decreases sh, 1
  {
    if IsNested(v) {
      UsageFromIsSum(m, c, sh, v, 0);
    } else {
      assert sh == LEAF;
      if c.OwnedString? {
        assert [v.s][1..] == [];
      }
    }
  }

  lemma {:induction false} UsageFromIsSum(m: Memory, c: Content, sh: Shape, v: Value, i: nat)
    requires Denotes(m, c, sh, v) && IsNested(v) && i <= |sh.kids|
    ensures UsageFrom(m, c, sh, v, i) == SLOT_SIZE * SlotsFrom(sh, i) + TextRoom(TextsFrom(m, c, sh, v, i))
    decreases sh, 0, |sh.kids| - i
  {
    hide Denotes, Usage, Texts, KidUsage, KidTexts;
    if i < |sh.kids| {
      KidUsageIsSum(m, c, sh, v, i);
      UsageFromIsSum(m, c, sh, v, i + 1);
      TextRoomAdds(KidTexts(m, c, sh, v, i), TextsFrom(m, c, sh, v, i + 1));
    }
  }

  lemma {:induction false} KidUsageIsSum(m: Memory, c: Content, sh: Shape, v: Value, i: nat)
    requires Denotes(m, c, sh, v) && IsNested(v) && i < |sh.kids|
    ensures KidUsage(m, c, sh, v, i) == SLOT_SIZE * (1 + Slots(sh.kids[i].sub)) + TextRoom(KidTexts(m, c, sh, v, i))
    decreases sh, 0, 0
  {
    hide Denotes, Usage, Texts, Slots;
    var k := sh.kids[i];
    KidOf(m, c, sh, v, i);
    UsageIsSum(m, m.cells[k.addr].content, k.sub, Child(v, i));
    var key := KeyTexts(m.cells[k.addr].key, v, i);
    TextRoomAdds(key, Texts(m, m.cells[k.addr].content, k.sub, Child(v, i)));
    assert key != [] ==> key[1..] == [];
  }

  lemma KidOf(m: Memory, c: Content, sh: Shape, v: Value, i: nat)
    requires Denotes(m, c, sh, v) && IsNested(v) && i < |sh.kids|
    ensures |sh.kids| == Arity(v) && sh.kids[i].addr in m.cells
    ensures ChildKey(m, m.cells[sh.kids[i].addr].key, v, i)
    ensures Denotes(m, m.cells[sh.kids[i].addr].content, sh.kids[i].sub, Child(v, i))
  {
    assert KidDenotes(m, sh.kids[i], v, i);
  }

  // ---- copyFrom ----

  /** VariantData::copyFrom: a copy that denotes the same value when there is room for its
      slots and strings, and only then; it takes exactly that room. */
  method CopyVariant(src: MemoryPool, from: int, dst: MemoryPool, to: int, ghost sh: Shape, ghost v: Value)
    returns (ok: bool, ghost after: Shape)
    requires src.Valid() && dst.Valid() && src != dst && src.buf != dst.buf
    requires Holds(src, from, sh, v) && to in dst.cells
    modifies dst`left, dst`right, dst`overflowed, dst`cells, dst.buf
    ensures dst.Valid()
    ensures ok ==> Built(dst, to, after, v, old(dst.cells), old(dst.Chars())) && dst.overflowed == old(dst.overflowed)
    ensures ok <==> old(Fits(Free(dst), dst.Chars(), Texts(src.Mem(), src.cells[from].content, sh, v), Slots(sh)))
    ensures ok ==> dst.Chars() == old(SaveAll(dst.Chars(), Texts(src.Mem(), src.cells[from].content, sh, v)))
    ensures ok ==> dst.right == old(dst.right) - SLOT_SIZE * Slots(sh)
    ensures !ok ==> dst.overflowed
    decreases sh, 2
  {
    hide MemoryPool.Valid, MemoryPool.Chars, Apart, KidDenotes, Grew, OwnsNew, Save;
    PoolEnds(dst);
    var c := src.cells[from].content;
    match c
    case Collection(isObject, _, _) =>
      WriteLeaf(dst, to, Collection(isObject, NULL, NULL), if isObject then Obj([]) else Arr([]));
      ok, after := CopyCollection(src, from, dst, to, sh, v, old(dst.cells), old(dst.Chars()));
    case OwnedString(data, size) =>
      SaveSingle(dst.Chars(), v.s);
      ok := CopyString(src, data, size, dst, to, v.s);
      after := LEAF;
    case _ =>
      WriteLeaf(dst, to, c, v);
      ok, after := true, LEAF;
  }

  /** The bytes of a saved string, where the pool keeps them. */
  lemma SavedBytes(pool: MemoryPool, data: int, text: Bytes)
    requires pool.Valid() && StringAt(pool.Mem(), data, text)
    ensures pool.begin <= data && data - pool.begin + |text| <= pool.buf.Length
    ensures pool.buf[data - pool.begin..data - pool.begin + |text|] == text
  {
    hide MemoryPool.SlotsLaid;
    var at := data - pool.begin;
    assert forall k :: 0 <= k < |text| ==> text[k] == pool.Chars()[at + k];
  }

  /** setString with a string that is not linked. */
  method CopyString(src: MemoryPool, data: int, size: nat, dst: MemoryPool, to: int,
                    ghost text: Bytes) returns (ok: bool)
    requires src.Valid() && dst.Valid() && src != dst && src.buf != dst.buf
    requires size == |text| && StringAt(src.Mem(), data, text) && to in dst.cells
    modifies dst`left, dst`overflowed, dst`cells, dst.buf
    ensures dst.Valid()
    ensures ok ==>
      Built(dst, to, LEAF, Str(text), old(dst.cells), old(dst.Chars())) && dst.overflowed == old(dst.overflowed)
    ensures ok <==> old(Free(dst)) >= |Save(old(dst.Chars()), text)| - |old(dst.Chars())|
    ensures ok ==> dst.Chars() == Save(old(dst.Chars()), text)
    ensures !ok ==> dst.overflowed
  {
    hide MemoryPool.SlotsLaid, Saved, StringAt;
    SavedBytes(src, data, text);
    var at := data - src.begin;
    var copy := dst.SaveString(src.buf[at..at + size]);
    if copy == NULL {
      dst.SetContent(to, NullContent);
      return false;
    }
    WriteString(dst, to, copy, size, text, old(dst.Chars()));
    return true;
  }

  /** The first `i` children. */
  function First(v: Value, i: nat): Value
    requires IsNested(v) && i <= Arity(v)
  {
    if v.Arr? then Arr(v.elems[..i]) else Obj(v.members[..i])
  }

  /** CollectionData::copyFrom: the loop over the slots. */
  method CopyCollection(src: MemoryPool, from: int, dst: MemoryPool, to: int, ghost sh: Shape, ghost v: Value,
                        ghost cells: map<int, Slot>, ghost chars: Bytes)
    returns (ok: bool, ghost after: Shape)
    requires src.Valid() && dst.Valid() && src != dst && src.buf != dst.buf
    requires Holds(src, from, sh, v) && IsNested(v) && Built(dst, to, LEAF, First(v, 0), cells, chars)
    modifies dst`left, dst`right, dst`overflowed, dst`cells, dst.buf
    ensures dst.Valid()
    ensures ok ==> Built(dst, to, after, v, cells, chars) && dst.overflowed == old(dst.overflowed)
    ensures ok <==> old(Fits(Free(dst), dst.Chars(), TextsFrom(src.Mem(), src.cells[from].content, sh, v, 0),
      Slots(sh)))
    ensures ok ==> dst.Chars() == old(SaveAll(dst.Chars(), TextsFrom(src.Mem(), src.cells[from].content, sh, v, 0)))
    ensures ok ==> dst.right == old(dst.right) - SLOT_SIZE * Slots(sh)
    ensures !ok ==> dst.overflowed
    decreases sh, 1
  {
    hide MemoryPool.Valid, MemoryPool.Chars, Denotes, Apart, Built, SaveAll, TextsFrom, SlotsFrom, KidTexts;
    HeldHead(src, from, sh, v);
    ghost var m, c := src.Mem(), src.cells[from].content;
    ghost var right, chars0 := dst.right, dst.Chars();
    after := LEAF;
    var s := src.cells[from].content.head;
    ghost var i := 0;
    while s != NULL
      invariant 0 <= i <= |sh.kids| && s == if i < |sh.kids| then sh.kids[i].addr else NULL
      invariant dst.Valid() && Built(dst, to, after, First(v, i), cells, chars) && |after.kids| == i
      invariant dst.overflowed == old(dst.overflowed)
      invariant SaveAll(dst.Chars(), TextsFrom(m, c, sh, v, i)) == SaveAll(chars0, TextsFrom(m, c, sh, v, 0))
      invariant dst.right + SLOT_SIZE * SlotsFrom(sh, 0) == right + SLOT_SIZE * SlotsFrom(sh, i)
      decreases |sh.kids| - i
    {
      HeldSlot(src, from, sh, v, i);
      PoolEnds(dst);
      CopyUnfold(m, c, sh, v, i, dst.Chars());
      ok, after := CopyKid(src, from, s, dst, to, sh, v, i, after, cells, chars);
      if !ok {
        return;
      }
      s := NextOf(s, src.cells[s]);
      i := i + 1;
    }
    if i < |sh.kids| {
      HeldSlot(src, from, sh, v, i);
    }
    PoolEnds(dst);
    assert First(v, i) == v;
    NothingLeft(m, c, sh, v, dst.Chars());
    return true, after;
  }

  lemma PoolEnds(pool: MemoryPool)
    requires pool.Valid()
    ensures Terminated(pool.Chars()) && pool.left == pool.begin + |pool.Chars()| && pool.left <= pool.right
  {
  }

  /** What is left to copy from child number `i` on: the child, and what follows. */
  lemma CopyUnfold(m: Memory, c: Content, sh: Shape, v: Value, i: nat, chars: Bytes)
    requires Denotes(m, c, sh, v) && IsNested(v) && i < |sh.kids| && Terminated(chars)
    ensures SlotsFrom(sh, i) == 1 + Slots(sh.kids[i].sub) + SlotsFrom(sh, i + 1)
    ensures var kid, rest := KidTexts(m, c, sh, v, i), TextsFrom(m, c, sh, v, i + 1);
      && SaveAll(chars, TextsFrom(m, c, sh, v, i)) == SaveAll(SaveAll(chars, kid), rest)
      && |chars| <= |SaveAll(chars, kid)| <= |SaveAll(chars, TextsFrom(m, c, sh, v, i))|
  {
    SaveBothRuns(chars, KidTexts(m, c, sh, v, i), TextsFrom(m, c, sh, v, i + 1));
  }

  lemma NothingLeft(m: Memory, c: Content, sh: Shape, v: Value, chars: Bytes)
    requires Denotes(m, c, sh, v) && IsNested(v)
    ensures SaveAll(chars, TextsFrom(m, c, sh, v, |sh.kids|)) == chars && SlotsFrom(sh, |sh.kids|) == 0
  {
  }

  /** One more child: a slot, with its key, and the copy of the value. */
  method CopyKid(src: MemoryPool, from: int, s: int, dst: MemoryPool, to: int, ghost sh: Shape, ghost v: Value,
                 ghost i: nat,
                 ghost before: Shape, ghost cells: map<int, Slot>, ghost chars: Bytes)
    returns (ok: bool, ghost after: Shape)
    requires src.Valid() && dst.Valid() && src != dst && src.buf != dst.buf
    requires Holds(src, from, sh, v) && IsNested(v) && i < |sh.kids| && |sh.kids| == Arity(v) && sh.kids[i].addr == s
    requires Built(dst, to, before, First(v, i), cells, chars) && |before.kids| == i
    modifies dst`left, dst`right, dst`overflowed, dst`cells, dst.buf
    ensures dst.Valid()
    ensures ok ==>
      Built(dst, to, after, First(v, i + 1), cells, chars) && |after.kids| == i + 1
        && dst.overflowed == old(dst.overflowed)
    ensures ok <==> old(Fits(Free(dst), dst.Chars(), KidTexts(src.Mem(), src.cells[from].content, sh, v, i),
                             1 + Slots(sh.kids[i].sub)))
    ensures ok ==> dst.Chars() == old(SaveAll(dst.Chars(), KidTexts(src.Mem(), src.cells[from].content, sh, v, i)))
    ensures ok ==> dst.right == old(dst.right) - SLOT_SIZE * (1 + Slots(sh.kids[i].sub))
    ensures !ok ==> dst.overflowed
    decreases sh, 0
  {
    hide MemoryPool.Valid, MemoryPool.Chars, Denotes, Apart, OwnsNew, Grew, OnlyLinks, SaveAll, Texts, Slots, Owns;
    hide KidDenotes, ChildKey, NextOf;
    HeldSlot(src, from, sh, v, i);
    PoolEnds(dst);
    ghost var keys, texts := KeyTexts(src.cells[s].key, v, i),
      Texts(src.Mem(), src.cells[s].content, sh.kids[i].sub, Child(v, i));
    SaveBothRuns(dst.Chars(), keys, texts);
    var slot;
    slot, after := CopySlot(src, s, dst, to, v, i, before, cells, chars);
    if slot == NULL {
      return false, after;
    }
    HeldSlot(dst, to, after, WithNull(v, i), i);
    ghost var m := dst.Mem();
    ghost var sub;
    ok, sub := CopyVariant(src, s, dst, slot, sh.kids[i].sub, Child(v, i));
    if ok {
      NewChildRewritten(dst, m, to, after, WithNull(v, i), i, sub, Child(v, i), cells, chars);
      assert WithChild(WithNull(v, i), i, Child(v, i)) == First(v, i + 1);
      after := Shape(after.kids[i := Kid(slot, sub)]);
    }
  }

  /** The first `i` children and a null with the key of child number `i`. */
  function WithNull(v: Value, i: nat): Value
    requires IsNested(v) && i < Arity(v)
  {
    Extended(First(v, i), if v.Obj? then v.members[i].key else [])
  }

  /** addMember or addElement for the copy of slot `s`. */
  method CopySlot(src: MemoryPool, s: int, dst: MemoryPool, to: int, ghost v: Value, ghost i: nat,
                  ghost before: Shape, ghost cells: map<int, Slot>, ghost chars: Bytes)
    returns (slot: int, ghost after: Shape)
    requires src.Valid() && dst.Valid() && src != dst && src.buf != dst.buf
    requires IsNested(v) && i < Arity(v) && s in src.cells && ChildKey(src.Mem(), src.cells[s].key, v, i)
    requires Built(dst, to, before, First(v, i), cells, chars) && |before.kids| == i
    modifies dst`left, dst`right, dst`overflowed, dst`cells, dst.buf
    ensures dst.Valid()
    ensures slot != NULL <==> old(Fits(Free(dst), dst.Chars(), KeyTexts(src.cells[s].key, v, i), 1))
    ensures slot == NULL ==> dst.overflowed
    ensures slot != NULL ==>
      && dst.overflowed == old(dst.overflowed) && dst.right == old(dst.right) - SLOT_SIZE
      && dst.Chars() == old(SaveAll(dst.Chars(), KeyTexts(src.cells[s].key, v, i)))
    ensures slot != NULL ==>
      && Built(dst, to, after, WithNull(v, i), cells, chars)
      && after == Shape(before.kids + [Kid(slot, LEAF)])
  {
    hide MemoryPool.Valid, MemoryPool.Chars, Tree, OwnsNew, Grew, OnlyLinks, Save;
    ghost var m := dst.Mem();
    var key := src.cells[s].key;
    SaveSingle(dst.Chars(), if v.Obj? then v.members[i].key else []);
    if key != NoKey {
      var text;
      if key.OwnedKey? {
        text := ReadKey(src, key, v.members[i].key);
        CStrOfNulFree(text);
      } else {
        text := key.text;
      }
      slot := AddMember(dst, to, text, key.OwnedKey?, before, First(v, i).members);
    } else {
      slot := AddChild(dst, to, NoKey, [], before, First(v, i));
    }
    after := Shape(before.kids + [Kid(slot, LEAF)]);
    if slot != NULL {
      AddedIsNew(m, dst.Mem(), to, before, slot, cells, chars);
    }
  }

  // ---- Strings without NUL ----

  /** The slots of a tree, as a set of addresses. */
  ghost function OwnedSet(sh: Shape): set<int>
    decreases sh, 1
  {
    OwnedFrom(sh, 0)
  }

  ghost function OwnedFrom(sh: Shape, i: nat): set<int>
    requires i <= |sh.kids|
    decreases sh, 0, |sh.kids| - i
  {
    if i == |sh.kids| then {} else {sh.kids[i].addr} + OwnedSet(sh.kids[i].sub) + OwnedFrom(sh, i + 1)
  }

  /** No slot is reached twice, so there are as many addresses as slots. */
  lemma {:induction false} OwnedCount(sh: Shape)
    requires Apart(sh)
    ensures |OwnedSet(sh)| == Slots(sh)
    ensures forall a :: a in OwnedSet(sh) ==> Owns(sh, a)
    decreases sh, 1
  {
    OwnedFromCount(sh, 0);
  }

  lemma {:induction false} OwnedFromCount(sh: Shape, i: nat)
    requires Apart(sh) && i <= |sh.kids|
    ensures |OwnedFrom(sh, i)| == SlotsFrom(sh, i)
    ensures forall a :: a in OwnedFrom(sh, i) ==> exists j :: i <= j < |sh.kids| && OwnedBy(sh.kids[j], a)
    decreases sh, 0, |sh.kids| - i
  {
    hide OwnedSet, Slots;
    if i < |sh.kids| {
      var k := sh.kids[i];
      OwnedCount(k.sub);
      OwnedFromCount(sh, i + 1);
      var own, rest := {k.addr} + OwnedSet(k.sub), OwnedFrom(sh, i + 1);
      forall a | a in own ensures OwnedBy(k, a) && a !in rest {
        assert forall j :: i < j < |sh.kids| ==> !OwnedBy(sh.kids[j], a);
      }
      assert |own + rest| == |own| + |rest|;
      assert |own| == 1 + |OwnedSet(k.sub)|;
    }
  }

  /** Slots of a pool do not overlap. */
  lemma {:induction false} SlotsDoNotOverlap(addrs: set<int>, right: int, end: int)
    requires right <= end && (end - right) % SLOT_SIZE == 0 && forall a :: a in addrs ==> InSlots(right, end, a)
    ensures SLOT_SIZE * |addrs| <= end - right
    decreases end - right
  {
    var rest := addrs - {right};
    if right == end {
      assert addrs == {} by {
        forall a ensures a !in addrs {
          assert a in addrs ==> InSlots(right, end, a);
        }
      }
    } else {
      forall a | a in rest ensures InSlots(right + SLOT_SIZE, end, a) {
        NextSlot(right, end, a);
      }
      SlotsDoNotOverlap(rest, right + SLOT_SIZE, end);
      assert |addrs| <= |rest| + 1;
    }
  }

  lemma NextSlot(right: int, end: int, a: int)
    requires (end - right) % SLOT_SIZE == 0 && InSlots(right, end, a) && a != right
    ensures right + SLOT_SIZE <= a
  {
    var m, n := (end - right) / SLOT_SIZE, (end - a) / SLOT_SIZE;
    assert end - right == SLOT_SIZE * m && end - a == SLOT_SIZE * n;
  }

  lemma {:induction false} OwnedIsNotRoot(m: Memory, c: Content, sh: Shape, v: Value, a: int)
    requires Denotes(m, c, sh, v) && Owns(sh, a)
    ensures a != ROOT
    decreases sh
  {
    var i :| 0 <= i < |sh.kids| && OwnedBy(sh.kids[i], a);
    LinkedNext(m.cells, c.head, c.tail, Addrs(sh.kids), i);
    KidOf(m, c, sh, v, i);
    if sh.kids[i].addr != a {
      OwnedIsNotRoot(m, m.cells[sh.kids[i].addr].content, sh.kids[i].sub, Child(v, i), a);
    }
  }

  /** The owned strings of a value, when none holds a NUL, are saved in its own pool. */
  lemma {:induction false} TextsAreSaved(m: Memory, c: Content, sh: Shape, v: Value, s: Bytes)
    requires Denotes(m, c, sh, v) && NulFree(v) && s in Texts(m, c, sh, v)
    ensures 0 !in s && Saved(m.chars, s)
    decreases sh, 1
  {
    if c.OwnedString? {
      assert Matches(m.chars, c.data - m.begin, s);
    } else {
      TextsFromAreSaved(m, c, sh, v, 0, s);
    }
  }

  lemma {:induction false} TextsFromAreSaved(m: Memory, c: Content, sh: Shape, v: Value, i: nat, s: Bytes)
    requires Denotes(m, c, sh, v) && IsNested(v) && NulFree(v) && i <= |sh.kids| && s in TextsFrom(m, c, sh, v, i)
    ensures 0 !in s && Saved(m.chars, s)
    decreases sh, 0, |sh.kids| - i
  {
    hide Denotes, Texts, Saved, StringAt;
    if s !in KidTexts(m, c, sh, v, i) {
      TextsFromAreSaved(m, c, sh, v, i + 1, s);
    } else {
      var k := sh.kids[i];
      KidOf(m, c, sh, v, i);
      if s in KeyTexts(m.cells[k.addr].key, v, i) {
        KeyIsSaved(m, m.cells[k.addr].key.at, s);
      } else {
        TextsAreSaved(m, m.cells[k.addr].content, k.sub, Child(v, i), s);
      }
    }
  }

  lemma KeyIsSaved(m: Memory, at: int, s: Bytes)
    requires CStringAt(m, at, s)
    ensures 0 !in s && Saved(m.chars, s)
  {
    assert Matches(m.chars, at - m.begin, s);
  }

  /** A value whose strings have no NUL fits, copied, in the memory that its pool has in use,
      whatever the order in which its strings were saved. */
  lemma NulFreeFits(pool: MemoryPool, at: int, sh: Shape, v: Value)
    requires pool.Valid() && Holds(pool, at, sh, v) && NulFree(v)
    ensures Fits((pool.left - pool.begin) + (pool.end - pool.right), [],
                 Texts(pool.Mem(), pool.cells[at].content, sh, v), Slots(sh))
  {
    hide Texts, Slots, Denotes, Apart, MemoryPool.Chars;
    var m, c := pool.Mem(), pool.cells[at].content;
    PoolEnds(pool);
    OwnedCount(sh);
    forall a | a in OwnedSet(sh) ensures InSlots(pool.right, pool.end, a) {
      OwnedAreCells(m, c, sh, v, a);
      OwnedIsNotRoot(m, c, sh, v, a);
    }
    SlotsDoNotOverlap(OwnedSet(sh), pool.right, pool.end);
    forall s | s in Texts(m, c, sh, v) ensures 0 !in s && Saved(m.chars, s) {
      TextsAreSaved(m, c, sh, v, s);
    }
    SavesFit(m.chars, Texts(m, c, sh, v));
  }

  // ---- Documents constructed from others ----

  /** A document constructed from a value has a pool of its memory usage, padded. That is
      always enough: it never overflows, and it denotes the same value. */
  method CopyDocument(src: MemoryPool, at: int, address: nat, ghost sh: Shape, ghost v: Value)
    returns (dst: MemoryPool, ghost after: Shape)
    requires src.Valid() && Holds(src, at, sh, v)
    requires address % ALIGNMENT == 0 && address > 0
    ensures fresh(dst) && dst.Valid() && !dst.overflowed && Holds(dst, ROOT, after, v)
    ensures dst.end - dst.begin == AddPadding(old(Usage(src.Mem(), src.cells[at].content, sh, v)))
  {
    hide MemoryPool.SlotsLaid, MemoryPool.Chars, Denotes, Usage, Texts, Slots, SaveAll;
    var requiredSize := MemoryUsage(src, at, sh, v);
    dst := new MemoryPool(address, AddPadding(requiredSize));
    UsageSuffices(src.Mem(), src.cells[at].content, sh, v, dst.Chars());
    var ok;
    ok, after := CopyVariant(src, at, dst, ROOT, sh, v);
  }

  /** copyAssignFrom, which copying a document and garbageCollect rest on: the capacity of the
      source is what the copy gets. It succeeds when the slots and the strings, saved in the
      order of the copy, fit; so always when no string holds a NUL. */
  method CopyAssign(src: MemoryPool, address: nat, ghost sh: Shape, ghost v: Value)
    returns (dst: MemoryPool, ok: bool, ghost after: Shape)
    requires src.Valid() && Holds(src, ROOT, sh, v)
    requires address % ALIGNMENT == 0 && address > 0
    ensures fresh(dst) && dst.Valid() && dst.end - dst.begin == src.end - src.begin
    ensures ok ==> !dst.overflowed && Holds(dst, ROOT, after, v)
    ensures !ok ==> dst.overflowed
    ensures ok <==> Fits(src.end - src.begin, [], Texts(src.Mem(), src.cells[ROOT].content, sh, v), Slots(sh))
    ensures NulFree(v) ==> ok
  {
    hide MemoryPool.Chars, MemoryPool.SlotsLaid, Denotes, Texts, Slots, SaveAll, NulFree, Apart, Owns, AddPadding;
    if NulFree(v) {
      NulFreeFits(src, ROOT, sh, v);
    }
    WholeCapacity(src);
    dst := new MemoryPool(address, AddPadding(src.end - src.begin));
    ok, after := CopyVariant(src, ROOT, dst, ROOT, sh, v);
  }

  lemma WholeCapacity(pool: MemoryPool)
    requires pool.Valid()
    ensures AddPadding(pool.end - pool.begin) == pool.end - pool.begin
    ensures pool.left - pool.begin + pool.end - pool.right <= pool.end - pool.begin
  {
  }

  // ---- A copy that does not fit ----

  const LONG: Bytes := [97, 97, 97, 97, 97, 0, 98]
  const SHORT: Bytes := [98]

  lemma SharedSave()
    ensures Save([], LONG) == LONG + [0] && Save(LONG + [0], SHORT) == LONG + [0]
    ensures |SaveAll([], [SHORT, LONG])| == 10
  {
    hide Saved, Save, SaveAll;
    SaveFirst();
    ShortEndsLong();
    SaveBoth(SHORT, LONG);
    LongIsNotShort();
    SaveBoth(LONG, SHORT);
  }

  lemma SaveFirst()
    ensures Save([], LONG) == LONG + [0]
  {
    assert forall i: nat :: !Matches([], i, LONG);
    assert [] + LONG + [0] == LONG + [0];
  }

  lemma ShortEndsLong()
    ensures Save(LONG + [0], SHORT) == LONG + [0]
  {
    var all := LONG + [0];
    assert all[6..7] == SHORT && IsStart(all, 6) && Matches(all, 6, SHORT);
  }

  lemma LongIsNotShort()
    ensures |Save(SHORT + [0], LONG)| == 10
  {
    assert forall i: nat :: !Matches(SHORT + [0], i, LONG);
  }

  /** An array of two strings whose second element is written first: the string of the first
      element ends it after a NUL, is found there and shared. Its pool is full, and a copy
      into the same capacity, which saves the first element's string first, overflows. */
  method CopyOfSharedString() returns (src: MemoryPool, dst: MemoryPool, ok: bool, ghost sh: Shape)
    ensures src.Valid() && !src.overflowed && Holds(src, ROOT, sh, Arr([Str(SHORT), Str(LONG)]))
    ensures dst.Valid() && dst.end - dst.begin == src.end - src.begin && src.left == src.right
    ensures !ok && dst.overflowed
  {
    var first, second;
    src, first, second, sh := SharedDocument();
    ghost var after;
    ghost var v := Arr([Str(SHORT), Str(LONG)]);
    SharedTexts(src.Mem(), src.cells[ROOT].content, sh, v);
    SharedSave();
    dst, ok, after := CopyAssign(src, 8, sh, v);
  }

  lemma SharedTexts(m: Memory, c: Content, sh: Shape, v: Value)
    requires Denotes(m, c, sh, v) && v == Arr([Str(SHORT), Str(LONG)])
    requires forall i :: 0 <= i < |sh.kids| ==>
      sh.kids[i].addr in m.cells && m.cells[sh.kids[i].addr].content.OwnedString?
    ensures Texts(m, c, sh, v) == [SHORT, LONG] && Slots(sh) == 2
  {
    hide Denotes, KidTexts, Slots;
    StringElement(m, c, sh, v, 0);
    StringElement(m, c, sh, v, 1);
    assert TextsFrom(m, c, sh, v, 2) == [] && TextsFrom(m, c, sh, v, 1) == [LONG] + [];
    assert SlotsFrom(sh, 2) == 0 && SlotsFrom(sh, 1) == 1;
    TextsOfArray(m, c, sh, v);
  }

  lemma TextsOfArray(m: Memory, c: Content, sh: Shape, v: Value)
    requires Denotes(m, c, sh, v) && v.Arr?
    ensures Texts(m, c, sh, v) == TextsFrom(m, c, sh, v, 0) && Slots(sh) == SlotsFrom(sh, 0)
  {
    hide TextsFrom, SlotsFrom;
  }

  lemma StringElement(m: Memory, c: Content, sh: Shape, v: Value, i: nat)
    requires Denotes(m, c, sh, v) && v.Arr? && i < |v.elems| && v.elems[i].Str?
    requires i < |sh.kids| ==> sh.kids[i].addr in m.cells && m.cells[sh.kids[i].addr].content.OwnedString?
    ensures |sh.kids| == |v.elems| && KidTexts(m, c, sh, v, i) == [v.elems[i].s] && Slots(sh.kids[i].sub) == 0
  {
    KidOf(m, c, sh, v, i);
    assert sh.kids[i].sub == LEAF;
  }

  /** A member's key is saved before its string, as in source order. */
  lemma {:induction false} KeyComesFirst(m: Memory, c: Content, sh: Shape, v: Value)
    requires Denotes(m, c, sh, v) && v.Obj? && |v.members| == 1 && v.members[0].val.Str?
    requires forall i :: 0 <= i < |sh.kids| ==>
      && sh.kids[i].addr in m.cells
      && m.cells[sh.kids[i].addr].key.OwnedKey? && m.cells[sh.kids[i].addr].content.OwnedString?
    ensures Texts(m, c, sh, v) == [v.members[0].key, v.members[0].val.s]
  {
    var k := v.members[0].key;
    var t := v.members[0].val.s;
    assert |sh.kids| == 1;
    KidOf(m, c, sh, v, 0);
    assert Child(v, 0) == Str(t);
    assert KeyTexts(m.cells[sh.kids[0].addr].key, v, 0) == [k];
    assert Texts(m, m.cells[sh.kids[0].addr].content, sh.kids[0].sub, Child(v, 0)) == [t];
    assert KidTexts(m, c, sh, v, 0) == [k, t];
    assert TextsFrom(m, c, sh, v, 1) == [];
    assert TextsFrom(m, c, sh, v, 0) == [k, t];
    assert !c.OwnedString?;
  }

  method SharedDocument() returns (pool: MemoryPool, first: int, second: int, ghost sh: Shape)
    ensures fresh(pool) && fresh(pool.buf) && pool.Valid() && !pool.overflowed
    ensures Holds(pool, ROOT, sh, Arr([Str(SHORT), Str(LONG)]))
    ensures pool.begin == 8 && pool.end == 80 && pool.left == pool.right
    ensures forall i :: 0 <= i < |sh.kids| ==>
      sh.kids[i].addr in pool.cells && pool.cells[sh.kids[i].addr].content.OwnedString?
  {
    hide MemoryPool.Valid, Holds, SaveAll, Save;
    pool, first, second, sh := TwoNulls();
    SharedSave();
    PoolEnds(pool);
    sh := WriteElement(pool, second, LONG, sh, Arr([Null, Null]), 1);
    assert [Null, Null][1 := Str(LONG)] == [Null, Str(LONG)];
    PoolEnds(pool);
    assert Addrs(sh.kids)[0] == first && Addrs(sh.kids)[1] == second;
    sh := WriteElement(pool, first, SHORT, sh, Arr([Null, Str(LONG)]), 0);
    assert [Null, Str(LONG)][0 := Str(SHORT)] == [Str(SHORT), Str(LONG)];
    assert Addrs(sh.kids)[0] == first && Addrs(sh.kids)[1] == second;
    PoolEnds(pool);
  }

  method OneNull() returns (pool: MemoryPool, first: int)
    ensures fresh(pool) && fresh(pool.buf) && pool.Valid() && !pool.overflowed && pool.Chars() == []
    ensures Holds(pool, ROOT, Shape([Kid(first, LEAF)]), Arr([Null])) && first in pool.cells
    ensures pool.begin == 8 && pool.end == 80 && pool.left == 8 && pool.right == 48
  {
    hide MemoryPool.SlotsLaid, Tree, OnlyLinks, Owns, Grew, OwnsNew;
    pool := new MemoryPool(8, 72);
    WriteLeaf(pool, ROOT, Collection(false, NULL, NULL), Arr([]));
    first := AddChild(pool, ROOT, NoKey, [], LEAF, Arr([]));
    assert Extended(Arr([]), []) == Arr([Null]) && LEAF.kids + [Kid(first, LEAF)] == [Kid(first, LEAF)];
  }

  /** A document of two null elements, with room for eight characters. */
  method TwoNulls() returns (pool: MemoryPool, first: int, second: int, ghost sh: Shape)
    ensures fresh(pool) && fresh(pool.buf) && pool.Valid() && !pool.overflowed && pool.Chars() == []
    ensures Holds(pool, ROOT, sh, Arr([Null, Null])) && Addrs(sh.kids) == [first, second] && first != second
    ensures first in pool.cells && second in pool.cells
    ensures pool.begin == 8 && pool.end == 80 && pool.right == 16
  {
    hide MemoryPool.Valid, MemoryPool.Chars, Holds, OnlyLinks;
    pool, first := OneNull();
    second := AddChild(pool, ROOT, NoKey, [], Shape([Kid(first, LEAF)]), Arr([Null]));
    assert Extended(Arr([Null]), []) == Arr([Null, Null]);
    sh := Shape([Kid(first, LEAF)] + [Kid(second, LEAF)]);
  }

  /** setString into element number `i` of the root. */
  method WriteElement(pool: MemoryPool, slot: int, text: Bytes, ghost sh: Shape, ghost v: Value, ghost i: nat)
    returns (ghost after: Shape)
    requires pool.Valid() && Holds(pool, ROOT, sh, v) && v.Arr? && i < |v.elems| == |sh.kids| && sh.kids[i].addr == slot
    requires |Save(pool.Chars(), text)| - |pool.Chars()| <= Free(pool)
    modifies pool`left, pool`overflowed, pool`cells, pool.buf
    ensures pool.Valid() && pool.overflowed == old(pool.overflowed) && pool.Chars() == Save(old(pool.Chars()), text)
    ensures Holds(pool, ROOT, after, Arr(v.elems[i := Str(text)])) && Addrs(after.kids) == Addrs(sh.kids)
    ensures slot in pool.cells && pool.cells.Keys == old(pool.cells).Keys && pool.cells[slot].content.OwnedString?
    ensures forall a :: a in pool.cells && a != slot ==> pool.cells[a] == old(pool.cells)[a]
  {
    hide MemoryPool.SlotsLaid, Tree, StringAt, Saved;
    ghost var m := pool.Mem();
    HeldSlot(pool, ROOT, sh, v, i);
    var data := pool.SaveString(text);
    WriteString(pool, slot, data, |text|, text, m.chars);
    after := Shape(sh.kids[i := Kid(slot, LEAF)]);
    ChildRewritten(pool, m, ROOT, sh, v, i, LEAF, Arr(v.elems[i := Str(text)]));
  }
}
