/** Variants in memory: slots linked into lists by relative offsets, the characters their
    strings point at, and the value such a structure denotes. */
module Heap {
  import opened Values

  /** sizeof(VariantSlot) and the alignment of the pool on a 64-bit target. */
  const SLOT_SIZE: nat := 32
  const ALIGNMENT: nat := 8

  /** Addresses are machine addresses, 0 the null pointer; the document's own root variant,
      which lies outside the pool, has an address of its own. */
  const NULL: int := 0
  const ROOT: int := -1

  /** The content of a VariantData together with its type flags. */
  datatype Content =
    | NullContent
    | BoolContent(b: bool)
    | IntContent(n: int, signed: bool)
    | FloatContent(lit: FloatLit)
    | OwnedString(data: int, size: nat)
    | LinkedString(text: Bytes)
    | Collection(isObject: bool, head: int, tail: int)

  /** The range of a signed or unsigned 64-bit integer. */
  predicate FitsInteger(n: int, signed: bool) {
    if signed then -0x8000_0000_0000_0000 <= n < 0x8000_0000_0000_0000 else 0 <= n < 0x1_0000_0000_0000_0000
  }

  /** A slot's key: absent, a C string in the pool, or one outside it. */
  datatype Key = NoKey | OwnedKey(at: int) | LinkedKey(text: Bytes)

  /** VariantSlot; `next` counts slots, 0 meaning none. */
  datatype Slot = Slot(content: Content, next: int, key: Key)

  /** What the meaning of variants depends on: the saved characters, which start at
      address `begin`, and the slots. */
  datatype Memory = Memory(begin: int, chars: Bytes, cells: map<int, Slot>)

  /** VariantSlot::next */
  function NextOf(a: int, s: Slot): int {
    if s.next == 0 then NULL else a + s.next * SLOT_SIZE
  }

  /** VariantSlot::setNext */
  function WithNext(a: int, s: Slot, target: int): (r: Slot)
    requires target != NULL ==> (target - a) % SLOT_SIZE == 0 && target != a
    ensures LinksTo(a, r, target) && r == s.(next := r.next)
  {
    s.(next := if target == NULL then 0 else (target - a) / SLOT_SIZE)
  }

  // ---- Slot lists ----

  predicate Distinct(addrs: seq<int>) {
    forall i, j :: 0 <= i < j < |addrs| ==> addrs[i] != addrs[j]
  }

  /** The slots from `head` to `tail` are exactly `addrs`, in order, without repetition. */
  ghost predicate Linked(cells: map<int, Slot>, head: int, tail: int, addrs: seq<int>) {
    && head == (if addrs == [] then NULL else addrs[0])
    && tail == (if addrs == [] then NULL else addrs[|addrs| - 1])
    && Distinct(addrs)
    && (forall i :: 0 <= i < |addrs| ==> addrs[i] in cells && addrs[i] != NULL && addrs[i] != ROOT)
    && (forall i :: 0 <= i < |addrs| ==> LinkedAt(cells, addrs, i))
  }

  /** Slot number `i` leads to the next one; the last slot has no link at all. */
  ghost predicate LinkedAt(cells: map<int, Slot>, addrs: seq<int>, i: nat)
    requires i < |addrs|
  {
    var a := addrs[i];
    a in cells && LinksTo(a, cells[a], if i + 1 < |addrs| then addrs[i + 1] else NULL)
  }

  predicate LinksTo(a: int, s: Slot, target: int) { NextOf(a, s) == target && (target == NULL ==> s.next == 0) }

  lemma LinkedNext(cells: map<int, Slot>, head: int, tail: int, addrs: seq<int>, i: nat)
    requires Linked(cells, head, tail, addrs) && i < |addrs|
    ensures addrs[i] in cells && addrs[i] != NULL && addrs[i] != ROOT
    ensures NextOf(addrs[i], cells[addrs[i]]) == if i + 1 < |addrs| then addrs[i + 1] else NULL
    ensures i + 1 == |addrs| <==> cells[addrs[i]].next == 0
  {
    assert LinkedAt(cells, addrs, i);
    assert i + 1 < |addrs| ==> LinkedAt(cells, addrs, i + 1);
  }

  /** A list determines its slots: two descriptions of one list are the same. */
  lemma {:induction false} LinkedIsUnique(cells: map<int, Slot>, head: int, t0: int, t1: int, a: seq<int>, b: seq<int>)
    requires Linked(cells, head, t0, a) && Linked(cells, head, t1, b)
    ensures a == b
  {
    var n := if |a| < |b| then |a| else |b|;
    LinkedPrefix(cells, head, t0, t1, a, b, n);
    if n > 0 {
      assert a[n - 1] == a[..n][n - 1] == b[..n][n - 1] == b[n - 1];
      LinkedNext(cells, head, t0, a, n - 1);
      LinkedNext(cells, head, t1, b, n - 1);
    }
    assert a[..n] == a && b[..n] == b;
  }

  lemma {:induction false} LinkedPrefix(cells: map<int, Slot>, head: int, t0: int, t1: int, a: seq<int>, b: seq<int>,
                                        n: nat)
    requires Linked(cells, head, t0, a) && Linked(cells, head, t1, b)
    requires n <= |a| && n <= |b|
    ensures a[..n] == b[..n]
  {
    if n > 0 {
      LinkedPrefix(cells, head, t0, t1, a, b, n - 1);
      if n > 1 {
        assert a[n - 2] == a[..n - 1][n - 2] == b[..n - 1][n - 2] == b[n - 2];
        LinkedNext(cells, head, t0, a, n - 2);
        LinkedNext(cells, head, t1, b, n - 2);
      }
    }
  }

  /** A list stays while its links do. */
  lemma LinkedSame(cells: map<int, Slot>, cells': map<int, Slot>, head: int, tail: int, addrs: seq<int>)
    requires Linked(cells, head, tail, addrs)
    requires forall i :: 0 <= i < |addrs| ==> addrs[i] in cells' && cells'[addrs[i]].next == cells[addrs[i]].next
    ensures Linked(cells', head, tail, addrs)
  {
    forall i | 0 <= i < |addrs|
      ensures addrs[i] in cells' && addrs[i] != NULL && addrs[i] != ROOT && LinkedAt(cells', addrs, i)
    {
      LinkedNext(cells, head, tail, addrs, i);
    }
  }

  // ---- Strings ----

  /** Strings are saved at the start of the characters and after a terminator. */
  predicate IsStart(chars: Bytes, i: int) { i == 0 || (0 < i <= |chars| && chars[i - 1] == 0) }

  /** `text` was saved at `at`: it starts there and is followed by a terminator. */
  predicate StringAt(m: Memory, at: int, text: Bytes) {
    var i := at - m.begin;
    && 0 <= i && i + |text| < |m.chars| && IsStart(m.chars, i)
    && m.chars[i..i + |text|] == text && m.chars[i + |text|] == 0
  }

  /** The C string at `at` is `text`. */
  predicate CStringAt(m: Memory, at: int, text: Bytes) { 0 !in text && StringAt(m, at, text) }

  predicate KeyIs(m: Memory, key: Key, text: Bytes) {
    match key
    case NoKey => false
    case OwnedKey(at) => CStringAt(m, at, text)
    case LinkedKey(t) => CStr(t) == text
  }

  /** A saved string read as a C string ends at its first NUL. */
  lemma StringAtIsCString(m: Memory, at: int, text: Bytes)
    requires StringAt(m, at, text)
    ensures CStringAt(m, at, CStr(text))
  {
  }

  lemma CStringIsUnique(m: Memory, at: int, a: Bytes, b: Bytes)
    requires CStringAt(m, at, a) && CStringAt(m, at, b)
    ensures a == b
  {
  }

  // ---- Trees ----

  /** Where the slots of a value lie: those of its elements or members, in list order. */
  datatype Shape = Shape(kids: seq<Kid>)
  datatype Kid = Kid(addr: int, sub: Shape)

  const LEAF := Shape([])

  function Addrs(kids: seq<Kid>): (r: seq<int>)
    ensures |r| == |kids| && forall i :: 0 <= i < |r| ==> r[i] == kids[i].addr
  {
    seq(|kids|, i requires 0 <= i < |kids| => kids[i].addr)
  }

  /** The slot at `a` belongs to the structure. */
  ghost predicate Owns(sh: Shape, a: int) {
    exists i :: 0 <= i < |sh.kids| && OwnedBy(sh.kids[i], a)
  }

  ghost predicate OwnedBy(k: Kid, a: int) { k.addr == a || Owns(k.sub, a) }

  /** The structure is a tree: no slot is reached twice. */
  ghost predicate Apart(sh: Shape) {
    && (forall i :: 0 <= i < |sh.kids| ==> !Owns(sh.kids[i].sub, sh.kids[i].addr) && Apart(sh.kids[i].sub))
    && (forall i, j, a :: 0 <= i < j < |sh.kids| && OwnedBy(sh.kids[i], a) ==> !OwnedBy(sh.kids[j], a))
  }

  /** The number of elements or members of a value. */
  function Arity(v: Value): nat {
    match v
    case Arr(es) => |es|
    case Obj(ms) => |ms|
    case _ => 0
  }

  function Child(v: Value, i: nat): Value
    requires i < Arity(v)
  {
    if v.Arr? then v.elems[i] else v.members[i].val
  }

  predicate ChildKey(m: Memory, key: Key, v: Value, i: nat)
    requires i < Arity(v)
  {
    if v.Arr? then key == NoKey else KeyIs(m, key, v.members[i].key)
  }

  /** The content `c`, with its slots where `sh` says, denotes `v`. */
  ghost predicate Denotes(m: Memory, c: Content, sh: Shape, v: Value)
    decreases sh
  {
    match v
    case Null => c == NullContent && sh == LEAF
    case Bool(b) => c == BoolContent(b) && sh == LEAF
    case Int(n) => c.IntContent? && c.n == n && FitsInteger(n, c.signed) && sh == LEAF
    case Float(lit) => c == FloatContent(lit) && sh == LEAF
    case Str(s) => sh == LEAF &&
      ((c.OwnedString? && c.size == |s| && StringAt(m, c.data, s)) || c == LinkedString(s))
    case _ =>
      && c.Collection? && c.isObject == v.Obj?
      && |sh.kids| == Arity(v)
      && Linked(m.cells, c.head, c.tail, Addrs(sh.kids))
      && forall i :: 0 <= i < |sh.kids| ==> KidDenotes(m, sh.kids[i], v, i)
  }

  ghost predicate KidDenotes(m: Memory, k: Kid, v: Value, i: nat)
    decreases k, 0
  {
    && i < Arity(v)
    && k.addr in m.cells
    && ChildKey(m, m.cells[k.addr].key, v, i)
    && Denotes(m, m.cells[k.addr].content, k.sub, Child(v, i))
  }

  /** A tree that denotes `v`. */
  ghost predicate Tree(m: Memory, c: Content, sh: Shape, v: Value) { Denotes(m, c, sh, v) && Apart(sh) }

  // ---- Framing ----

  /** Memory in which saved strings keep their place. */
  predicate Keeps(m: Memory, m': Memory) { m.begin == m'.begin && m.chars <= m'.chars }

  lemma StringStays(m: Memory, m': Memory, at: int, text: Bytes)
    requires Keeps(m, m') && StringAt(m, at, text)
    ensures StringAt(m', at, text)
  {
  }

  lemma KeyStays(m: Memory, m': Memory, key: Key, text: Bytes)
    requires Keeps(m, m') && KeyIs(m, key, text)
    ensures KeyIs(m', key, text)
  {
  }

  lemma {:induction false} OwnedAreCells(m: Memory, c: Content, sh: Shape, v: Value, a: int)
    requires Denotes(m, c, sh, v) && Owns(sh, a)
    ensures a in m.cells
    decreases sh
  {
    var i :| 0 <= i < |sh.kids| && OwnedBy(sh.kids[i], a);
    assert KidDenotes(m, sh.kids[i], v, i);
    if sh.kids[i].addr != a {
      OwnedAreCells(m, m.cells[sh.kids[i].addr].content, sh.kids[i].sub, Child(v, i), a);
    }
  }

  /** A structure keeps its meaning while its own slots and the saved strings stay. */
  lemma {:induction false} DenotesFrame(m: Memory, m': Memory, c: Content, sh: Shape, v: Value)
    requires Denotes(m, c, sh, v) && Keeps(m, m')
    requires forall a :: Owns(sh, a) ==> a in m'.cells && a in m.cells && m'.cells[a] == m.cells[a]
    ensures Denotes(m', c, sh, v)
    decreases sh
  {
    if v.Str? && c.OwnedString? {
      StringStays(m, m', c.data, v.s);
    }
    forall i | 0 <= i < |sh.kids| && (v.Arr? || v.Obj?) ensures KidDenotes(m', sh.kids[i], v, i) {
      var k := sh.kids[i];
      assert KidDenotes(m, k, v, i);
      assert OwnedBy(k, k.addr) && Owns(sh, k.addr);
      forall a | Owns(k.sub, a) ensures a in m'.cells && a in m.cells && m'.cells[a] == m.cells[a] {
        assert OwnedBy(k, a) && Owns(sh, a);
      }
      DenotesFrame(m, m', m.cells[k.addr].content, k.sub, Child(v, i));
      if v.Obj? {
        KeyStays(m, m', m.cells[k.addr].key, v.members[i].key);
      }
    }
    if v.Arr? || v.Obj? {
      forall i | 0 <= i < |sh.kids|
        ensures sh.kids[i].addr in m'.cells && m'.cells[sh.kids[i].addr] == m.cells[sh.kids[i].addr] {
        assert OwnedBy(sh.kids[i], sh.kids[i].addr) && Owns(sh, sh.kids[i].addr);
      }
      LinkedSame(m.cells, m'.cells, c.head, c.tail, Addrs(sh.kids));
    }
  }
}
