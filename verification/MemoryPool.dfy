/** The memory pool: strings grow from the left, slots from the right. */
module Pool {
  import opened Values
  import opened Heap

  // ---- Saved strings ----

  predicate Matches(chars: Bytes, i: nat, str: Bytes) {
    i + |str| < |chars| && chars[i..i + |str|] == str && chars[i + |str|] == 0
  }

  /** Strings are looked for at the start of the characters and after every NUL.
      The scan of findString would find `str`. */
  ghost predicate Saved(chars: Bytes, str: Bytes) {
    exists i: nat :: IsStart(chars, i) && Matches(chars, i, str)
  }

  /** The scan has reached position `i`, a string start, and found no copy before it. */
  ghost predicate NothingBefore(chars: Bytes, i: int, str: Bytes) {
    IsStart(chars, i) && forall k: nat :: k < i && IsStart(chars, k) ==> !Matches(chars, k, str)
  }

  lemma ScanStarts(chars: Bytes, str: Bytes)
    ensures NothingBefore(chars, 0, str)
  {
  }

  /** What the scan compares at position `i`. */
  lemma Compared(chars: Bytes, i: nat, str: Bytes)
    requires NothingBefore(chars, i, str) && i + |str| < |chars|
    ensures IsStart(chars, i)
    ensures Matches(chars, i, str) <==> chars[i + |str|] == 0 && chars[i..i + |str|] == str
    ensures Matches(chars, i, str) ==> Saved(chars, str)
  {
  }

  /** The next position compared is after the next terminator. */
  lemma ScanStep(chars: Bytes, i: nat, terminator: nat, str: Bytes)
    requires NothingBefore(chars, i, str) && !Matches(chars, i, str)
    requires i <= terminator < |chars| && chars[terminator] == 0 && forall k :: i <= k < terminator ==> chars[k] != 0
    ensures NothingBefore(chars, terminator + 1, str)
  {
  }

  /** When the string no longer fits before the end, it is not there. */
  lemma ScanEnds(chars: Bytes, i: nat, str: Bytes)
    requires NothingBefore(chars, i, str) && i + |str| >= |chars|
    ensures !Saved(chars, str)
  {
  }

  predicate Terminated(chars: Bytes) { chars == [] || chars[|chars| - 1] == 0 }

  /** The characters after saving a string: unchanged if it is there, one longer copy if not. */
  ghost function Save(chars: Bytes, str: Bytes): (r: Bytes)
    ensures chars <= r && |r| <= |chars| + |str| + 1
  {
    if Saved(chars, str) then chars else chars + str + [0]
  }

  ghost function SaveAll(chars: Bytes, strs: seq<Bytes>): Bytes
    decreases strs
  {
    if strs == [] then chars else SaveAll(Save(chars, strs[0]), strs[1..])
  }

  lemma SavedStays(chars: Bytes, more: Bytes, str: Bytes)
    requires Saved(chars, str)
    ensures Saved(chars + more, str)
  {
    var i: nat :| IsStart(chars, i) && Matches(chars, i, str);
    var all := chars + more;
    assert all[i..i + |str|] == chars[i..i + |str|];
    assert IsStart(all, i) && Matches(all, i, str);
  }

  lemma SaveSaves(chars: Bytes, str: Bytes)
    requires Terminated(chars)
    ensures Saved(Save(chars, str), str)
    ensures Terminated(Save(chars, str)) && chars <= Save(chars, str)
  {
    if !Saved(chars, str) {
      var all := chars + str + [0];
      var i := |chars|;
      assert all[i..i + |str|] == str;
      assert IsStart(all, i) && Matches(all, i, str);
    }
  }

  lemma StringAtEnd(begin: int, chars: Bytes, str: Bytes, cells: map<int, Slot>)
    requires Terminated(chars)
    ensures StringAt(Memory(begin, chars + str + [0], cells), begin + |chars|, str)
  {
  }

  /** Over any run of saves, every string ever saved is still found, exactly, and saving
      it again adds nothing. */
  lemma {:induction false} EverySaveIsKept(chars: Bytes, strs: seq<Bytes>, k: nat)
    requires Terminated(chars) && k < |strs|
    ensures Terminated(SaveAll(chars, strs)) && chars <= SaveAll(chars, strs)
    ensures Saved(SaveAll(chars, strs), strs[k])
    ensures Save(SaveAll(chars, strs), strs[k]) == SaveAll(chars, strs)
    decreases strs
  {
    hide Saved, Terminated, Save;
    var next := Save(chars, strs[0]);
    SaveSaves(chars, strs[0]);
    SaveAllExtends(next, strs[1..]);
    SavedAgain(SaveAll(chars, strs), strs[k]);
    if k == 0 {
      var all := SaveAll(next, strs[1..]);
      assert all == next + all[|next|..];
      SavedStays(next, all[|next|..], strs[0]);
    } else {
      EverySaveIsKept(next, strs[1..], k - 1);
    }
  }

  lemma SavedAgain(chars: Bytes, str: Bytes)
    ensures Saved(chars, str) ==> Save(chars, str) == chars
  {
  }

  lemma {:induction false} SaveAllExtends(chars: Bytes, strs: seq<Bytes>)
    requires Terminated(chars)
    ensures Terminated(SaveAll(chars, strs)) && chars <= SaveAll(chars, strs)
    decreases strs
  {
    if strs != [] {
      SaveSaves(chars, strs[0]);
      SaveAllExtends(Save(chars, strs[0]), strs[1..]);
    }
  }

  /** A pointer to a saved string stays a pointer to that string, terminator included,
      whatever is saved and whatever slots are allocated afterwards. */
  lemma PointersStay(begin: int, chars: Bytes, strs: seq<Bytes>, at: int, str: Bytes, cells: map<int, Slot>,
                     cells': map<int, Slot>)
    requires Terminated(chars) && StringAt(Memory(begin, chars, cells), at, str)
    ensures StringAt(Memory(begin, SaveAll(chars, strs), cells'), at, str)
  {
    SaveAllExtends(chars, strs);
    StringStays(Memory(begin, chars, cells), Memory(begin, SaveAll(chars, strs), cells'), at, str);
  }

  /** The room that strings take depends on the order of their saves: a string that ends
      another after a NUL is shared when it comes second, and stored when it comes first. So
      a copy made in list order can need more than the capacity of its source. */
  lemma SaveOrderMatters()
    ensures |SaveAll([], [[97, 0, 98], [98]])| == 4 && |SaveAll([], [[98], [97, 0, 98]])| == 6
  {
    var x: Bytes, y: Bytes := [97, 0, 98], [98];
    var sx: Bytes, sy: Bytes := [97, 0, 98, 0], [98, 0];
    assert Save([], x) == sx && Save([], y) == sy;
    assert sx[2..3] == y && IsStart(sx, 2) && Matches(sx, 2, y);
    assert forall i: nat :: !Matches(sy, i, x);
    assert [x, y][1..] == [y] && [y, x][1..] == [x];
    assert SaveAll([], [x, y]) == SaveAll(sx, [y]) && SaveAll([], [y, x]) == SaveAll(sy, [x]);
    assert SaveAll(sx, [y]) == SaveAll(Save(sx, y), []) && SaveAll(sy, [x]) == SaveAll(Save(sy, x), []);
  }

  // ---- Moving ----

  function AddPadding(n: nat): (r: nat)
    ensures n <= r < n + ALIGNMENT && r % ALIGNMENT == 0
  {
    (n + ALIGNMENT - 1) / ALIGNMENT * ALIGNMENT
  }

  /** The slots at addresses shifted by `d`; the root is not in the pool and stays. */
  function Shifted(cells: map<int, Slot>, d: int): map<int, Slot>
    requires ROOT in cells
  {
    map b | b in ShiftedAddresses(cells, d) :: if b == ROOT then cells[ROOT] else cells[b - d]
  }

  function ShiftedAddresses(cells: map<int, Slot>, d: int): (r: set<int>)
    ensures forall b :: b in r <==> b == ROOT || (b - d in cells && b - d != ROOT)
  {
    {ROOT} + set a | a in cells && a != ROOT :: a + d
  }

  lemma ShiftedTo(cells: map<int, Slot>, d: int, a: int)
    requires ROOT in cells && a in cells && a != ROOT && a + d != ROOT
    ensures a + d in Shifted(cells, d) && Shifted(cells, d)[a + d] == cells[a]
  {
  }

  lemma ShiftedFrom(cells: map<int, Slot>, d: int, b: int)
    requires ROOT in cells && b in Shifted(cells, d) && b != ROOT
    ensures b - d in cells && b - d != ROOT && Shifted(cells, d)[b] == cells[b - d]
  {
  }

  lemma ShiftedRoot(cells: map<int, Slot>, d: int)
    requires ROOT in cells
    ensures ROOT in Shifted(cells, d) && Shifted(cells, d)[ROOT] == cells[ROOT]
  {
  }

  // ---- The pool ----

  /** A slot of a pool whose slots lie between `right` and `end`. */
  predicate InSlots(right: int, end: int, a: int) {
    right <= a && a + SLOT_SIZE <= end && (end - a) % SLOT_SIZE == 0
  }

  /** The pool is aligned, and every slot but the root lies in it. */
  ghost predicate LaidOut(begin: nat, right: nat, end: nat, cells: map<int, Slot>) {
    && begin % ALIGNMENT == 0 && end % ALIGNMENT == 0 && (end - right) % SLOT_SIZE == 0
    && forall a :: a in cells && a != ROOT ==> InSlots(right, end, a)
  }

  /** Slots and bounds moved by the same multiple of the alignment stay laid out. */
  lemma LaidOutShifts(begin: nat, right: nat, end: nat, cells: map<int, Slot>, d: int, begin': nat, right': nat,
                      end': nat)
    requires ROOT in cells && LaidOut(begin, right, end, cells) && right <= end && begin' % ALIGNMENT == 0
      && d % ALIGNMENT == 0
    requires right' == right + d && end' == end + d
    ensures ROOT in Shifted(cells, d) && LaidOut(begin', right', end', Shifted(cells, d))
  {
    hide Shifted;
    ShiftedRoot(cells, d);
    forall b | b in Shifted(cells, d) && b != ROOT ensures InSlots(right', end', b) {
      ShiftedFrom(cells, d, b);
      assert InSlots(right, end, b - d);
      assert end' - b == end - (b - d);
    }
    var n, k := end / ALIGNMENT, d / ALIGNMENT;
    assert end' == ALIGNMENT * (n + k);
    assert end' - right' == end - right;
  }

  class MemoryPool {
    var begin: nat
    var buf: array<Byte>
    var left: nat
    var right: nat
    var end: nat
    var overflowed: bool
    var cells: map<int, Slot>

    /** The pointers are in order and aligned, saved strings end with a terminator, and
        every slot lies between `right` and `end`, a whole number of slots from `end`. */
    ghost predicate Valid()
      reads this, buf
    {
      && begin <= left <= right <= end <= begin + buf.Length
      && (begin < end ==> begin > 0)
      && (begin < left ==> buf[left - 1 - begin] == 0)
      && ROOT in cells
      && SlotsLaid()
    }

    ghost predicate SlotsLaid()
      reads this`begin, this`right, this`end, this`cells
    {
      LaidOut(begin, right, end, cells)
    }

    /** The saved characters. */
    ghost function Chars(): (r: Bytes)
      requires Valid()
      reads this, buf
      ensures |r| == left - begin
    {
      buf[..left - begin]
    }

    /** What the variants in the pool mean depends on this alone. */
    ghost function Mem(): Memory
      requires Valid()
      reads this, buf
    {
      Memory(begin, Chars(), cells)
    }

    /** A pool over a buffer at an aligned address; a null buffer has no capacity. */
    constructor (address: nat, capacity: nat)
      requires address % ALIGNMENT == 0 && capacity % ALIGNMENT == 0
      requires capacity > 0 ==> address > 0
      ensures Valid() && fresh(buf) && !overflowed
      ensures begin == address && end == address + capacity && left == begin && right == end
      ensures cells == map[ROOT := Slot(NullContent, 0, NoKey)]
    {
      begin, left, right, end := address, address, address + capacity, address + capacity;
      buf := new Byte[capacity](_ => 0);
      overflowed := false;
      cells := map[ROOT := Slot(NullContent, 0, NoKey)];
    }

    predicate CanAlloc(bytes: nat)
      reads this
    {
      left + bytes <= right
    }

    method MarkAsOverflowed()
      requires Valid()
      modifies this`overflowed
      ensures Valid() && overflowed && Chars() == old(Chars())
    {
      hide SlotsLaid;
      overflowed := true;
    }

    /** Allocates a slot, already cleared, or reports that there is no room. */
    method AllocVariant() returns (slot: int)
      requires Valid()
      modifies this`right, this`overflowed, this`cells
      ensures Valid() && Chars() == old(Chars())
      ensures !old(CanAlloc(SLOT_SIZE)) ==>
        slot == NULL && overflowed && right == old(right) && cells == old(cells)
      ensures old(CanAlloc(SLOT_SIZE)) ==>
        && slot == right == old(right) - SLOT_SIZE && slot != NULL && slot !in old(cells)
        && overflowed == old(overflowed)
        && cells == old(cells)[slot := Slot(NullContent, 0, NoKey)]
    {
      if !CanAlloc(SLOT_SIZE) {
        overflowed := true;
        return NULL;
      }
      right := right - SLOT_SIZE;
      cells := cells[right := Slot(NullContent, 0, NoKey)];
      return right;
    }

    /** The jump to the next terminator, which comes before `left`. */
    method NextTerminator(start: nat) returns (next: nat)
      requires Valid() && begin <= start < left
      ensures start <= next < left && buf[next - begin] == 0
      ensures forall k :: start - begin <= k < next - begin ==> buf[k] != 0
    {
      hide SlotsLaid;
      next := start;
      while buf[next - begin] != 0
        invariant start <= next < left
        invariant forall k :: start - begin <= k < next - begin ==> buf[k] != 0
        decreases left - next
      {
        next := next + 1;
      }
    }

    /** findString: the scan compares at every string start and stops before `left`. */
    method FindString(str: Bytes) returns (found: int)
      requires Valid()
      ensures found == NULL <==> !Saved(Chars(), str)
      ensures found != NULL ==> StringAt(Mem(), found, str)
    {
      hide SlotsLaid, NothingBefore, Matches, Saved;
      ghost var chars := Chars();
      var n := |str|;
      var next := begin;
      ScanStarts(chars, str);
      while next + n < left
        invariant begin <= next <= left && NothingBefore(chars, next - begin, str)
        decreases left - next
      {
        assert chars[next - begin..next - begin + n] == buf[next - begin..next - begin + n];
        Compared(chars, next - begin, str);
        if buf[next + n - begin] == 0 && buf[next - begin..next - begin + n] == str {
          return next;
        }
        ghost var from := next - begin;
        next := NextTerminator(next);
        ScanStep(chars, from, next - begin, str);
        next := next + 1;
      }
      ScanEnds(chars, next - begin, str);
      return NULL;
    }

    /** saveString: the copy found by deduplication, a new copy, or NULL when full. */
    method SaveString(str: Bytes) returns (copy: int)
      requires Valid()
      modifies this`left, this`overflowed, buf
      ensures Valid()
      ensures copy == NULL ==>
        overflowed && Chars() == old(Chars()) && !old(CanAlloc(|str| + 1)) && !old(Saved(Chars(), str))
      ensures copy != NULL ==> overflowed == old(overflowed) && Chars() == Save(old(Chars()), str)
      ensures copy != NULL ==> StringAt(Mem(), copy, str)
    {
      hide SlotsLaid, Saved, Matches;
      copy := FindString(str);
      if copy != NULL {
        return;
      }
      var n := |str|;
      if !CanAlloc(n + 1) {
        overflowed := true;
        return NULL;
      }
      copy := left;
      ghost var chars := Chars();
      WriteChars(str);
      left := left + n + 1;
      StringAtEnd(begin, chars, str, cells);
    }

    /** stringGetChars into the start of the free zone, and the terminator after it. */
    method WriteChars(str: Bytes)
      requires Valid() && CanAlloc(|str| + 1)
      modifies buf
      ensures Valid()
      ensures buf[..left + |str| + 1 - begin] == old(Chars()) + str + [0]
    {
      hide SlotsLaid;
      var at := left - begin;
      var i := 0;
      while i < |str|
        invariant 0 <= i <= |str|
        invariant buf[..at + i] == old(Chars()) + str[..i]
      {
        buf[at + i] := str[i];
        i := i + 1;
      }
      buf[at + |str|] := 0;
    }

    /** saveStringFromFreeZone: the string is already in place after the saved ones. */
    method SaveStringFromFreeZone(len: nat) returns (str: int)
      requires Valid() && left + len < right
      modifies this`left, buf
      ensures Valid() && left <= old(left) + len + 1
      ensures str != NULL && StringAt(Mem(), str, old(buf[left - begin..left - begin + len]))
      ensures Chars() == Save(old(Chars()), old(buf[left - begin..left - begin + len]))
    {
      hide SlotsLaid, Saved, Matches, StringAt;
      ghost var text := buf[left - begin..left - begin + len];
      ghost var chars := Chars();
      var dup := FindString(buf[left - begin..left - begin + len]);
      if dup != NULL {
        return dup;
      }
      str := left;
      assert Terminated(chars);
      WriteTerminator(len);
      left := left + len + 1;
      assert Chars() == chars + text + [0];
      StringAtEnd(begin, chars, text, cells);
    }

    /** Closes the string that fills the first `len` characters of the free zone. */
    method WriteTerminator(len: nat)
      requires Valid() && left + len < right
      modifies buf
      ensures Valid() && buf[left + len - begin] == 0
      ensures buf[..left + len + 1 - begin] == old(Chars()) + old(buf[left - begin..left - begin + len]) + [0]
    {
      hide SlotsLaid;
      buf[left - begin + len] := 0;
    }

    /** Forgets every string and slot; the root becomes null. */
    method Clear()
      requires Valid()
      modifies this`left, this`right, this`overflowed, this`cells
      ensures Valid() && Chars() == [] && right == end && !overflowed
      ensures cells == map[ROOT := Slot(NullContent, 0, NoKey)]
    {
      left, right, overflowed := begin, end, false;
      cells := map[ROOT := Slot(NullContent, 0, NoKey)];
    }

    /** squash: moves the slots down to the strings. Returns the distance. */
    method Squash() returns (reclaimed: nat)
      requires Valid()
      modifies this`right, this`end, this`cells
      ensures Valid() && Chars() == old(Chars())
      ensures reclaimed == old(right) - AddPadding(left)
      ensures right == old(right) - reclaimed && end == old(end) - reclaimed
      ensures reclaimed == 0 ==> cells == old(cells)
      ensures reclaimed > 0 ==> cells == Shifted(old(cells), 0 - reclaimed)
    {
      hide Shifted, LaidOut, AddPadding;
      Padded(begin, left, right, end, cells);
      var newRight := AddPadding(left);
      if newRight >= right {
        return 0;
      }
      reclaimed := right - newRight;
      LaidOutShifts(begin, right, end, cells, 0 - reclaimed, begin, newRight, end - reclaimed);
      cells := Shifted(cells, 0 - reclaimed);
      right, end := newRight, end - reclaimed;
    }

    /** The allocator gives a buffer of the pool's capacity with the same bytes. */
    method Reallocate()
      requires Valid()
      modifies this`buf
      ensures Valid() && fresh(buf) && buf.Length == end - begin && Chars() == old(Chars())
    {
      hide SlotsLaid;
      var from := buf;
      buf := new Byte[end - begin](i requires 0 <= i < from.Length reads from => from[i]);
      assert buf[..left - begin] == from[..left - begin];
    }

    /** movePointers, once the buffer lies at `address`. */
    method MovePointers(address: nat)
      requires Valid() && address % ALIGNMENT == 0 && (end > begin ==> address > 0)
      modifies this`begin, this`left, this`right, this`end, this`cells
      ensures Valid() && Chars() == old(Chars())
      ensures var d := address - old(begin);
        && begin == address && left == old(left) + d && right == old(right) + d && end == old(end) + d
        && cells == Shifted(old(cells), d)
    {
      hide Shifted, LaidOut;
      var d := address - begin;
      BeginAligned(begin, right, end, cells, address);
      LaidOutShifts(begin, right, end, cells, d, address, right + d, end + d);
      cells := Shifted(cells, d);
      begin, left, right, end := address, left + d, right + d, end + d;
    }

    /** setNext on a slot of the pool. */
    method SetNext(a: int, target: int)
      requires Valid() && a in cells
      requires target != NULL ==> (target - a) % SLOT_SIZE == 0 && target != a
      modifies this`cells
      ensures Valid() && Chars() == old(Chars())
      ensures cells == old(cells)[a := WithNext(a, old(cells)[a], target)]
    {
      cells := cells[a := WithNext(a, cells[a], target)];
    }

    /** setKey on a slot of the pool. */
    method SetKey(a: int, key: Key)
      requires Valid() && a in cells
      modifies this`cells
      ensures Valid() && Chars() == old(Chars())
      ensures cells == old(cells)[a := old(cells)[a].(key := key)]
    {
      cells := cells[a := cells[a].(key := key)];
    }

    /** Writes a variant in place. */
    method SetContent(a: int, c: Content)
      requires Valid() && a in cells
      modifies this`cells
      ensures Valid() && Chars() == old(Chars())
      ensures cells == old(cells)[a := old(cells)[a].(content := c)]
    {
      cells := cells[a := cells[a].(content := c)];
    }
  }

  /** The room between the strings and the slots. */
  function Free(pool: MemoryPool): int
    reads pool`left, pool`right
  {
    pool.right - pool.left
  }

  lemma BeginAligned(begin: nat, right: nat, end: nat, cells: map<int, Slot>, address: nat)
    requires LaidOut(begin, right, end, cells) && address % ALIGNMENT == 0
    ensures (address - begin) % ALIGNMENT == 0
  {
  }

  lemma Padded(begin: nat, left: nat, right: nat, end: nat, cells: map<int, Slot>)
    requires LaidOut(begin, right, end, cells) && left <= right <= end
    ensures AddPadding(left) <= right && begin % ALIGNMENT == 0 && (AddPadding(left) - right) % ALIGNMENT == 0
  {
    hide AddPadding;
    PaddedWithin(left, right, end);
    assert AddPadding(left) - right == ALIGNMENT * (AddPadding(left) / ALIGNMENT - right / ALIGNMENT);
  }

  /** Slots end at an aligned address, so padding the strings reaches them at most. */
  lemma PaddedWithin(left: nat, right: nat, end: nat)
    requires left <= right <= end && end % ALIGNMENT == 0 && (end - right) % SLOT_SIZE == 0
    ensures AddPadding(left) <= right && right % ALIGNMENT == 0
  {
    var k, n := (end - right) / SLOT_SIZE, end / ALIGNMENT;
    assert right == ALIGNMENT * (n - 4 * k);
  }

  /** Padding commutes with a shift by a multiple of the alignment. */
  lemma PaddingShifts(n: nat, d: int)
    requires d % ALIGNMENT == 0 && n + d >= 0
    ensures AddPadding(n + d) == AddPadding(n) + d
  {
  }
}
