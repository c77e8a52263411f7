/** The room that a set of strings takes in a pool. */
module StringRoom {
  import opened Values
  import opened Heap
  import opened Pool

  ghost function Pick(strs: set<Bytes>): (s: Bytes)
    requires strs != {}
    ensures s in strs
  {
    var s :| s in strs; s
  }

  /** The room of a set of strings: each one once, with its terminator. */
  ghost function Room(strs: set<Bytes>): nat
    decreases |strs|
  {
    if strs == {} then 0
    else
      var s := Pick(strs);
      |s| + 1 + Room(strs - {s})
  }

  lemma {:induction false} RoomWithout(strs: set<Bytes>, s: Bytes)
    requires s in strs
    ensures Room(strs) == |s| + 1 + Room(strs - {s})
    decreases |strs|
  {
    var first := Pick(strs);
    if first != s {
      RoomWithout(strs - {first}, s);
      RoomWithout(strs - {s}, first);
      assert strs - {first} - {s} == strs - {s} - {first};
    }
  }

  lemma {:induction false} RoomGrows(strs: set<Bytes>, more: set<Bytes>)
    requires strs <= more
    ensures Room(strs) <= Room(more)
    decreases |strs|
  {
    if strs != {} {
      var s := Pick(strs);
      RoomWithout(more, s);
      RoomGrows(strs - {s}, more - {s});
    }
  }

  lemma RoomPlus(strs: set<Bytes>, s: Bytes)
    ensures Room(strs + {s}) == Room(strs) + if s in strs then 0 else |s| + 1
  {
    RoomWithout(strs + {s}, s);
    if s in strs {
      assert strs + {s} == strs;
    } else {
      assert strs + {s} - {s} == strs;
    }
  }

  // ---- The strings that characters hold ----

  /** The C strings at the starts. */
  function Stored(chars: Bytes): set<Bytes> {
    set i | 0 <= i < |chars| && IsStart(chars, i) :: CStr(chars[i..])
  }

  lemma {:induction false} CStrEnds(a: Bytes, b: Bytes)
    requires 0 !in a && b != [] && b[0] == 0
    ensures CStr(a + b) == a
  {
    if a == [] {
      assert a + b == b;
    } else {
      assert (a + b)[1..] == a[1..] + b;
      CStrEnds(a[1..], b);
    }
  }

  /** For a string without NUL, the scan finds exactly what is stored. */
  lemma StoredIsSaved(chars: Bytes, str: Bytes)
    requires Terminated(chars) && 0 !in str
    ensures Saved(chars, str) <==> str in Stored(chars)
  {
    if Saved(chars, str) {
      var i: nat :| IsStart(chars, i) && Matches(chars, i, str);
      assert chars[i..] == str + chars[i + |str|..];
      CStrEnds(str, chars[i + |str|..]);
    }
    if str in Stored(chars) {
      var i :| 0 <= i < |chars| && IsStart(chars, i) && CStr(chars[i..]) == str;
      StoredMatches(chars, i);
    }
  }

  lemma StoredMatches(chars: Bytes, i: nat)
    requires Terminated(chars) && i < |chars|
    ensures Matches(chars, i, CStr(chars[i..]))
  {
    var tail := chars[i..];
    var str := CStr(tail);
    assert tail[|tail| - 1] == 0;
    assert chars[i..i + |str|] == tail[..|str|];
  }

  /** One more string without NUL. */
  lemma StoredGrows(chars: Bytes, str: Bytes)
    requires Terminated(chars) && 0 !in str
    ensures Stored(chars + str + [0]) == Stored(chars) + {str}
  {
    hide Terminated;
    var all := chars + str + [0];
    forall s | s in Stored(chars) ensures s in Stored(all) {
      var i :| 0 <= i < |chars| && IsStart(chars, i) && CStr(chars[i..]) == s;
      StartsAfter(chars, str, i);
    }
    StartsAfter(chars, str, |chars|);
    forall s | s in Stored(all) ensures s in Stored(chars) || s == str {
      var i :| 0 <= i < |all| && IsStart(all, i) && CStr(all[i..]) == s;
      StartsAfter(chars, str, i);
    }
  }

  /** The starts after one more string: those before it, and its own. */
  lemma StartsAfter(chars: Bytes, str: Bytes, i: nat)
    requires Terminated(chars) && 0 !in str && i <= |chars| + |str|
    ensures var all := chars + str + [0];
      && (i < |chars| ==> (IsStart(all, i) <==> IsStart(chars, i)) && CStr(all[i..]) == CStr(chars[i..]))
      && (i == |chars| ==> IsStart(all, i) && CStr(all[i..]) == str)
      && (i > |chars| ==> !IsStart(all, i))
  {
    var all := chars + str + [0];
    if i < |chars| {
      SameStart(chars, str + [0], i);
      assert all == chars + (str + [0]);
    } else if i == |chars| {
      assert all[i..] == str + [0];
      CStrEnds(str, [0]);
    } else {
      assert all[i - 1] == str[i - 1 - |chars|];
    }
  }

  lemma SameStart(chars: Bytes, more: Bytes, i: nat)
    requires Terminated(chars) && i < |chars|
    ensures CStr((chars + more)[i..]) == CStr(chars[i..])
  {
    StoredMatches(chars, i);
    var str := CStr(chars[i..]);
    var rest := chars[i + |str|..] + more;
    assert (chars + more)[i..] == str + rest;
    CStrEnds(str, rest);
  }

  /** Where the last string starts. */
  function LastStart(chars: Bytes, n: nat): (p: nat)
    requires n < |chars|
    ensures p <= n && IsStart(chars, p) && 0 !in chars[p..n]
  {
    if n == 0 || chars[n - 1] == 0 then n
    else
      var p := LastStart(chars, n - 1);
      assert chars[p..n] == chars[p..n - 1] + [chars[n - 1]];
      p
  }

  /** The characters of a pool have room for the strings they hold. */
  lemma {:induction false} StoredFits(chars: Bytes)
    requires Terminated(chars)
    ensures Room(Stored(chars)) <= |chars|
    decreases |chars|
  {
    hide Stored;
    if chars == [] {
      NothingStored();
    } else {
      var n := |chars| - 1;
      var p := LastStart(chars, n);
      var before, str := chars[..p], chars[p..n];
      assert chars == before + str + [0];
      StoredFits(before);
      StoredGrows(before, str);
      RoomPlus(Stored(before), str);
    }
  }

  // ---- Runs of saves ----

  predicate NulFreeTexts(strs: seq<Bytes>) { forall s :: s in strs ==> 0 !in s }

  /** Strings without NUL take, in whatever order they are saved and however often, exactly
      the room of the set of them. */
  lemma {:induction false} RoomOfSaves(chars: Bytes, strs: seq<Bytes>)
    requires Terminated(chars) && |chars| == Room(Stored(chars)) && NulFreeTexts(strs)
    ensures |SaveAll(chars, strs)| == Room(Stored(chars) + set s | s in strs)
    decreases strs
  {
    hide Stored;
    if strs == [] {
      assert Stored(chars) + (set s | s in strs) == Stored(chars);
    } else {
      var str := strs[0];
      assert str in strs;
      SaveOne(chars, str);
      assert NulFreeTexts(strs[1..]);
      RoomOfSaves(Save(chars, str), strs[1..]);
      assert Stored(chars) + {str} + (set s | s in strs[1..]) == Stored(chars) + set s | s in strs;
    }
  }

  lemma SaveOne(chars: Bytes, str: Bytes)
    requires Terminated(chars) && |chars| == Room(Stored(chars)) && 0 !in str
    ensures Stored(Save(chars, str)) == Stored(chars) + {str}
    ensures Terminated(Save(chars, str)) && |Save(chars, str)| == Room(Stored(Save(chars, str)))
  {
    hide Stored;
    SaveSaves(chars, str);
    StoredIsSaved(chars, str);
    if !Saved(chars, str) {
      StoredGrows(chars, str);
      RoomPlus(Stored(chars), str);
    } else {
      assert Stored(chars) + {str} == Stored(chars);
    }
  }

  /** So the room does not depend on the order. */
  lemma OrderDoesNotMatter(xs: seq<Bytes>, ys: seq<Bytes>)
    requires NulFreeTexts(xs) && NulFreeTexts(ys) && (set s | s in xs) == (set s | s in ys)
    ensures |SaveAll([], xs)| == |SaveAll([], ys)| == Room(set s | s in xs)
  {
    assert Stored([]) == {};
    RoomOfSaves([], xs);
    RoomOfSaves([], ys);
    assert Stored([]) + (set s | s in xs) == set s | s in xs;
    assert Stored([]) + (set s | s in ys) == set s | s in ys;
  }

  /** Of two strings of any bytes: the order matters exactly when they differ and one of them
      is a piece of the other between NULs or its ends, for then it is shared only when it
      comes second. */
  lemma PairOrder(x: Bytes, y: Bytes)
    ensures |SaveAll([], [x, y])| == |SaveAll([], [y, x])| <==>
      x == y || (!Saved(x + [0], y) && !Saved(y + [0], x))
  {
    hide Saved;
    SaveBoth(x, y);
    SaveBoth(y, x);
    if Saved(x + [0], y) {
      SavedIsShorter(x, y);
    }
    if Saved(y + [0], x) {
      SavedIsShorter(y, x);
    }
  }

  lemma SaveBoth(x: Bytes, y: Bytes)
    ensures SaveAll([], [x, y]) == Save(x + [0], y)
  {
    assert forall i: nat :: !Matches([], i, x);
    assert [] + x + [0] == x + [0];
    assert [x, y][1..] == [y] && [y][1..] == [];
    assert SaveAll(x + [0], [y]) == SaveAll(Save(x + [0], y), []);
  }

  lemma SavedIsShorter(x: Bytes, y: Bytes)
    requires Saved(x + [0], y)
    ensures |y| <= |x| && (|y| == |x| ==> y == x)
  {
    var i: nat :| IsStart(x + [0], i) && Matches(x + [0], i, y);
    assert |y| == |x| ==> (x + [0])[0..|y|] == x;
  }

  /** Strings without NUL that one pool holds fit in as many characters again. */
  lemma SavesFit(chars: Bytes, strs: seq<Bytes>)
    requires Terminated(chars) && NulFreeTexts(strs) && forall s :: s in strs ==> Saved(chars, s)
    ensures |SaveAll([], strs)| <= |chars|
  {
    hide Stored, Saved;
    assert Stored([]) == {} by { NothingStored(); }
    RoomOfSaves([], strs);
    var distinct := set s | s in strs;
    assert Stored([]) + distinct == distinct;
    forall s | s in distinct ensures s in Stored(chars) {
      StoredIsSaved(chars, s);
    }
    RoomGrows(distinct, Stored(chars));
    StoredFits(chars);
  }

  lemma NothingStored()
    ensures Stored([]) == {}
  {
  }
}
