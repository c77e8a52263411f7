/** Comparison of variants, and the equivalence that equality is on ordinary documents. */
module Equality {
  import opened Values

  datatype CompareResult = Differ | Equal | Greater | Less

  function Reversed(r: CompareResult): CompareResult {
    match r
    case Greater => Less
    case Less => Greater
    case _ => r
  }

  function Order(a: int, b: int): CompareResult {
    if a < b then Less else if a > b then Greater else Equal
  }

  // ---- Numbers ----

  const UNSIGNED_RANGE: int := 0x1_0000_0000_0000_0000

  /** How a comparison sees a number: a 64-bit integer of one sign or the other, or a bool. */
  datatype Number = Signed(n: int) | Unsigned(n: int) | Boolean(b: bool)
  {
    predicate Valid() {
      match this
      case Signed(n) => -0x8000_0000_0000_0000 <= n < 0x8000_0000_0000_0000
      case Unsigned(n) => 0 <= n < UNSIGNED_RANGE
      case Boolean(_) => true
    }

    function Value(): int {
      match this
      case Signed(n) => n
      case Unsigned(n) => n
      case Boolean(b) => if b then 1 else 0
    }

    /** static_cast to unsigned wraps around. */
    function ToUnsigned(): int { Value() % UNSIGNED_RANGE }
  }

  /** arithmeticCompare: overload by overload, with the casts it makes. */
  function ArithmeticCompare(lhs: Number, rhs: Number): CompareResult {
    match (lhs, rhs)
    case (Signed(a), Signed(b)) => Order(a, b)
    case (Unsigned(a), Unsigned(b)) => Order(a, b)
    case (Unsigned(a), Signed(b)) => if b < 0 then Greater else Order(a, rhs.ToUnsigned())
    case (Signed(a), Unsigned(b)) => if a < 0 then Less else Order(lhs.ToUnsigned(), b)
    case (Boolean(_), Signed(b)) => Order(lhs.Value(), b)
    case (Signed(a), Boolean(_)) => Order(a, rhs.Value())
    case (Boolean(_), Unsigned(b)) => Order(lhs.ToUnsigned(), b)
    case (Unsigned(a), Boolean(_)) => Order(a, rhs.ToUnsigned())
    case (Boolean(a), Boolean(b)) => Order(lhs.Value(), rhs.Value())
  }

  /** Over the whole signed and unsigned ranges, the comparison is the mathematical one. */
  lemma ArithmeticCompareIsExact(lhs: Number, rhs: Number)
    requires lhs.Valid() && rhs.Valid()
    ensures ArithmeticCompare(lhs, rhs) == Order(lhs.Value(), rhs.Value())
  {
  }

  /** What a comparer visits: a bool is handed on as an unsigned integer. */
  function Visited(n: Number): Number {
    if n.Boolean? then Unsigned(n.Value()) else n
  }

  // ---- Strings ----

  /** The value of a char, which is signed. */
  function SignedChar(c: Byte): int { if c < 128 then c else c - 256 }

  /** stringCompare from position `i` on. */
  function StringCompare(a: Bytes, b: Bytes, i: nat): (r: int)
    requires i <= |a| && i <= |b|
    ensures r == 0 <==> a[i..] == b[i..]
    decreases |a| - i
  {
    if i < |a| && i < |b| then
      if a[i] != b[i] then
        assert a[i..][0] != b[i..][0];
        SignedChar(a[i]) - SignedChar(b[i])
      else
        assert a[i..] == [a[i]] + a[i + 1..] && b[i..] == [b[i]] + b[i + 1..];
        StringCompare(a, b, i + 1)
    else if |a| < |b| then -1
    else if |a| > |b| then 1
    else 0
  }

  // ---- Variants ----

  predicate IsNumber(v: Value) { v.Int? || v.Bool? }

  /** A number as the parsers store it: signed when it is negative. */
  function NumberOf(v: Value): Number
    requires IsNumber(v)
  {
    if v.Bool? then Boolean(v.b) else if v.n < 0 then Signed(v.n) else Unsigned(v.n)
  }

  lemma NestingOfElem(es: seq<Value>, i: nat)
    requires i < |es|
    ensures Nesting(es[i]) <= NestingOfElems(es)
  {
    if i > 0 {
      NestingOfElem(es[1..], i - 1);
    }
  }

  lemma NestingOfMember(ms: seq<Member>, i: nat)
    requires i < |ms|
    ensures Nesting(ms[i].val) <= NestingOfMembers(ms)
  {
    if i > 0 {
      NestingOfMember(ms[1..], i - 1);
    }
  }

  lemma NestingOfLookup(ms: seq<Member>, key: Bytes)
    ensures Nesting(Lookup(ms, key)) <= NestingOfMembers(ms)
  {
  }

  /** compare: the left side is visited with a comparer made of the right side, which visits
      the right side with a comparer made of the left: so the roles are exchanged, and the
      result is reversed. The left string has lost its length on the way. */
  function Compare(lhs: Value, rhs: Value): CompareResult
    requires FloatFree(lhs) && FloatFree(rhs)
    decreases Nesting(lhs) + Nesting(rhs), 0
  {
    match lhs
    case Arr(es) => if rhs.Arr? && ArraysEqual(rhs.elems, es) then Equal else Differ
    case Obj(ms) => if rhs.Obj? && ObjectsEqual(rhs.members, ms) then Equal else Differ
    case Str(s) => if rhs.Str? then Reversed(StringResult(StringCompare(CStr(s), rhs.s, 0))) else Differ
    case Null => if rhs.Null? then Equal else Differ
    case _ =>
      if IsNumber(rhs) then Reversed(ArithmeticCompare(Visited(NumberOf(rhs)), NumberOf(lhs))) else Differ
  }

  /** visitString of a string comparer. */
  function StringResult(i: int): CompareResult {
    if i < 0 then Greater else if i > 0 then Less else Equal
  }

  /** operator== on arrays: two iterators side by side. The operator != on two variants is
      that of a value and a variant, which compares them with the sides exchanged. */
  predicate ArraysEqual(xs: seq<Value>, ys: seq<Value>)
    requires FloatFree(Arr(xs)) && FloatFree(Arr(ys))
    decreases NestingOfElems(xs) + NestingOfElems(ys), 1, |xs|
  {
    if xs == [] || ys == [] then xs == [] && ys == []
    else
      NestingOfElem(xs, 0);
      NestingOfElem(ys, 0);
      Compare(ys[0], xs[0]) == Equal && ArraysEqual(xs[1..], ys[1..])
  }

  /** operator== on objects: each member of the left one looked up in the right one, and
      the members counted. */
  predicate ObjectsEqual(xs: seq<Member>, ys: seq<Member>)
    requires FloatFree(Obj(xs)) && FloatFree(Obj(ys))
    decreases NestingOfMembers(xs) + NestingOfMembers(ys), 2
  {
    MembersMatch(xs, ys) && |xs| == |ys|
  }

  /** The loop: the remaining members `xs`. */
  predicate MembersMatch(xs: seq<Member>, ys: seq<Member>)
    requires FloatFree(Obj(xs)) && FloatFree(Obj(ys))
    decreases NestingOfMembers(xs) + NestingOfMembers(ys), 1, |xs|
  {
    xs == [] ||
    (NestingOfMember(xs, 0);
     NestingOfLookup(ys, xs[0].key);
     Compare(Lookup(ys, xs[0].key), xs[0].val) == Equal && MembersMatch(xs[1..], ys))
  }

  /** Numbers are ordered as numbers, whatever the sides and the casts between. */
  lemma NumbersAreOrdered(v: Value, w: Value)
    requires IsNumber(v) && IsNumber(w)
    ensures Compare(v, w) == Order(NumberOf(v).Value(), NumberOf(w).Value())
  {
  }

  /** For integers and booleans, false counting as 0 and true as 1. */
  lemma NumbersByValue(v: Value, w: Value)
    requires IsNumber(v) && IsNumber(w)
    ensures var a := if v.Bool? then if v.b then 1 else 0 else v.n;
      var b := if w.Bool? then if w.b then 1 else 0 else w.n;
      && (Compare(v, w) == Less <==> a < b) && (Compare(v, w) == Greater <==> a > b)
      && (Compare(v, w) == Equal <==> a == b)
  {
    NumbersAreOrdered(v, w);
  }

  /** `s` comes before `t`: they agree before some place, where `s` ends and `t` does not, or
      the byte of `s` is the smaller one as a signed char. */
  ghost predicate Before(s: Bytes, t: Bytes) {
    exists k :: 0 <= k <= |s| && k < |t| && s[..k] == t[..k] && (k == |s| || SmallerChar(s[k], t[k]))
  }

  /** Signed chars: a byte from 128 on is below all others. */
  predicate SmallerChar(a: Byte, b: Byte) {
    if (a < 128) == (b < 128) then a < b else a >= 128
  }

  lemma {:induction false} StringCompareOrders(a: Bytes, b: Bytes, i: nat)
    requires i <= |a| && i <= |b| && a[..i] == b[..i]
    ensures StringCompare(a, b, i) < 0 <==> Before(a, b)
    ensures StringCompare(a, b, i) > 0 <==> Before(b, a)
    decreases |a| - i
  {
    if i < |a| && i < |b| && a[i] == b[i] {
      assert a[..i + 1] == a[..i] + [a[i]] && b[..i + 1] == b[..i] + [b[i]];
      StringCompareOrders(a, b, i + 1);
    } else {
      FirstDifference(a, b, i);
      FirstDifference(b, a, i);
    }
  }

  lemma SamePrefix(a: Bytes, b: Bytes, k: nat)
    requires k <= |a| && k <= |b| && a[..k] == b[..k]
    ensures forall j :: 0 <= j < k ==> a[j] == b[j]
  {
    assert forall j :: 0 <= j < k ==> a[j] == a[..k][j] && b[j] == b[..k][j];
  }

  /** The place where two strings part decides. */
  lemma FirstDifference(a: Bytes, b: Bytes, i: nat)
    requires i <= |a| && i <= |b| && a[..i] == b[..i] && (i < |a| && i < |b| ==> a[i] != b[i])
    ensures Before(a, b) <==> i < |b| && (i == |a| || SmallerChar(a[i], b[i]))
  {
    SamePrefix(a, b, i);
    if Before(a, b) {
      var k :| 0 <= k <= |a| && k < |b| && a[..k] == b[..k] && (k == |a| || SmallerChar(a[k], b[k]));
      SamePrefix(a, b, k);
    }
  }

  /** Strings are ordered byte by byte, the left one up to its first NUL. */
  lemma StringsAreOrdered(s: Bytes, t: Bytes)
    ensures Compare(Str(s), Str(t)) == Less <==> Before(CStr(s), t)
    ensures Compare(Str(s), Str(t)) == Greater <==> Before(t, CStr(s))
    ensures 0 !in s ==> CStr(s) == s
  {
    hide Before, StringCompare, CStr;
    StringCompareOrders(CStr(s), t, 0);
    if 0 !in s {
      CStrOfNulFree(s);
    }
  }

  /** Two strings, or two numbers with the booleans, are less, equal or greater; of all other
      values none is less or greater than another. */
  lemma OrderedKinds(v: Value, w: Value)
    requires FloatFree(v) && FloatFree(w)
    ensures var ordered := (v.Str? && w.Str?) || ((v.Int? || v.Bool?) && (w.Int? || w.Bool?));
      && (ordered ==> Compare(v, w) != Differ)
      && (!ordered ==> Compare(v, w) == Equal || Compare(v, w) == Differ)
  {
    hide ArraysEqual, ObjectsEqual, StringCompare, CStr;
    if IsNumber(v) && IsNumber(w) {
      NumbersByValue(v, w);
    }
  }

  lemma EqualStrings(s: Bytes, t: Bytes)
    ensures Compare(Str(s), Str(t)) == Equal <==> CStr(s) == t
  {
    assert CStr(s)[0..] == CStr(s) && t[0..] == t;
  }

  lemma {:induction false} MembersMatchAll(xs: seq<Member>, ys: seq<Member>)
    requires FloatFree(Obj(xs)) && FloatFree(Obj(ys))
    ensures MembersMatch(xs, ys) <==>
      forall i :: 0 <= i < |xs| ==> Compare(Lookup(ys, xs[i].key), xs[i].val) == Equal
  {
    if xs != [] {
      MembersMatchAll(xs[1..], ys);
      assert forall i :: 0 < i < |xs| ==> xs[i] == xs[1..][i - 1];
    }
  }

  lemma {:induction false} ArraysEqualAll(xs: seq<Value>, ys: seq<Value>)
    requires FloatFree(Arr(xs)) && FloatFree(Arr(ys))
    ensures ArraysEqual(xs, ys) <==>
      |xs| == |ys| && forall i :: 0 <= i < |xs| ==> Compare(ys[i], xs[i]) == Equal
  {
    if xs != [] && ys != [] {
      ArraysEqualAll(xs[1..], ys[1..]);
      assert forall i :: 0 < i < |xs| ==> xs[i] == xs[1..][i - 1];
      assert forall i :: 0 < i < |ys| ==> ys[i] == ys[1..][i - 1];
    }
  }

  /** Equal arrays and equal objects, element by element and member by member. */
  lemma EqualElementwise(es: seq<Value>, fs: seq<Value>)
    requires FloatFree(Arr(es)) && FloatFree(Arr(fs))
    ensures Compare(Arr(es), Arr(fs)) == Equal <==>
      |es| == |fs| && forall i :: 0 <= i < |es| ==> Compare(es[i], fs[i]) == Equal
  {
    ArraysEqualAll(fs, es);
  }

  lemma EqualMemberwise(ms: seq<Member>, ns: seq<Member>)
    requires FloatFree(Obj(ms)) && FloatFree(Obj(ns))
    ensures Compare(Obj(ms), Obj(ns)) == Equal <==>
      |ms| == |ns| && forall j :: 0 <= j < |ns| ==> Compare(Lookup(ms, ns[j].key), ns[j].val) == Equal
  {
    MembersMatchAll(ns, ms);
  }

  // ---- Equality up to member order and bool-integer coercion ----

  /** The documents on which equality is structural: no floats, no NUL in strings, unique
      keys, no null members. */
  predicate Ordinary(v: Value) {
    match v
    case Float(_) => false
    case Str(s) => 0 !in s
    case Arr(es) => forall i :: 0 <= i < |es| ==> Ordinary(es[i])
    case Obj(ms) => DistinctKeys(ms) && forall i :: 0 <= i < |ms| ==> Ordinary(ms[i].val) && ms[i].val != Null
    case _ => true
  }

  /** The same elements in order; the same keys with the same values, in any order. */
  predicate Same(v: Value, w: Value)
    decreases v
  {
    match v
    case Arr(es) => w.Arr? && |w.elems| == |es| && forall i :: 0 <= i < |es| ==> Same(es[i], w.elems[i])
    case Obj(ms) => w.Obj? && KeysOf(w.members) == KeysOf(ms)
                    && forall i :: 0 <= i < |ms| ==> Same(ms[i].val, Lookup(w.members, ms[i].key))
    case Float(_) => v == w
    case Str(_) => v == w
    case Null => v == w
    case _ => IsNumber(w) && NumberOf(w).Value() == NumberOf(v).Value()
  }

  function KeysOf(ms: seq<Member>): set<Bytes> { set i | 0 <= i < |ms| :: ms[i].key }

  lemma {:induction false} OrdinaryIsFloatFree(v: Value)
    requires Ordinary(v)
    ensures FloatFree(v)
  {
    match v
    case Arr(es) =>
      forall i | 0 <= i < |es| ensures FloatFree(es[i]) {
        OrdinaryIsFloatFree(es[i]);
      }
    case Obj(ms) =>
      forall i | 0 <= i < |ms| ensures FloatFree(ms[i].val) {
        OrdinaryIsFloatFree(ms[i].val);
      }
    case _ =>
  }

  // ---- Lookups and keys ----

  lemma LookupOwn(ms: seq<Member>, i: nat)
    requires DistinctKeys(ms) && i < |ms|
    ensures Find(ms, ms[i].key) == i && Lookup(ms, ms[i].key) == ms[i].val
  {
  }

  lemma KeyIsFound(ms: seq<Member>, key: Bytes)
    ensures key in KeysOf(ms) <==> Find(ms, key) < |ms|
  {
  }

  lemma {:induction false} KeyCount(ms: seq<Member>)
    requires DistinctKeys(ms)
    ensures |KeysOf(ms)| == |ms|
  {
    if ms != [] {
      var n := |ms| - 1;
      var rest := ms[..n];
      KeyCount(rest);
      assert KeysOf(ms) == KeysOf(rest) + {ms[n].key};
      assert ms[n].key !in KeysOf(rest);
    }
  }

  lemma SubsetOfSameSize<T>(a: set<T>, b: set<T>)
    requires a <= b && |a| >= |b|
    ensures a == b
  {
    assert b == a + (b - a);
  }

  /** The pigeonhole: as many members, each of them found in the other object, makes the
      same keys. */
  lemma SameKeys(xs: seq<Member>, ys: seq<Member>)
    requires DistinctKeys(xs) && DistinctKeys(ys) && |xs| == |ys|
    requires forall i :: 0 <= i < |xs| ==> xs[i].key in KeysOf(ys)
    ensures KeysOf(xs) == KeysOf(ys)
  {
    KeyCount(xs);
    KeyCount(ys);
    assert KeysOf(xs) <= KeysOf(ys);
    SubsetOfSameSize(KeysOf(xs), KeysOf(ys));
  }

  /** A key that both objects have: where it is in each, and what looking it up gives. */
  lemma SharedKey(xs: seq<Member>, ys: seq<Member>, i: nat) returns (j: nat)
    requires DistinctKeys(xs) && DistinctKeys(ys) && i < |xs| && xs[i].key in KeysOf(ys)
    ensures j < |ys| && ys[j].key == xs[i].key
    ensures Lookup(ys, xs[i].key) == ys[j].val && Lookup(xs, ys[j].key) == xs[i].val
  {
    KeyIsFound(ys, xs[i].key);
    j := Find(ys, xs[i].key);
    LookupOwn(xs, i);
  }

  // ---- Equality is structural ----

  lemma {:induction false} SameIsSymmetric(v: Value, w: Value)
    requires Ordinary(v) && Ordinary(w) && Same(v, w)
    ensures Same(w, v)
    decreases v
  {
    match v
    case Arr(es) =>
      forall i | 0 <= i < |es| ensures Same(w.elems[i], es[i]) {
        SameIsSymmetric(es[i], w.elems[i]);
      }
    case Obj(ms) =>
      forall j | 0 <= j < |w.members| ensures Same(w.members[j].val, Lookup(ms, w.members[j].key)) {
        var i := SharedKey(w.members, ms, j);
        SameIsSymmetric(ms[i].val, w.members[j].val);
      }
    case _ =>
  }

  /** On ordinary documents, == holds exactly of values that are the same up to the order of
      members and the coercion of booleans. */
  lemma {:induction false} EqualIsSame(v: Value, w: Value)
    requires Ordinary(v) && Ordinary(w)
    ensures FloatFree(v) && FloatFree(w)
    ensures Compare(v, w) == Equal <==> Same(v, w)
    decreases Nesting(v) + Nesting(w), 1
  {
    OrdinaryIsFloatFree(v);
    OrdinaryIsFloatFree(w);
    if v.Arr? && w.Arr? {
      EqualArraysAreSame(v, w);
    } else if v.Obj? && w.Obj? {
      EqualObjectsAreSame(v, w);
    } else if v.Str? && w.Str? {
      CStrOfNulFree(v.s);
      EqualStrings(v.s, w.s);
    }
  }

  lemma {:induction false} EqualArraysAreSame(v: Value, w: Value)
    requires Ordinary(v) && Ordinary(w) && v.Arr? && w.Arr? && FloatFree(v) && FloatFree(w)
    ensures Compare(v, w) == Equal <==> Same(v, w)
    decreases Nesting(v) + Nesting(w), 0
  {
    hide Ordinary;
    var es, fs := v.elems, w.elems;
    EqualElementwise(es, fs);
    forall i | 0 <= i < |es| && |es| == |fs| ensures Compare(es[i], fs[i]) == Equal <==> Same(es[i], fs[i]) {
      ElemIsOrdinary(v, i);
      ElemIsOrdinary(w, i);
      NestingOfElem(es, i);
      NestingOfElem(fs, i);
      EqualIsSame(es[i], fs[i]);
    }
  }

  lemma ElemIsOrdinary(v: Value, i: nat)
    requires v.Arr? && i < |v.elems| && Ordinary(v)
    ensures Ordinary(v.elems[i])
  {
  }

  lemma {:induction false} EqualObjectsAreSame(v: Value, w: Value)
    requires Ordinary(v) && Ordinary(w) && v.Obj? && w.Obj? && FloatFree(v) && FloatFree(w)
    ensures Compare(v, w) == Equal <==> Same(v, w)
    decreases Nesting(v) + Nesting(w), 0, 1
  {
    hide Ordinary, Same;
    var xs, ys := v.members, w.members;
    EqualMemberwise(xs, ys);
    if Compare(v, w) == Equal {
      EqualObjectsShareKeys(xs, ys);
      forall i | 0 <= i < |xs| ensures Same(xs[i].val, Lookup(ys, xs[i].key)) {
        var j := SharedMember(v, w, i);
      }
      SameObjects(v, w);
    }
    if Same(v, w) {
      SameObjects(v, w);
      MembersAreOrdinary(v);
      MembersAreOrdinary(w);
      KeyCount(xs);
      KeyCount(ys);
      forall j | 0 <= j < |ys| ensures Compare(Lookup(xs, ys[j].key), ys[j].val) == Equal {
        var i := SharedKey(ys, xs, j);
        var j' := SharedMember(v, w, i);
        assert Lookup(ys, xs[i].key) == ys[j].val;
      }
    }
  }

  /** What the definition of Same says of two objects. */
  lemma SameObjects(v: Value, w: Value)
    requires v.Obj? && w.Obj?
    ensures Same(v, w) <==>
      KeysOf(w.members) == KeysOf(v.members)
      && forall i :: 0 <= i < |v.members| ==> Same(v.members[i].val, Lookup(w.members, v.members[i].key))
  {
  }

  lemma MembersAreOrdinary(v: Value)
    requires v.Obj? && Ordinary(v)
    ensures DistinctKeys(v.members)
    ensures forall i :: 0 <= i < |v.members| ==> Ordinary(v.members[i].val)
  {
  }

  /** The member of the other object with the same key. */
  lemma {:induction false} SharedMember(v: Value, w: Value, i: nat) returns (j: nat)
    requires Ordinary(v) && Ordinary(w) && v.Obj? && w.Obj? && FloatFree(v) && FloatFree(w)
    requires i < |v.members| && v.members[i].key in KeysOf(w.members)
    ensures j < |w.members| && w.members[j].key == v.members[i].key
    ensures Lookup(w.members, v.members[i].key) == w.members[j].val
      && Lookup(v.members, w.members[j].key) == v.members[i].val
    ensures Compare(v.members[i].val, w.members[j].val) == Equal <==> Same(v.members[i].val, w.members[j].val)
    decreases Nesting(v) + Nesting(w), 0, 0
  {
    hide Same;
    j := SharedKey(v.members, w.members, i);
    NestingOfMember(v.members, i);
    NestingOfMember(w.members, j);
    EqualIsSame(v.members[i].val, w.members[j].val);
  }

  /** A member that equals what a key reads as in the other object is there: it is not null. */
  lemma EqualObjectsShareKeys(xs: seq<Member>, ys: seq<Member>)
    requires Ordinary(Obj(xs)) && Ordinary(Obj(ys)) && FloatFree(Obj(xs)) && FloatFree(Obj(ys)) && ObjectsEqual(ys, xs)
    ensures KeysOf(xs) == KeysOf(ys)
  {
    MembersMatchAll(ys, xs);
    forall j | 0 <= j < |ys| ensures ys[j].key in KeysOf(xs) {
      assert Compare(Lookup(xs, ys[j].key), ys[j].val) == Equal;
      KeyIsFound(xs, ys[j].key);
    }
    SameKeys(ys, xs);
  }

  /** So == is an equivalence on ordinary documents. */
  lemma EqualityIsEquivalence(u: Value, v: Value, w: Value)
    requires Ordinary(u) && Ordinary(v) && Ordinary(w)
    ensures FloatFree(u) && FloatFree(v) && FloatFree(w)
    ensures Compare(v, v) == Equal
    ensures Compare(v, w) == Equal <==> Compare(w, v) == Equal
    ensures Compare(u, v) == Equal && Compare(v, w) == Equal ==> Compare(u, w) == Equal
  {
    EqualIsSame(v, w);
    EqualIsSame(w, v);
    if Same(v, w) {
      SameIsSymmetric(v, w);
    }
    if Same(w, v) {
      SameIsSymmetric(w, v);
    }
    OrdinaryIsPlain(v);
    OrdinaryIsPlain(w);
    OrdinaryIsFloatFree(u);
    SelfEqualIsNulFree(v);
    if Compare(u, v) == Equal && Compare(v, w) == Equal {
      EqualIsTransitive(u, v, w);
    }
  }

  lemma {:induction false} OrdinaryIsPlain(v: Value)
    requires Ordinary(v)
    ensures NulFree(v) && UniqueKeys(v) && NoNullMembers(v)
  {
    match v
    case Arr(es) =>
      forall i | 0 <= i < |es| ensures NulFree(es[i]) && UniqueKeys(es[i]) && NoNullMembers(es[i]) {
        OrdinaryIsPlain(es[i]);
      }
    case Obj(ms) =>
      forall i | 0 <= i < |ms| ensures NulFree(ms[i].val) && UniqueKeys(ms[i].val) && NoNullMembers(ms[i].val) {
        OrdinaryIsPlain(ms[i].val);
      }
    case _ =>
  }

  // ---- When equality holds both ways ----

  /** What makes a value that `v` equals equal `v` in turn: no NUL in the strings of `v`; each
      member of `v` that is missing on the other side is null; and one that repeats a key
      equals what the other side has under that key. */
  predicate Reversible(v: Value, w: Value)
    requires FloatFree(v) && FloatFree(w)
    decreases v
  {
    match v
    case Str(s) => 0 !in s
    case Arr(es) => w.Arr? ==> forall i :: 0 <= i < |es| && i < |w.elems| ==> Reversible(es[i], w.elems[i])
    case Obj(ms) =>
      w.Obj? ==> forall i :: 0 <= i < |ms| ==>
        var other := Lookup(w.members, ms[i].key);
        if Find(w.members, ms[i].key) == |w.members| then ms[i].val == Null
        else if Find(ms, ms[i].key) < i then Compare(other, ms[i].val) == Equal
        else Reversible(ms[i].val, other)
    case _ => true
  }

  /** For all values without floats: equality in one direction is equality in the other
      exactly under that condition. */
  lemma {:induction false} EqualBothWays(v: Value, w: Value)
    requires FloatFree(v) && FloatFree(w) && Compare(v, w) == Equal
    ensures Compare(w, v) == Equal <==> Reversible(v, w)
    decreases v
  {
    match v
    case Str(s) =>
      EqualStrings(s, w.s);
      EqualStrings(w.s, s);
      if 0 !in s {
        CStrOfNulFree(s);
      }
    case Arr(es) =>
      EqualElementwise(es, w.elems);
      EqualElementwise(w.elems, es);
      forall i | 0 <= i < |es| ensures Compare(w.elems[i], es[i]) == Equal <==> Reversible(es[i], w.elems[i]) {
        EqualBothWays(es[i], w.elems[i]);
      }
    case Obj(ms) =>
      EqualMemberwise(ms, w.members);
      EqualMemberwise(w.members, ms);
      forall i | 0 <= i < |ms| && Find(w.members, ms[i].key) < |w.members| && Find(ms, ms[i].key) == i
        ensures Compare(Lookup(w.members, ms[i].key), ms[i].val) == Equal
            <==> Reversible(ms[i].val, Lookup(w.members, ms[i].key))
      {
        EqualBothWays(ms[i].val, w.members[Find(w.members, ms[i].key)].val);
      }
    case _ =>
      if IsNumber(v) {
        NumbersAreOrdered(v, w);
        NumbersAreOrdered(w, v);
      }
  }

  /** A value equals itself exactly when it is reversible with itself; so, unless a key is
      repeated, when no string has a NUL. */
  lemma {:induction false} EqualsItself(v: Value)
    requires FloatFree(v)
    ensures Compare(v, v) == Equal <==> Reversible(v, v)
  {
    match v
    case Str(s) =>
      EqualStrings(s, s);
      if 0 !in s {
        CStrOfNulFree(s);
      }
    case Arr(es) =>
      EqualElementwise(es, es);
      forall i | 0 <= i < |es| ensures Compare(es[i], es[i]) == Equal <==> Reversible(es[i], es[i]) {
        EqualsItself(es[i]);
      }
    case Obj(ms) =>
      EqualMemberwise(ms, ms);
      forall i | 0 <= i < |ms| && Find(ms, ms[i].key) == i
        ensures Compare(Lookup(ms, ms[i].key), ms[i].val) == Equal <==> Reversible(ms[i].val, ms[i].val)
      {
        EqualsItself(ms[i].val);
      }
    case _ =>
      if IsNumber(v) {
        NumbersAreOrdered(v, v);
      }
  }

  lemma {:induction false} SelfEqualIsNulFree(v: Value)
    requires FloatFree(v) && UniqueKeys(v)
    ensures Compare(v, v) == Equal <==> NulFree(v)
  {
    match v
    case Str(s) =>
      EqualStrings(s, s);
      if 0 !in s {
        CStrOfNulFree(s);
      }
    case Arr(es) =>
      EqualElementwise(es, es);
      forall i | 0 <= i < |es| ensures Compare(es[i], es[i]) == Equal <==> NulFree(es[i]) {
        SelfEqualIsNulFree(es[i]);
      }
    case Obj(ms) =>
      EqualMemberwise(ms, ms);
      forall i | 0 <= i < |ms| ensures Compare(Lookup(ms, ms[i].key), ms[i].val) == Equal <==> NulFree(ms[i].val) {
        LookupOwn(ms, i);
        SelfEqualIsNulFree(ms[i].val);
      }
    case _ =>
      if IsNumber(v) {
        NumbersAreOrdered(v, v);
      }
  }

  // ---- Null members ----

  /** The keys of the members that are not null. */
  function PresentKeys(ms: seq<Member>): set<Bytes> { set i | 0 <= i < |ms| && ms[i].val != Null :: ms[i].key }

  function NullCount(ms: seq<Member>): nat {
    if ms == [] then 0 else (if ms[|ms| - 1].val == Null then 1 else 0) + NullCount(ms[..|ms| - 1])
  }

  /** Matched objects have equally many null members. */
  predicate SameNulls(v: Value, w: Value)
    decreases v
  {
    match v
    case Arr(es) => w.Arr? ==> forall i :: 0 <= i < |es| && i < |w.elems| ==> SameNulls(es[i], w.elems[i])
    case Obj(ms) =>
      w.Obj? ==>
        && NullCount(ms) == NullCount(w.members)
        && forall i :: 0 <= i < |ms| && Find(w.members, ms[i].key) < |w.members| ==>
             SameNulls(ms[i].val, Lookup(w.members, ms[i].key))
    case _ => true
  }

  lemma {:induction false} PresentCount(ms: seq<Member>)
    requires DistinctKeys(ms)
    ensures |PresentKeys(ms)| == |ms| - NullCount(ms)
  {
    if ms != [] {
      hide PresentKeys;
      var n := |ms| - 1;
      PresentCount(ms[..n]);
      PresentStep(ms);
    }
  }

  lemma PresentStep(ms: seq<Member>)
    requires DistinctKeys(ms) && ms != []
    ensures var n := |ms| - 1;
      && PresentKeys(ms) == PresentKeys(ms[..n]) + (if ms[n].val == Null then {} else {ms[n].key})
      && ms[n].key !in PresentKeys(ms[..n])
  {
    var n := |ms| - 1;
    var rest := ms[..n];
    assert forall key :: key in PresentKeys(rest) ==> key in PresentKeys(ms);
    forall key | key in PresentKeys(ms) ensures key in PresentKeys(rest) || (key == ms[n].key && ms[n].val != Null) {
      var i :| 0 <= i < |ms| && ms[i].val != Null && ms[i].key == key;
      assert i < n ==> rest[i] == ms[i];
    }
  }

  /** Only null equals null, on either side. */
  lemma OnlyNullIsNull(v: Value)
    requires FloatFree(v)
    ensures Compare(v, Null) == Equal <==> v == Null
    ensures Compare(Null, v) == Equal <==> v == Null
  {
  }

  lemma PresentKeysAreShared(ms: seq<Member>, ns: seq<Member>)
    requires FloatFree(Obj(ms)) && FloatFree(Obj(ns)) && Compare(Obj(ms), Obj(ns)) == Equal
    ensures PresentKeys(ns) <= PresentKeys(ms)
  {
    EqualMemberwise(ms, ns);
    forall j | 0 <= j < |ns| && ns[j].val != Null ensures ns[j].key in PresentKeys(ms) {
      assert Compare(Lookup(ms, ns[j].key), ns[j].val) == Equal;
      OnlyNullIsNull(ns[j].val);
      var i := Find(ms, ns[j].key);
      assert i < |ms| && ms[i].key == ns[j].key && ms[i].val != Null;
    }
  }

  /** Without NULs and repeated keys, == holds both ways exactly when matched objects have
      equally many null members. */
  lemma NullMembersDecide(v: Value, w: Value)
    requires FloatFree(v) && FloatFree(w) && UniqueKeys(v) && UniqueKeys(w) && NulFree(v)
    requires Compare(v, w) == Equal
    ensures Compare(w, v) == Equal <==> SameNulls(v, w)
  {
    EqualBothWays(v, w);
    ReversibleIsSameNulls(v, w);
  }

  lemma {:induction false} ReversibleIsSameNulls(v: Value, w: Value)
    requires FloatFree(v) && FloatFree(w) && UniqueKeys(v) && UniqueKeys(w) && NulFree(v)
    requires Compare(v, w) == Equal
    ensures Reversible(v, w) <==> SameNulls(v, w)
    decreases v, 1
  {
    match v
    case Arr(es) =>
      EqualElementwise(es, w.elems);
      forall i | 0 <= i < |es| ensures Reversible(es[i], w.elems[i]) <==> SameNulls(es[i], w.elems[i]) {
        ReversibleIsSameNulls(es[i], w.elems[i]);
      }
    case Obj(_) =>
      ReversibleMembers(v, w);
    case _ =>
  }

  lemma {:induction false} ReversibleMembers(v: Value, w: Value)
    requires FloatFree(v) && FloatFree(w) && UniqueKeys(v) && UniqueKeys(w) && NulFree(v)
    requires Compare(v, w) == Equal && v.Obj?
    ensures Reversible(v, w) <==> SameNulls(v, w)
    decreases v, 0
  {
    hide DistinctKeys, NullCount;
    var ms, ns := v.members, w.members;
    MissingAreNull(ms, ns);
    EqualMemberwise(ms, ns);
    forall i | 0 <= i < |ms| && Find(ns, ms[i].key) < |ns|
      ensures Find(ms, ms[i].key) == i
      ensures Reversible(ms[i].val, Lookup(ns, ms[i].key)) <==> SameNulls(ms[i].val, Lookup(ns, ms[i].key))
    {
      LookupOwn(ms, i);
      var j := Find(ns, ms[i].key);
      assert Compare(Lookup(ms, ns[j].key), ns[j].val) == Equal;
      ReversibleIsSameNulls(ms[i].val, ns[j].val);
    }
  }

  /** The pigeonhole for null members. */
  lemma MissingAreNull(ms: seq<Member>, ns: seq<Member>)
    requires FloatFree(Obj(ms)) && FloatFree(Obj(ns)) && DistinctKeys(ms) && DistinctKeys(ns)
    requires Compare(Obj(ms), Obj(ns)) == Equal
    ensures NullCount(ms) == NullCount(ns) <==>
      forall i :: 0 <= i < |ms| && Find(ns, ms[i].key) == |ns| ==> ms[i].val == Null
  {
    hide PresentKeys, Compare, DistinctKeys, FloatFree, Find;
    EqualMemberwise(ms, ns);
    PresentKeysAreShared(ms, ns);
    PresentCount(ms);
    PresentCount(ns);
    if NullCount(ms) == NullCount(ns) {
      SubsetOfSameSize(PresentKeys(ns), PresentKeys(ms));
      forall i | 0 <= i < |ms| && Find(ns, ms[i].key) == |ns| ensures ms[i].val == Null {
        NotPresent(ms, ns, i);
      }
    }
    if forall i :: 0 <= i < |ms| && Find(ns, ms[i].key) == |ns| ==> ms[i].val == Null {
      PresentAreMatched(ms, ns);
      assert PresentKeys(ms) == PresentKeys(ns);
    }
  }

  lemma NotPresent(ms: seq<Member>, ns: seq<Member>, i: nat)
    requires i < |ms| && Find(ns, ms[i].key) == |ns| && PresentKeys(ms) == PresentKeys(ns)
    ensures ms[i].val == Null
  {
    var key := ms[i].key;
    assert ms[i].val != Null ==> key in PresentKeys(ms);
  }

  lemma PresentAreMatched(ms: seq<Member>, ns: seq<Member>)
    requires FloatFree(Obj(ms)) && FloatFree(Obj(ns)) && DistinctKeys(ms)
    requires Compare(Obj(ms), Obj(ns)) == Equal
    requires forall i :: 0 <= i < |ms| && Find(ns, ms[i].key) == |ns| ==> ms[i].val == Null
    ensures PresentKeys(ms) <= PresentKeys(ns)
  {
    EqualMemberwise(ms, ns);
    forall i | 0 <= i < |ms| && ms[i].val != Null ensures ms[i].key in PresentKeys(ns) {
      var j := Find(ns, ms[i].key);
      LookupOwn(ms, i);
      assert Compare(Lookup(ms, ns[j].key), ns[j].val) == Equal;
      OnlyNullIsNull(ms[i].val);
    }
  }

  // ---- Transitivity ----

  predicate NoNullMembers(v: Value) {
    match v
    case Arr(es) => forall i :: 0 <= i < |es| ==> NoNullMembers(es[i])
    case Obj(ms) => forall i :: 0 <= i < |ms| ==> ms[i].val != Null && NoNullMembers(ms[i].val)
    case _ => true
  }

  /** A null member of `w` is null or missing in `u`, wherever the two are compared. */
  predicate NullsKept(u: Value, w: Value)
    decreases w
  {
    match w
    case Arr(es) => u.Arr? ==> forall i :: 0 <= i < |es| && i < |u.elems| ==> NullsKept(u.elems[i], es[i])
    case Obj(ps) =>
      u.Obj? ==> forall k :: 0 <= k < |ps| ==>
        var other := Lookup(u.members, ps[k].key);
        if ps[k].val == Null then other == Null else NullsKept(other, ps[k].val)
    case _ => true
  }

  /** For all values without floats, repeated keys and NULs or not: == passes over an equal
      value exactly when the nulls of the last are nulls of the first. */
  lemma {:induction false} EqualPassesOver(u: Value, v: Value, w: Value)
    requires FloatFree(u) && FloatFree(v) && FloatFree(w)
    requires Compare(u, v) == Equal && Compare(v, w) == Equal
    ensures Compare(u, w) == Equal <==> NullsKept(u, w)
    decreases w
  {
    match w
    case Str(s) =>
      EqualStrings(u.s, v.s);
      EqualStrings(v.s, s);
      EqualStrings(u.s, s);
      CStrOfNulFree(v.s);
    case Arr(es) =>
      EqualElementwise(u.elems, v.elems);
      EqualElementwise(v.elems, es);
      EqualElementwise(u.elems, es);
      forall i | 0 <= i < |es| ensures Compare(u.elems[i], es[i]) == Equal <==> NullsKept(u.elems[i], es[i]) {
        EqualPassesOver(u.elems[i], v.elems[i], es[i]);
      }
    case Obj(ps) =>
      EqualMemberwise(u.members, v.members);
      EqualMemberwise(v.members, ps);
      EqualMemberwise(u.members, ps);
      forall k | 0 <= k < |ps|
        ensures FloatFree(Lookup(u.members, ps[k].key))
        ensures Compare(Lookup(u.members, ps[k].key), ps[k].val) == Equal
          <==> if ps[k].val == Null then Lookup(u.members, ps[k].key) == Null
               else NullsKept(Lookup(u.members, ps[k].key), ps[k].val)
      {
        LookupIsFloatFree(u.members, ps[k].key);
        OnlyNullIsNull(Lookup(u.members, ps[k].key));
        if ps[k].val != Null {
          assert Compare(Lookup(v.members, ps[k].key), ps[k].val) == Equal;
          OnlyNullIsNull(ps[k].val);
          var j := Find(v.members, ps[k].key);
          assert Compare(Lookup(u.members, v.members[j].key), v.members[j].val) == Equal;
          EqualPassesOver(Lookup(u.members, ps[k].key), v.members[j].val, ps[k].val);
        }
      }
    case _ =>
      if IsNumber(w) {
        NumbersAreOrdered(u, v);
        NumbersAreOrdered(v, w);
        NumbersAreOrdered(u, w);
      }
  }

  lemma {:induction false} NoNullsAreKept(u: Value, w: Value)
    requires NoNullMembers(w)
    ensures NullsKept(u, w)
    decreases w
  {
    match w
    case Arr(es) =>
      if u.Arr? {
        forall i | 0 <= i < |es| && i < |u.elems| ensures NullsKept(u.elems[i], es[i]) {
          NoNullsAreKept(u.elems[i], es[i]);
        }
      }
    case Obj(ps) =>
      if u.Obj? {
        forall k | 0 <= k < |ps| ensures NullsKept(Lookup(u.members, ps[k].key), ps[k].val) {
          NoNullsAreKept(Lookup(u.members, ps[k].key), ps[k].val);
        }
      }
    case _ =>
  }

  /** So without null members on the right == is transitive. */
  lemma EqualIsTransitive(u: Value, v: Value, w: Value)
    requires FloatFree(u) && FloatFree(v) && FloatFree(w) && NoNullMembers(w)
    requires Compare(u, v) == Equal && Compare(v, w) == Equal
    ensures Compare(u, w) == Equal
  {
    EqualPassesOver(u, v, w);
    NoNullsAreKept(u, w);
  }

  lemma LookupIsFloatFree(ms: seq<Member>, key: Bytes)
    requires FloatFree(Obj(ms))
    ensures FloatFree(Lookup(ms, key))
  {
  }

  // ---- Repeated keys ----

  /** Matched objects have equally many different keys, and every member of the left one
      equals the first with its key. */
  predicate RepeatsAgree(v: Value, w: Value)
    requires FloatFree(v) && FloatFree(w)
    decreases v
  {
    match v
    case Arr(es) => w.Arr? ==> forall i :: 0 <= i < |es| && i < |w.elems| ==> RepeatsAgree(es[i], w.elems[i])
    case Obj(ms) =>
      w.Obj? ==>
        && |KeysOf(ms)| == |KeysOf(w.members)|
        && forall i :: 0 <= i < |ms| ==>
             if Find(ms, ms[i].key) < i then Compare(Lookup(ms, ms[i].key), ms[i].val) == Equal
             else RepeatsAgree(ms[i].val, Lookup(w.members, ms[i].key))
    case _ => true
  }

  lemma KeysAreShared(ms: seq<Member>, ns: seq<Member>)
    requires FloatFree(Obj(ms)) && FloatFree(Obj(ns)) && NoNullMembers(Obj(ns)) && Compare(Obj(ms), Obj(ns)) == Equal
    ensures KeysOf(ns) <= KeysOf(ms)
  {
    EqualMemberwise(ms, ns);
    forall j | 0 <= j < |ns| ensures ns[j].key in KeysOf(ms) {
      assert Compare(Lookup(ms, ns[j].key), ns[j].val) == Equal;
      OnlyNullIsNull(ns[j].val);
      KeyIsFound(ms, ns[j].key);
    }
  }

  /** Without NULs and null members, == holds both ways exactly when repeated keys agree. */
  lemma {:induction false} RepeatedKeysDecide(v: Value, w: Value)
    requires FloatFree(v) && FloatFree(w) && NoNullMembers(v) && NoNullMembers(w) && NulFree(v)
    requires Compare(v, w) == Equal
    ensures Compare(w, v) == Equal <==> RepeatsAgree(v, w)
    decreases v, 2
  {
    match v
    case Str(s) =>
      EqualBothWays(v, w);
    case Arr(es) =>
      EqualElementwise(es, w.elems);
      EqualElementwise(w.elems, es);
      forall i | 0 <= i < |es| ensures Compare(w.elems[i], es[i]) == Equal <==> RepeatsAgree(es[i], w.elems[i]) {
        RepeatedKeysDecide(es[i], w.elems[i]);
      }
    case Obj(ms) =>
      RepeatedMembersDecide(v, w);
    case _ =>
      EqualBothWays(v, w);
  }

  lemma {:induction false} RepeatedMembersDecide(v: Value, w: Value)
    requires FloatFree(v) && FloatFree(w) && NoNullMembers(v) && NoNullMembers(w) && NulFree(v)
    requires Compare(v, w) == Equal && v.Obj?
    ensures Compare(w, v) == Equal <==> RepeatsAgree(v, w)
    decreases v, 1
  {
    hide NoNullMembers, NulFree;
    var ms, ns := v.members, w.members;
    EqualMemberwise(ms, ns);
    EqualMemberwise(ns, ms);
    KeysAreShared(ms, ns);
    if Compare(w, v) == Equal {
      KeysAreShared(ns, ms);
      assert KeysOf(ms) == KeysOf(ns);
    }
    if |KeysOf(ms)| == |KeysOf(ns)| {
      SubsetOfSameSize(KeysOf(ns), KeysOf(ms));
      forall i | 0 <= i < |ms| && Find(ms, ms[i].key) == i
        ensures Compare(Lookup(ns, ms[i].key), ms[i].val) == Equal <==> RepeatsAgree(ms[i].val, Lookup(ns, ms[i].key))
      {
        FirstDecides(v, w, i);
      }
      forall i | 0 <= i < |ms| && Compare(Lookup(ns, ms[i].key), ms[Find(ms, ms[i].key)].val) == Equal
        ensures Compare(Lookup(ns, ms[i].key), ms[i].val) == Equal
          <==> Compare(Lookup(ms, ms[i].key), ms[i].val) == Equal
      {
        RepeatDecides(v, w, i);
      }
      assert forall i :: 0 <= i < |ms| ==> ms[Find(ms, ms[i].key)].key == ms[i].key;
    }
  }

  /** The first member with its key, and what it equals on the other side. */
  lemma {:induction false} FirstDecides(v: Value, w: Value, i: nat)
    requires FloatFree(v) && FloatFree(w) && NoNullMembers(v) && NoNullMembers(w) && NulFree(v)
    requires Compare(v, w) == Equal && v.Obj? && i < |v.members| && Find(v.members, v.members[i].key) == i
    requires v.members[i].key in KeysOf(w.members)
    ensures FloatFree(Lookup(w.members, v.members[i].key))
    ensures Compare(Lookup(w.members, v.members[i].key), v.members[i].val) == Equal
        <==> RepeatsAgree(v.members[i].val, Lookup(w.members, v.members[i].key))
    decreases v, 0
  {
    EqualMemberwise(v.members, w.members);
    KeyIsFound(w.members, v.members[i].key);
    var j := Find(w.members, v.members[i].key);
    assert Compare(Lookup(v.members, w.members[j].key), w.members[j].val) == Equal;
    RepeatedKeysDecide(v.members[i].val, w.members[j].val);
  }

  /** Whether a later member equals the first can be asked on either side. */
  lemma RepeatDecides(v: Value, w: Value, i: nat)
    requires FloatFree(v) && FloatFree(w) && NoNullMembers(v) && NoNullMembers(w) && v.Obj? && w.Obj?
    requires Compare(v, w) == Equal && i < |v.members| && v.members[i].key in KeysOf(w.members)
    requires FloatFree(Lookup(w.members, v.members[i].key))
    requires Compare(Lookup(w.members, v.members[i].key), v.members[Find(v.members, v.members[i].key)].val) == Equal
    ensures Compare(Lookup(w.members, v.members[i].key), v.members[i].val) == Equal
        <==> Compare(Lookup(v.members, v.members[i].key), v.members[i].val) == Equal
  {
    EqualMemberwise(v.members, w.members);
    KeyIsFound(w.members, v.members[i].key);
    var j, f := Find(w.members, v.members[i].key), Find(v.members, v.members[i].key);
    var x, y, z := w.members[j].val, v.members[f].val, v.members[i].val;
    assert Compare(Lookup(v.members, w.members[j].key), w.members[j].val) == Equal;
    if Compare(x, z) == Equal {
      EqualIsTransitive(y, x, z);
    }
    if Compare(y, z) == Equal {
      EqualIsTransitive(x, y, z);
    }
  }

  // ---- Cases that are not symmetric ----

  /** A string with a NUL equals its beginning, but not the other way round. */
  lemma NulBreaksSymmetry()
    ensures Compare(Str([97, 0, 98]), Str([97])) == Equal && Compare(Str([97]), Str([97, 0, 98])) != Equal
  {
  }

  /** A null member equals an absent one, so an object can equal another with other keys. */
  lemma NullMembersBreakSymmetry()
    ensures var x, y := Obj([Member([97], Null)]), Obj([Member([98], Int(1))]);
      Compare(y, x) == Equal && Compare(x, y) != Equal
  {
  }

  /** And so two objects can both equal a third without being equal. */
  lemma NullMembersBreakTransitivity()
    ensures var x, y, z := Obj([Member([97], Int(1))]), Obj([Member([98], Null)]), Obj([Member([97], Null)]);
      Compare(x, y) == Equal && Compare(y, z) == Equal && Compare(x, z) != Equal
  {
  }

  /** A repeated key is looked up twice, and another key never. */
  lemma RepeatedKeysBreakSymmetry()
    ensures var x, y := Obj([Member([97], Int(1)), Member([97], Int(1))]),
      Obj([Member([97], Int(1)), Member([98], Int(2))]);
      Compare(y, x) == Equal && Compare(x, y) != Equal
  {
  }
}
