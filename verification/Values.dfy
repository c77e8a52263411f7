/** JSON values, the byte strings they hold, and the results the parsers return. */
module Values {

  type Byte = b: int | 0 <= b < 256
  type Bytes = seq<Byte>

  /** A float is not computed: from text, it is the operands handed to make_float, or the
      infinity or zero that replaces an exponent too large to compute; from MessagePack,
      its bytes. */
  datatype FloatLit =
    | Decimal(negative: bool, mantissa: nat, exponent: int)
    | Infinite(negative: bool)
    | Zero(negative: bool)
    | Binary(bytes: Bytes)

  /** The value a VariantData denotes. Signed and unsigned integers are one case;
      a float is kept as the literal it was computed from. */
  datatype Value =
    | Null
    | Bool(b: bool)
    | Int(n: int)
    | Float(lit: FloatLit)
    | Str(s: Bytes)
    | Arr(elems: seq<Value>)
    | Obj(members: seq<Member>)

  datatype Member = Member(key: Bytes, val: Value)

  datatype Error = EmptyInput | IncompleteInput | InvalidInput | NoMemory | TooDeep

  datatype Option<+T> = None | Some(value: T)

  /** Outcome of reading from an input: a result and the position after it. */
  datatype Result<+T> = Ok(val: T, pos: nat) | Err(error: Error)

  /** Outcome of skipping over input: the position after it. */
  datatype Skip = At(pos: nat) | Fail(error: Error)

  /** The C string at the start of `s`: everything before the first NUL. */
  function CStr(s: Bytes): (r: Bytes)
    ensures 0 !in r && r <= s
    ensures r == s || s[|r|] == 0
  {
    if s == [] || s[0] == 0 then [] else [s[0]] + CStr(s[1..])
  }

  lemma CStrOfNulFree(s: Bytes)
    requires 0 !in s
    ensures CStr(s) == s
  {
  }

  /** Index of the first member named `key`, or the number of members. */
  function Find(ms: seq<Member>, key: Bytes): (i: nat)
    ensures i <= |ms|
    ensures forall j :: 0 <= j < i ==> ms[j].key != key
    ensures i < |ms| ==> ms[i].key == key
  {
    if ms == [] || ms[0].key == key then 0 else 1 + Find(ms[1..], key)
  }

  /** Member access: an absent member reads as null. */
  function Lookup(ms: seq<Member>, key: Bytes): Value {
    var i := Find(ms, key);
    if i < |ms| then ms[i].val else Null
  }

  predicate DistinctKeys(ms: seq<Member>) {
    forall i, j :: 0 <= i < j < |ms| ==> ms[i].key != ms[j].key
  }

  /** No object anywhere in `v` repeats a key. */
  predicate UniqueKeys(v: Value) {
    match v
    case Arr(es) => forall i :: 0 <= i < |es| ==> UniqueKeys(es[i])
    case Obj(ms) => DistinctKeys(ms) && forall i :: 0 <= i < |ms| ==> UniqueKeys(ms[i].val)
    case _ => true
  }

  function Max(a: nat, b: nat): nat {
    if a < b then b else a
  }

  /** variantNesting: arrays and objects around the deepest value. */
  function Nesting(v: Value): nat {
    match v
    case Arr(es) => 1 + NestingOfElems(es)
    case Obj(ms) => 1 + NestingOfMembers(ms)
    case _ => 0
  }

  function NestingOfElems(es: seq<Value>): nat {
    if es == [] then 0 else Max(Nesting(es[0]), NestingOfElems(es[1..]))
  }

  function NestingOfMembers(ms: seq<Member>): nat {
    if ms == [] then 0 else Max(Nesting(ms[0].val), NestingOfMembers(ms[1..]))
  }

  /** No float occurs in the value. */
  predicate FloatFree(v: Value) {
    match v
    case Float(_) => false
    case Arr(es) => forall i :: 0 <= i < |es| ==> FloatFree(es[i])
    case Obj(ms) => forall i :: 0 <= i < |ms| ==> FloatFree(ms[i].val)
    case _ => true
  }

  /** No string value holds a NUL. */
  predicate NulFree(v: Value) {
    match v
    case Str(s) => 0 !in s
    case Arr(es) => forall i :: 0 <= i < |es| ==> NulFree(es[i])
    case Obj(ms) => forall i :: 0 <= i < |ms| ==> NulFree(ms[i].val)
    case _ => true
  }

  // ---- Keys cut at a NUL ----

  /** The value with every key cut at its first NUL, as the decoders store it. */
  function CutKeys(v: Value): (r: Value)
    decreases v, 0
  {
    match v
    case Arr(es) => Arr(CutElems(es))
    case Obj(ms) => Obj(CutMembers(ms))
    case _ => v
  }

  function CutElems(es: seq<Value>): seq<Value>
    decreases es, 1
  {
    if es == [] then [] else [CutKeys(es[0])] + CutElems(es[1..])
  }

  function CutMembers(ms: seq<Member>): seq<Member>
    decreases ms, 1
  {
    if ms == [] then [] else [Member(CStr(ms[0].key), CutKeys(ms[0].val))] + CutMembers(ms[1..])
  }

  /** No key holds a NUL. */
  predicate PlainKeys(v: Value) {
    match v
    case Arr(es) => forall i :: 0 <= i < |es| ==> PlainKeys(es[i])
    case Obj(ms) => forall i :: 0 <= i < |ms| ==> 0 !in ms[i].key && PlainKeys(ms[i].val)
    case _ => true
  }

  /** Cutting changes nothing exactly when no key holds a NUL. */
  lemma {:induction false} CutChangesNothing(v: Value)
    ensures CutKeys(v) == v <==> PlainKeys(v)
    decreases v, 0
  {
    match v
    case Arr(es) => CutElemsChangesNothing(es);
    case Obj(ms) => CutMembersChangesNothing(ms);
    case _ =>
  }

  lemma {:induction false} CutElemsChangesNothing(es: seq<Value>)
    ensures CutElems(es) == es <==> forall i :: 0 <= i < |es| ==> PlainKeys(es[i])
    decreases es, 1
  {
    if es != [] {
      hide PlainKeys, CutKeys;
      CutChangesNothing(es[0]);
      CutElemsChangesNothing(es[1..]);
      assert forall i :: 0 < i < |es| ==> es[i] == es[1..][i - 1];
      assert es == [es[0]] + es[1..];
    }
  }

  lemma {:induction false} CutMembersChangesNothing(ms: seq<Member>)
    ensures CutMembers(ms) == ms <==> forall i :: 0 <= i < |ms| ==> 0 !in ms[i].key && PlainKeys(ms[i].val)
    decreases ms, 1
  {
    if ms != [] {
      hide PlainKeys, CutKeys;
      CutChangesNothing(ms[0].val);
      CutMembersChangesNothing(ms[1..]);
      if 0 !in ms[0].key {
        CStrOfNulFree(ms[0].key);
      }
      assert forall i :: 0 < i < |ms| ==> ms[i] == ms[1..][i - 1];
      assert ms == [ms[0]] + ms[1..];
    }
  }

  lemma {:induction false} CutKeepsNesting(v: Value)
    ensures Nesting(CutKeys(v)) == Nesting(v)
    decreases v, 0
  {
    match v
    case Arr(es) => CutElemsKeepNesting(es);
    case Obj(ms) => CutMembersKeepNesting(ms);
    case _ =>
  }

  lemma {:induction false} CutElemsKeepNesting(es: seq<Value>)
    ensures NestingOfElems(CutElems(es)) == NestingOfElems(es)
    decreases es, 1
  {
    if es != [] {
      hide Nesting, CutKeys;
      CutKeepsNesting(es[0]);
      CutElemsKeepNesting(es[1..]);
      assert CutElems(es)[1..] == CutElems(es[1..]);
    }
  }

  lemma {:induction false} CutMembersKeepNesting(ms: seq<Member>)
    ensures NestingOfMembers(CutMembers(ms)) == NestingOfMembers(ms)
    decreases ms, 1
  {
    if ms != [] {
      hide Nesting, CutKeys;
      CutKeepsNesting(ms[0].val);
      CutMembersKeepNesting(ms[1..]);
      assert CutMembers(ms)[1..] == CutMembers(ms[1..]);
    }
  }

  // ---- Text at a position ----

  /** `t` occurs in `s` at `p`. */
  predicate OccursAt(s: Bytes, p: nat, t: Bytes) { p + |t| <= |s| && s[p..p + |t|] == t }

  lemma OccursSplit(s: Bytes, p: nat, a: Bytes, b: Bytes)
    requires OccursAt(s, p, a + b)
    ensures OccursAt(s, p, a) && OccursAt(s, p + |a|, b)
    ensures p + |a| + |b| <= |s|
  {
    assert s[p..p + |a + b|][..|a|] == a;
    assert s[p..p + |a + b|][|a|..] == b;
  }

  lemma OccursFirst(s: Bytes, p: nat, t: Bytes)
    requires OccursAt(s, p, t) && t != []
    ensures p < |s| && s[p] == t[0]
  {
  }
}
