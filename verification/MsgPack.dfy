/** The MessagePack encoder and decoder as functions on byte strings, and their round trip. */
module MsgPack {
  import opened Values

  // ---- Integers ----

  function Pow256(k: nat): (r: nat)
    ensures r > 0
  {
    if k == 0 then 1 else 256 * Pow256(k - 1)
  }

  /** `n` in `k` bytes, the highest first. */
  function BigEndian(n: nat, k: nat): (r: Bytes)
    ensures |r| == k
  {
    if k == 0 then [] else BigEndian(n / 256, k - 1) + [n % 256]
  }

  function FromBigEndian(s: Bytes): nat {
    if s == [] then 0 else FromBigEndian(s[..|s| - 1]) * 256 + s[|s| - 1]
  }

  lemma {:induction false} BigEndianRoundTrip(n: nat, k: nat)
    requires n < Pow256(k)
    ensures FromBigEndian(BigEndian(n, k)) == n
  {
    if k > 0 {
      BigEndianRoundTrip(n / 256, k - 1);
      assert BigEndian(n, k)[..k - 1] == BigEndian(n / 256, k - 1);
    }
  }

  function TwosComplement(n: int, k: nat): int { if n < 0 then n + Pow256(k) else n }

  function Signed(n: nat, k: nat): int { if 2 * n >= Pow256(k) then n - Pow256(k) else n }

  // ---- Encoding ----

  /** The range of the 64-bit integers, signed and unsigned. */
  predicate Is64Bit(n: int) { -0x8000_0000_0000_0000 <= n <= 0xFFFF_FFFF_FFFF_FFFF }

  /** visitSignedInteger and visitUnsignedInteger */
  function EncodeInt(n: int): Bytes
    requires Is64Bit(n)
  {
    if n > 0 then
      if n <= 0x7F then [n]
      else if n <= 0xFF then [0xCC] + BigEndian(n, 1)
      else if n <= 0xFFFF then [0xCD] + BigEndian(n, 2)
      else if n <= 0xFFFF_FFFF then [0xCE] + BigEndian(n, 4)
      else [0xCF] + BigEndian(n, 8)
    else if n >= -0x20 then [TwosComplement(n, 1)]
    else if n >= -0x80 then [0xD0] + BigEndian(TwosComplement(n, 1), 1)
    else if n >= -0x8000 then [0xD1] + BigEndian(TwosComplement(n, 2), 2)
    else if n >= -0x8000_0000 then [0xD2] + BigEndian(TwosComplement(n, 4), 4)
    else [0xD3] + BigEndian(TwosComplement(n, 8), 8)
  }

  const SIZE_LIMIT: nat := 0x1_0000_0000

  function StringHeader(n: nat): (h: Bytes)
    requires n < SIZE_LIMIT
    ensures h != []
  {
    if n < 0x20 then [0xA0 + n]
    else if n < 0x100 then [0xD9] + BigEndian(n, 1)
    else if n < 0x1_0000 then [0xDA] + BigEndian(n, 2)
    else [0xDB] + BigEndian(n, 4)
  }

  /** The header of an array or object: `fix` holds a count below 16, `wide` and the code
      after it announce counts of 16 and 32 bits. */
  function CollectionHeader(fix: Byte, wide: Byte, n: nat): (h: Bytes)
    requires n < SIZE_LIMIT && fix <= 0xF0 && wide < 0xFF
    ensures h != []
  {
    if n < 0x10 then [fix + n]
    else if n < 0x1_0000 then [wide] + BigEndian(n, 2)
    else [wide + 1] + BigEndian(n, 4)
  }

  const FIX_OBJECT: Byte := 0x80
  const FIX_ARRAY: Byte := 0x90
  const FIX_STRING: Byte := 0xA0
  const ARRAY_16: Byte := 0xDC
  const OBJECT_16: Byte := 0xDE

  function EncodeString(s: Bytes): (t: Bytes)
    requires |s| < SIZE_LIMIT
    ensures t != []
  {
    StringHeader(|s|) + s
  }

  /** What the encoder can write and the decoder give back: no floats, 64-bit integers,
      sizes of at most 32 bits, keys without NUL. */
  predicate Encodable(v: Value) {
    match v
    case Float(_) => false
    case Int(n) => Is64Bit(n)
    case Str(s) => |s| < SIZE_LIMIT
    case Arr(es) => |es| < SIZE_LIMIT && forall i :: 0 <= i < |es| ==> Encodable(es[i])
    case Obj(ms) => |ms| < SIZE_LIMIT && forall i :: 0 <= i < |ms| ==>
      0 !in ms[i].key && |ms[i].key| < SIZE_LIMIT && Encodable(ms[i].val)
    case _ => true
  }

  function Encode(v: Value): (t: Bytes)
    requires Encodable(v)
    ensures t != []
    decreases v, 0
  {
    match v
    case Null => [0xC0]
    case Bool(b) => if b then [0xC3] else [0xC2]
    case Int(n) => EncodeInt(n)
    case Str(s) => EncodeString(s)
    case Arr(es) => CollectionHeader(FIX_ARRAY, ARRAY_16, |es|) + EncodeElems(es)
    case Obj(ms) => CollectionHeader(FIX_OBJECT, OBJECT_16, |ms|) + EncodeMembers(ms)
  }

  function EncodeElems(es: seq<Value>): Bytes
    requires forall i :: 0 <= i < |es| ==> Encodable(es[i])
    decreases es, 1
  {
    if es == [] then [] else Encode(es[0]) + EncodeElems(es[1..])
  }

  predicate EncodableMember(m: Member) { 0 !in m.key && |m.key| < SIZE_LIMIT && Encodable(m.val) }

  function EncodeMember(m: Member): Bytes
    requires EncodableMember(m)
    decreases m, 1
  {
    EncodeString(m.key) + Encode(m.val)
  }

  function EncodeMembers(ms: seq<Member>): Bytes
    requires forall i :: 0 <= i < |ms| ==> EncodableMember(ms[i])
    decreases ms, 2
  {
    if ms == [] then [] else EncodeMember(ms[0]) + EncodeMembers(ms[1..])
  }

  // ---- Decoding ----

  /** readInteger on an unsigned type of `k` bytes. */
  function ReadUnsigned(s: Bytes, p: nat, k: nat): (r: Result<nat>)
    requires p <= |s|
    ensures r.Ok? ==> r.pos == p + k <= |s|
  {
    if p + k <= |s| then Ok(FromBigEndian(s[p..p + k]), p + k) else Err(IncompleteInput)
  }

  function ReadString(s: Bytes, p: nat, n: nat): (r: Result<Bytes>)
    requires p <= |s|
    ensures r.Ok? ==> r.pos == p + n <= |s|
  {
    if p + n <= |s| then Ok(s[p..p + n], p + n) else Err(IncompleteInput)
  }

  function ReadSizedString(s: Bytes, p: nat, k: nat): (r: Result<Bytes>)
    requires p <= |s|
    ensures r.Ok? ==> p <= r.pos <= |s|
  {
    match ReadUnsigned(s, p, k)
    case Err(e) => Err(e)
    case Ok(n, q) => ReadString(s, q, n)
  }

  /** readKey */
  function DecodeKey(s: Bytes, p: nat): (r: Result<Bytes>)
    requires p <= |s|
    ensures r.Ok? ==> p < r.pos <= |s|
  {
    if p == |s| then Err(IncompleteInput)
    else if FIX_STRING <= s[p] < 0xC0 then ReadString(s, p + 1, s[p] - FIX_STRING)
    else if s[p] == 0xD9 then ReadSizedString(s, p + 1, 1)
    else if s[p] == 0xDA then ReadSizedString(s, p + 1, 2)
    else if s[p] == 0xDB then ReadSizedString(s, p + 1, 4)
    else Err(InvalidInput)
  }

  /** skipBytes: what is not supported leaves the variant null. */
  function SkipBytes(s: Bytes, p: nat, n: nat): (r: Result<Value>)
    requires p <= |s|
    ensures r.Ok? ==> p <= r.pos <= |s|
  {
    if p + n <= |s| then Ok(Null, p + n) else Err(IncompleteInput)
  }

  /** skipString, and skipExt with one byte more, counted in 32 bits. */
  function SkipSized(s: Bytes, p: nat, k: nat, more: nat): (r: Result<Value>)
    requires p <= |s|
    ensures r.Ok? ==> p <= r.pos <= |s|
  {
    match ReadUnsigned(s, p, k)
    case Err(e) => Err(e)
    case Ok(n, q) => SkipBytes(s, q, (n + more) % SIZE_LIMIT)
  }

  function ReadInt(s: Bytes, p: nat, k: nat, signed: bool): (r: Result<Value>)
    requires p <= |s|
    ensures r.Ok? ==> p <= r.pos <= |s|
  {
    match ReadUnsigned(s, p, k)
    case Err(e) => Err(e)
    case Ok(n, q) => Ok(Int(if signed then Signed(n, k) else n), q)
  }

  function ReadFloat(s: Bytes, p: nat, k: nat): (r: Result<Value>)
    requires p <= |s|
    ensures r.Ok? ==> p <= r.pos <= |s|
  {
    if p + k <= |s| then Ok(Float(Binary(s[p..p + k])), p + k) else Err(IncompleteInput)
  }

  function StringValue(r: Result<Bytes>): Result<Value> {
    match r
    case Err(e) => Err(e)
    case Ok(t, q) => Ok(Str(t), q)
  }

  /** The codes of parseVariant that do not nest. */
  function DecodeToken(s: Bytes, p: nat): (r: Result<Value>)
    requires p < |s|
    ensures r.Ok? ==> p < r.pos <= |s|
  {
    var code, q := s[p], p + 1;
    if FIX_STRING <= code < 0xC0 then StringValue(ReadString(s, q, code - FIX_STRING))
    else if code < 0x80 then Ok(Int(code), q)
    else if code >= 0xE0 then Ok(Int(code - 0x100), q)
    else if code == 0xC0 then Ok(Null, q)
    else if code == 0xC2 then Ok(Bool(false), q)
    else if code == 0xC3 then Ok(Bool(true), q)
    else if code == 0xC4 then SkipSized(s, q, 1, 0)
    else if code == 0xC5 then SkipSized(s, q, 2, 0)
    else if code == 0xC6 then SkipSized(s, q, 4, 0)
    else if code == 0xC7 then SkipSized(s, q, 1, 1)
    else if code == 0xC8 then SkipSized(s, q, 2, 1)
    else if code == 0xC9 then SkipSized(s, q, 4, 1)
    else if code == 0xCA then ReadFloat(s, q, 4)
    else if code == 0xCB then ReadFloat(s, q, 8)
    else if code == 0xCC then ReadInt(s, q, 1, false)
    else if code == 0xCD then ReadInt(s, q, 2, false)
    else if code == 0xCE then ReadInt(s, q, 4, false)
    else if code == 0xCF then ReadInt(s, q, 8, false)
    else if code == 0xD0 then ReadInt(s, q, 1, true)
    else if code == 0xD1 then ReadInt(s, q, 2, true)
    else if code == 0xD2 then ReadInt(s, q, 4, true)
    else if code == 0xD3 then ReadInt(s, q, 8, true)
    else if code == 0xD4 then SkipBytes(s, q, 2)
    else if code == 0xD5 then SkipBytes(s, q, 3)
    else if code == 0xD6 then SkipBytes(s, q, 5)
    else if code == 0xD7 then SkipBytes(s, q, 9)
    else if code == 0xD8 then SkipBytes(s, q, 17)
    else if code == 0xD9 then StringValue(ReadSizedString(s, q, 1))
    else if code == 0xDA then StringValue(ReadSizedString(s, q, 2))
    else if code == 0xDB then StringValue(ReadSizedString(s, q, 4))
    else Err(InvalidInput)
  }

  /** The count after a header, and where it ends: none for a code that does not nest. */
  function ReadCount(s: Bytes, p: nat, fix: Byte, wide: Byte): (r: Option<Result<nat>>)
    requires p < |s| && fix <= 0xF0 && wide < 0xFF
    ensures r.Some? && r.value.Ok? ==> p < r.value.pos <= |s|
  {
    if fix <= s[p] < fix + 0x10 then Some(Ok(s[p] - fix, p + 1))
    else if s[p] == wide then Some(ReadUnsigned(s, p + 1, 2))
    else if s[p] == wide + 1 then Some(ReadUnsigned(s, p + 1, 4))
    else None
  }

  /** parseVariant, with a filter that allows everything and enough memory. */
  function DecodeVariant(s: Bytes, p: nat, limit: nat): (r: Result<Value>)
    requires p <= |s|
    ensures r.Ok? ==> p < r.pos <= |s|
    decreases |s| - p, 0
  {
    if p == |s| then Err(IncompleteInput)
    else
      match ReadCount(s, p, FIX_ARRAY, ARRAY_16)
      case Some(Err(e)) => Err(e)
      case Some(Ok(n, q)) => if limit == 0 then Err(TooDeep) else DecodeElems(s, q, n, limit, [])
      case None =>
        match ReadCount(s, p, FIX_OBJECT, OBJECT_16)
        case Some(Err(e)) => Err(e)
        case Some(Ok(n, q)) => if limit == 0 then Err(TooDeep) else DecodeMembers(s, q, n, limit, [])
        case None => DecodeToken(s, p)
  }

  /** The loop of readArray. */
  function DecodeElems(s: Bytes, p: nat, n: nat, limit: nat, acc: seq<Value>): (r: Result<Value>)
    requires p <= |s| && limit > 0
    ensures r.Ok? ==> p <= r.pos <= |s| && r.val.Arr?
    decreases |s| - p, 1
  {
    if n == 0 then Ok(Arr(acc), p)
    else
      match DecodeVariant(s, p, limit - 1)
      case Err(e) => Err(e)
      case Ok(v, q) => DecodeElems(s, q, n - 1, limit, acc + [v])
  }

  /** A key and its value: a member of its own, even when the key is there already. */
  function DecodeMember(s: Bytes, p: nat, limit: nat): (r: Result<Member>)
    requires p <= |s| && limit > 0
    ensures r.Ok? ==> p < r.pos <= |s|
    decreases |s| - p, 1
  {
    match DecodeKey(s, p)
    case Err(e) => Err(e)
    case Ok(name, q) =>
      match DecodeVariant(s, q, limit - 1)
      case Err(e) => Err(e)
      case Ok(v, w) => Ok(Member(CStr(name), v), w)
  }

  /** The loop of readObject. */
  function DecodeMembers(s: Bytes, p: nat, n: nat, limit: nat, acc: seq<Member>): (r: Result<Value>)
    requires p <= |s| && limit > 0
    ensures r.Ok? ==> p <= r.pos <= |s| && r.val.Obj?
    decreases |s| - p, 2
  {
    if n == 0 then Ok(Obj(acc), p)
    else
      match DecodeMember(s, p, limit)
      case Err(e) => Err(e)
      case Ok(m, q) => DecodeMembers(s, q, n - 1, limit, acc + [m])
  }

  /** parse */
  function Decode(s: Bytes, limit: nat): Result<Value> {
    if s == [] then Err(EmptyInput) else DecodeVariant(s, 0, limit)
  }

  // ---- Round trip ----

  lemma UnsignedReadBack(s: Bytes, p: nat, n: nat, k: nat)
    requires OccursAt(s, p, BigEndian(n, k)) && n < Pow256(k)
    ensures ReadUnsigned(s, p, k) == Ok(n, p + k)
  {
    BigEndianRoundTrip(n, k);
  }

  lemma SignedRoundTrip(n: int, k: nat)
    requires k > 0 && 0 - Pow256(k) <= 2 * n < Pow256(k)
    ensures 0 <= TwosComplement(n, k) < Pow256(k) && Signed(TwosComplement(n, k), k) == n
  {
  }

  lemma Powers()
    ensures Pow256(1) == 0x100 && Pow256(2) == 0x1_0000 && Pow256(4) == 0x1_0000_0000
    ensures Pow256(8) == 0x1_0000_0000_0000_0000
  {
  }

  lemma IntReadBack(s: Bytes, p: nat, n: int)
    requires Is64Bit(n) && OccursAt(s, p, EncodeInt(n))
    ensures p < |s| && DecodeToken(s, p) == Ok(Int(n), p + |EncodeInt(n)|)
    ensures s[p] < 0x80 || s[p] >= 0xE0 || 0xCC <= s[p] <= 0xD3
  {
    hide Pow256, BigEndian, FromBigEndian, OccursAt;
    Powers();
    var t := EncodeInt(n);
    OccursFirst(s, p, t);
    if |t| > 1 {
      var k := |t| - 1;
      OccursSplit(s, p, [t[0]], t[1..]) by {
        assert t == [t[0]] + t[1..];
      }
      if n < 0 {
        SignedRoundTrip(n, k);
        UnsignedReadBack(s, p + 1, TwosComplement(n, k), k);
      } else {
        UnsignedReadBack(s, p + 1, n, k);
      }
    }
  }

  /** The header and the bytes of a string, where its encoding stands. */
  lemma StringSplit(s: Bytes, p: nat, t: Bytes)
    requires |t| < SIZE_LIMIT && OccursAt(s, p, EncodeString(t))
    ensures var h := StringHeader(|t|);
      && p < |s| && s[p] == h[0] && p + |h| <= |s|
      && ReadString(s, p + |h|, |t|) == Ok(t, p + |EncodeString(t)|)
      && (|h| > 1 ==> OccursAt(s, p + 1, h[1..]))
  {
    hide OccursAt, StringHeader;
    var h := StringHeader(|t|);
    OccursSplit(s, p, h, t);
    OccursFirst(s, p, h);
    Occurring(s, p + |h|, t);
    if |h| > 1 {
      OccursSplit(s, p, [h[0]], h[1..]) by {
        assert h == [h[0]] + h[1..];
      }
    }
  }

  lemma StringReadBack(s: Bytes, p: nat, t: Bytes)
    requires |t| < SIZE_LIMIT && OccursAt(s, p, EncodeString(t))
    ensures p < |s| && DecodeToken(s, p) == Ok(Str(t), p + |EncodeString(t)|)
    ensures FIX_STRING <= s[p] < 0xC0 || 0xD9 <= s[p] <= 0xDB
  {
    hide Pow256, BigEndian, FromBigEndian, OccursAt, EncodeString, ReadString;
    Powers();
    StringSplit(s, p, t);
    var h := StringHeader(|t|);
    if |h| > 1 {
      UnsignedReadBack(s, p + 1, |t|, |h| - 1);
    }
  }

  lemma KeyReadBack(s: Bytes, p: nat, t: Bytes)
    requires |t| < SIZE_LIMIT && OccursAt(s, p, EncodeString(t))
    ensures p < |s| && DecodeKey(s, p) == Ok(t, p + |EncodeString(t)|)
  {
    hide Pow256, BigEndian, FromBigEndian, OccursAt, EncodeString, ReadString;
    Powers();
    StringSplit(s, p, t);
    var h := StringHeader(|t|);
    if |h| > 1 {
      UnsignedReadBack(s, p + 1, |t|, |h| - 1);
    }
  }

  lemma Occurring(s: Bytes, p: nat, t: Bytes)
    requires OccursAt(s, p, t)
    ensures p + |t| <= |s| && s[p..p + |t|] == t
  {
  }

  lemma CountReadBack(s: Bytes, p: nat, fix: Byte, wide: Byte, n: nat)
    requires n < SIZE_LIMIT && fix <= 0xF0 && wide < 0xFF && (wide >= fix + 0x10 || wide + 1 < fix)
    requires OccursAt(s, p, CollectionHeader(fix, wide, n))
    ensures p < |s| && ReadCount(s, p, fix, wide) == Some(Ok(n, p + |CollectionHeader(fix, wide, n)|))
    ensures fix <= s[p] < fix + 0x10 || wide <= s[p] <= wide + 1
  {
    hide Pow256, BigEndian, FromBigEndian, OccursAt;
    Powers();
    var h := CollectionHeader(fix, wide, n);
    OccursFirst(s, p, h);
    if |h| > 1 {
      OccursSplit(s, p, [h[0]], h[1..]) by {
        assert h == [h[0]] + h[1..];
      }
      UnsignedReadBack(s, p + 1, n, |h| - 1);
    }
  }

  /** Wherever the encoding of `v` stands, the decoder reads `v` and stops right after it. */
  lemma {:induction false} ReadBack(s: Bytes, p: nat, v: Value, limit: nat)
    requires Encodable(v) && Nesting(v) <= limit && OccursAt(s, p, Encode(v))
    ensures p + |Encode(v)| <= |s| && DecodeVariant(s, p, limit) == Ok(v, p + |Encode(v)|)
    decreases v, 0
  {
    hide DecodeToken, DecodeElems, DecodeMembers, CollectionHeader, StringHeader, OccursAt, ReadUnsigned, EncodeElems;
    hide EncodeMembers, EncodeInt, EncodeString, NestingOfElems, NestingOfMembers;
    match v
    case Arr(es) =>
      var h := CollectionHeader(FIX_ARRAY, ARRAY_16, |es|);
      OccursSplit(s, p, h, EncodeElems(es));
      CountReadBack(s, p, FIX_ARRAY, ARRAY_16, |es|);
      ElemsReadBack(s, p + |h|, es, limit, []);
      assert [] + es == es;
    case Obj(ms) =>
      var h := CollectionHeader(FIX_OBJECT, OBJECT_16, |ms|);
      OccursSplit(s, p, h, EncodeMembers(ms));
      CountReadBack(s, p, FIX_OBJECT, OBJECT_16, |ms|);
      MembersReadBack(s, p + |h|, ms, limit, []);
      assert [] + ms == ms;
    case Int(n) => IntReadBack(s, p, n);
    case Str(t) => StringReadBack(s, p, t);
    case _ => SimpleReadBack(s, p, v);
  }

  lemma SimpleReadBack(s: Bytes, p: nat, v: Value)
    requires v.Null? || v.Bool?
    requires OccursAt(s, p, Encode(v))
    ensures p < |s| && DecodeToken(s, p) == Ok(v, p + 1) && 0xC0 <= s[p] <= 0xC3 && |Encode(v)| == 1
  {
  }

  lemma {:induction false} ElemsReadBack(s: Bytes, p: nat, es: seq<Value>, limit: nat, acc: seq<Value>)
    requires forall i :: 0 <= i < |es| ==> Encodable(es[i])
    requires limit > 0 && NestingOfElems(es) < limit && OccursAt(s, p, EncodeElems(es))
    ensures p + |EncodeElems(es)| <= |s|
    ensures DecodeElems(s, p, |es|, limit, acc) == Ok(Arr(acc + es), p + |EncodeElems(es)|)
    decreases es, 1
  {
    hide DecodeVariant, Encode;
    if es == [] {
      Occurring(s, p, []);
      assert acc + es == acc;
    } else {
      OccursSplit(s, p, Encode(es[0]), EncodeElems(es[1..]));
      ReadBack(s, p, es[0], limit - 1);
      ElemsReadBack(s, p + |Encode(es[0])|, es[1..], limit, acc + [es[0]]);
      assert acc + [es[0]] + es[1..] == acc + es;
    }
  }

  lemma {:induction false} MembersReadBack(s: Bytes, p: nat, ms: seq<Member>, limit: nat, acc: seq<Member>)
    requires forall i :: 0 <= i < |ms| ==> EncodableMember(ms[i])
    requires limit > 0 && NestingOfMembers(ms) < limit && OccursAt(s, p, EncodeMembers(ms))
    ensures p + |EncodeMembers(ms)| <= |s|
    ensures DecodeMembers(s, p, |ms|, limit, acc) == Ok(Obj(acc + ms), p + |EncodeMembers(ms)|)
    decreases ms, 1
  {
    hide DecodeVariant, Encode, EncodeMember, DecodeMember;
    if ms == [] {
      Occurring(s, p, []);
      assert acc + ms == acc;
    } else {
      OccursSplit(s, p, EncodeMember(ms[0]), EncodeMembers(ms[1..]));
      MemberReadBack(s, p, ms[0], limit);
      MembersReadBack(s, p + |EncodeMember(ms[0])|, ms[1..], limit, acc + [ms[0]]);
      assert acc + [ms[0]] + ms[1..] == acc + ms;
    }
  }

  lemma {:induction false} MemberReadBack(s: Bytes, p: nat, m: Member, limit: nat)
    requires EncodableMember(m) && limit > 0 && Nesting(m.val) < limit && OccursAt(s, p, EncodeMember(m))
    ensures p + |EncodeMember(m)| <= |s|
    ensures DecodeMember(s, p, limit) == Ok(m, p + |EncodeMember(m)|)
    decreases m, 0
  {
    hide DecodeVariant, Encode, EncodeString, DecodeKey;
    OccursSplit(s, p, EncodeString(m.key), Encode(m.val));
    KeyReadBack(s, p, m.key);
    ReadBack(s, p + |EncodeString(m.key)|, m.val, limit - 1);
    CStrOfNulFree(m.key);
  }

  /** Decoding an encoding followed by anything gives the value back and consumes exactly
      the encoding. */
  lemma RoundTrip(v: Value, limit: nat, rest: Bytes)
    requires Encodable(v) && Nesting(v) <= limit
    ensures Decode(Encode(v) + rest, limit) == Ok(v, |Encode(v)|)
  {
    var s := Encode(v) + rest;
    assert s[0..0 + |Encode(v)|] == Encode(v);
    ReadBack(s, 0, v, limit);
  }

  // ---- Depth ----

  /** A value that nests deeper than the limit is rejected, and only for that. */
  lemma {:induction false} ReadTooDeep(s: Bytes, p: nat, v: Value, limit: nat)
    requires Encodable(v) && Nesting(v) > limit && OccursAt(s, p, Encode(v))
    ensures p <= |s| && DecodeVariant(s, p, limit) == Err(TooDeep)
    decreases v, 0
  {
    hide DecodeToken, DecodeElems, DecodeMembers, CollectionHeader, StringHeader, OccursAt, ReadUnsigned;
    match v
    case Arr(es) =>
      var h := CollectionHeader(FIX_ARRAY, ARRAY_16, |es|);
      OccursSplit(s, p, h, EncodeElems(es));
      CountReadBack(s, p, FIX_ARRAY, ARRAY_16, |es|);
      if limit > 0 {
        ElemsTooDeep(s, p + |h|, es, limit, []);
      }
    case Obj(ms) =>
      var h := CollectionHeader(FIX_OBJECT, OBJECT_16, |ms|);
      OccursSplit(s, p, h, EncodeMembers(ms));
      CountReadBack(s, p, FIX_OBJECT, OBJECT_16, |ms|);
      if limit > 0 {
        MembersTooDeep(s, p + |h|, ms, limit, []);
      }
    case _ =>
  }

  lemma {:induction false} ElemsTooDeep(s: Bytes, p: nat, es: seq<Value>, limit: nat, acc: seq<Value>)
    requires forall i :: 0 <= i < |es| ==> Encodable(es[i])
    requires limit > 0 && NestingOfElems(es) >= limit && OccursAt(s, p, EncodeElems(es))
    ensures p <= |s| && DecodeElems(s, p, |es|, limit, acc) == Err(TooDeep)
    decreases es, 1
  {
    hide DecodeVariant, Encode;
    OccursSplit(s, p, Encode(es[0]), EncodeElems(es[1..]));
    if Nesting(es[0]) >= limit {
      ReadTooDeep(s, p, es[0], limit - 1);
    } else {
      ReadBack(s, p, es[0], limit - 1);
      ElemsTooDeep(s, p + |Encode(es[0])|, es[1..], limit, acc + [es[0]]);
    }
  }

  lemma {:induction false} MembersTooDeep(s: Bytes, p: nat, ms: seq<Member>, limit: nat, acc: seq<Member>)
    requires forall i :: 0 <= i < |ms| ==> EncodableMember(ms[i])
    requires limit > 0 && NestingOfMembers(ms) >= limit && OccursAt(s, p, EncodeMembers(ms))
    ensures p <= |s| && DecodeMembers(s, p, |ms|, limit, acc) == Err(TooDeep)
    decreases ms, 1
  {
    hide DecodeVariant, Encode, EncodeMember, DecodeMember, DecodeKey, EncodeString;
    OccursSplit(s, p, EncodeMember(ms[0]), EncodeMembers(ms[1..]));
    if Nesting(ms[0].val) >= limit {
      MemberTooDeep(s, p, ms[0], limit);
    } else {
      MemberReadBack(s, p, ms[0], limit);
      MembersTooDeep(s, p + |EncodeMember(ms[0])|, ms[1..], limit, acc + [ms[0]]);
    }
  }

  lemma {:induction false} MemberTooDeep(s: Bytes, p: nat, m: Member, limit: nat)
    requires EncodableMember(m) && limit > 0 && Nesting(m.val) >= limit && OccursAt(s, p, EncodeMember(m))
    ensures p <= |s| && DecodeMember(s, p, limit) == Err(TooDeep)
    decreases m, 0
  {
    hide DecodeVariant, Encode, EncodeString, DecodeKey;
    OccursSplit(s, p, EncodeString(m.key), Encode(m.val));
    KeyReadBack(s, p, m.key);
    ReadTooDeep(s, p + |EncodeString(m.key)|, m.val, limit - 1);
  }

  /** The depth limit is exact on encoded values. */
  lemma DepthLimitIsExact(v: Value, limit: nat, rest: Bytes)
    requires Encodable(v)
    ensures Decode(Encode(v) + rest, limit) == if Nesting(v) <= limit then Ok(v, |Encode(v)|) else Err(TooDeep)
  {
    if Nesting(v) <= limit {
      RoundTrip(v, limit, rest);
    } else {
      var s := Encode(v) + rest;
      assert s[0..0 + |Encode(v)|] == Encode(v);
      ReadTooDeep(s, 0, v, limit);
    }
  }

  /** So no two values have the same encoding, and none is the beginning of another. */
  lemma EncodingIsPrefixFree(v: Value, w: Value, rest: Bytes)
    requires Encodable(v) && Encodable(w) && Encode(v) + rest == Encode(w)
    ensures v == w && rest == []
  {
    var limit := Max(Nesting(v), Nesting(w));
    RoundTrip(v, limit, rest);
    RoundTrip(w, limit, []);
    assert Encode(w) + [] == Encode(w);
  }
}
