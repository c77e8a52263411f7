/** The MessagePack format, in the bytes of its specification: everything that the decoder
    takes, in any of its spellings, and what the encoder chooses of them. */
module MsgPackFormat {
  import opened Values
  import opened MsgPack

  // ---- The format ----

  datatype IntForm = FixInt | UInt(width: nat) | SInt(width: nat)

  /** One object and how it is spelled. A width is the number of bytes of a count or of an
      integer, zero when the first byte holds it. */
  datatype Packed =
    | PackedNil
    | PackedBool(b: bool)
    | PackedInt(form: IntForm, n: int)
    | PackedFloat(payload: Bytes)
    | PackedStr(width: nat, text: Bytes)
    | PackedBin(width: nat, bytes: Bytes)
    | PackedExt(width: nat, kind: Byte, bytes: Bytes)
    | PackedArr(width: nat, items: seq<Packed>)
    | PackedMap(width: nat, entries: seq<Entry>)

  /** A key, with the width of its count, and a value. */
  datatype Entry = Entry(width: nat, key: Bytes, val: Packed)

  /** The numbers of `width` bytes lie below this. */
  function Bound(width: nat): nat {
    if width == 1 then 0x100
    else if width == 2 then 0x1_0000
    else if width == 4 then 0x1_0000_0000
    else 0x1_0000_0000_0000_0000
  }

  predicate IsWidth(width: nat) { width == 1 || width == 2 || width == 4 || width == 8 }

  function TwoBytes(n: nat): Bytes
    requires n < 0x1_0000
  {
    [n / 0x100, n % 0x100]
  }

  function FourBytes(n: nat): Bytes
    requires n < 0x1_0000_0000
  {
    TwoBytes(n / 0x1_0000) + TwoBytes(n % 0x1_0000)
  }

  function EightBytes(n: nat): Bytes
    requires n < 0x1_0000_0000_0000_0000
  {
    FourBytes(n / 0x1_0000_0000) + FourBytes(n % 0x1_0000_0000)
  }

  /** A number in bytes, the highest first. */
  function Number(n: nat, width: nat): (t: Bytes)
    requires IsWidth(width) && n < Bound(width)
    ensures |t| == width
  {
    if width == 1 then [n]
    else if width == 2 then TwoBytes(n)
    else if width == 4 then FourBytes(n)
    else EightBytes(n)
  }

  /** A text of `n` bytes can have that header. */
  predicate IsTextWidth(width: nat, n: nat) {
    if width == 0 then n < 32 else (width == 1 || width == 2 || width == 4) && n < Bound(width)
  }

  predicate IsBinWidth(width: nat, n: nat) { (width == 1 || width == 2 || width == 4) && n < Bound(width) }

  /** A collection of `n` things can have that header. */
  predicate IsCountWidth(width: nat, n: nat) {
    if width == 0 then n < 16 else (width == 2 || width == 4) && n < Bound(width)
  }

  predicate IsPacked(x: Packed) {
    match x
    case PackedInt(FixInt, n) => -32 <= n <= 127
    case PackedInt(UInt(width), n) => IsWidth(width) && 0 <= n < Bound(width)
    case PackedInt(SInt(width), n) => IsWidth(width) && 0 - Bound(width) <= 2 * n < Bound(width)
    case PackedFloat(payload) => |payload| == 4 || |payload| == 8
    case PackedStr(width, text) => IsTextWidth(width, |text|)
    case PackedBin(width, bytes) => IsBinWidth(width, |bytes|)
    case PackedExt(width, _, bytes) =>
      if width == 0 then |bytes| == 1 || |bytes| == 2 || |bytes| == 4 || |bytes| == 8 || |bytes| == 16
      else IsBinWidth(width, |bytes|) && |bytes| < 0xFFFF_FFFF
    case PackedArr(width, items) =>
      IsCountWidth(width, |items|) && forall i :: 0 <= i < |items| ==> IsPacked(items[i])
    case PackedMap(width, entries) =>
      IsCountWidth(width, |entries|) && forall i :: 0 <= i < |entries| ==> IsEntry(entries[i])
    case _ => true
  }

  predicate IsEntry(e: Entry) { IsTextWidth(e.width, |e.key|) && IsPacked(e.val) }

  function TextHeader(width: nat, n: nat): (h: Bytes)
    requires IsTextWidth(width, n)
    ensures h != []
  {
    if width == 0 then [0xA0 + n]
    else if width == 1 then [0xD9] + Number(n, 1)
    else if width == 2 then [0xDA] + Number(n, 2)
    else [0xDB] + Number(n, 4)
  }

  function CountHeader(width: nat, n: nat, map_: bool): (h: Bytes)
    requires IsCountWidth(width, n)
    ensures h != []
  {
    if width == 0 then [(if map_ then 0x80 else 0x90) + n]
    else if width == 2 then [if map_ then 0xDE else 0xDC] + Number(n, 2)
    else [if map_ then 0xDF else 0xDD] + Number(n, 4)
  }

  /** The bytes of an object. */
  function Spelled(x: Packed): (t: Bytes)
    requires IsPacked(x)
    ensures t != []
    decreases x, 0
  {
    match x
    case PackedNil => [0xC0]
    case PackedBool(b) => if b then [0xC3] else [0xC2]
    case PackedInt(FixInt, n) => if n >= 0 then [n] else [n + 0x100]
    case PackedInt(UInt(width), n) =>
      [if width == 1 then 0xCC else if width == 2 then 0xCD else if width == 4 then 0xCE else 0xCF] + Number(n, width)
    case PackedInt(SInt(width), n) =>
      [if width == 1 then 0xD0 else if width == 2 then 0xD1 else if width == 4 then 0xD2 else 0xD3]
        + Number(if n < 0 then n + Bound(width) else n, width)
    case PackedFloat(payload) => [if |payload| == 4 then 0xCA else 0xCB] + payload
    case PackedStr(width, text) => TextHeader(width, |text|) + text
    case PackedBin(width, bytes) =>
      [if width == 1 then 0xC4 else if width == 2 then 0xC5 else 0xC6] + Number(|bytes|, width) + bytes
    case PackedExt(width, kind, bytes) =>
      (if width == 0 then
         [if |bytes| == 1 then 0xD4 else if |bytes| == 2 then 0xD5 else if |bytes| == 4 then 0xD6
          else if |bytes| == 8 then 0xD7 else 0xD8]
       else [if width == 1 then 0xC7 else if width == 2 then 0xC8 else 0xC9] + Number(|bytes|, width))
        + [kind] + bytes
    case PackedArr(width, items) => CountHeader(width, |items|, false) + SpelledAll(items)
    case PackedMap(width, entries) => CountHeader(width, |entries|, true) + SpelledEntries(entries)
  }

  function SpelledAll(items: seq<Packed>): Bytes
    requires forall i :: 0 <= i < |items| ==> IsPacked(items[i])
    decreases items, 1
  {
    if items == [] then [] else Spelled(items[0]) + SpelledAll(items[1..])
  }

  function SpelledEntry(e: Entry): Bytes
    requires IsEntry(e)
    decreases e, 1
  {
    TextHeader(e.width, |e.key|) + e.key + Spelled(e.val)
  }

  function SpelledEntries(entries: seq<Entry>): Bytes
    requires forall i :: 0 <= i < |entries| ==> IsEntry(entries[i])
    decreases entries, 2
  {
    if entries == [] then [] else SpelledEntry(entries[0]) + SpelledEntries(entries[1..])
  }

  /** The value of an object; binary data and extensions are not supported and read as null. */
  function Meaning(x: Packed): Value {
    match x
    case PackedNil => Null
    case PackedBool(b) => Bool(b)
    case PackedInt(_, n) => Int(n)
    case PackedFloat(payload) => Float(Binary(payload))
    case PackedStr(_, text) => Str(text)
    case PackedBin(_, _) => Null
    case PackedExt(_, _, _) => Null
    case PackedArr(_, items) => Arr(Meanings(items))
    case PackedMap(_, entries) => Obj(EntryMeanings(entries))
  }

  function Meanings(items: seq<Packed>): (vs: seq<Value>)
    ensures |vs| == |items|
  {
    if items == [] then [] else [Meaning(items[0])] + Meanings(items[1..])
  }

  function EntryMeanings(entries: seq<Entry>): (ms: seq<Member>)
    ensures |ms| == |entries|
  {
    if entries == [] then [] else [Member(entries[0].key, Meaning(entries[0].val))] + EntryMeanings(entries[1..])
  }

  // ---- Numbers are read back ----

  lemma {:induction false} BothParts(a: Bytes, b: Bytes)
    ensures FromBigEndian(a + b) == FromBigEndian(a) * Pow256(|b|) + FromBigEndian(b)
    decreases |b|
  {
    if b == [] {
      assert a + b == a;
    } else {
      var n := |b| - 1;
      BothParts(a, b[..n]);
      assert (a + b)[..|a + b| - 1] == a + b[..n];
      Shift(FromBigEndian(a), Pow256(n), FromBigEndian(b[..n]));
    }
  }

  lemma Shift(x: nat, p: nat, y: nat)
    ensures (x * p + y) * 256 == x * (256 * p) + y * 256
  {
  }

  lemma TwoBytesRead(n: nat)
    requires n < 0x1_0000
    ensures FromBigEndian(TwoBytes(n)) == n
  {
    var t := TwoBytes(n);
    assert t[..1] == [n / 0x100];
    OneByteRead(n / 0x100);
  }

  lemma FourBytesRead(n: nat)
    requires n < 0x1_0000_0000
    ensures FromBigEndian(FourBytes(n)) == n
  {
    TwoBytesRead(n / 0x1_0000);
    TwoBytesRead(n % 0x1_0000);
    BothParts(TwoBytes(n / 0x1_0000), TwoBytes(n % 0x1_0000));
    Powers();
  }

  lemma NumberRead(n: nat, width: nat)
    requires IsWidth(width) && n < Bound(width)
    ensures FromBigEndian(Number(n, width)) == n
  {
    hide FromBigEndian, Pow256, TwoBytes, FourBytes;
    if width == 1 {
      OneByteRead(n);
    } else if width == 2 {
      TwoBytesRead(n);
    } else if width == 4 {
      FourBytesRead(n);
    } else {
      var a, b := n / 0x1_0000_0000, n % 0x1_0000_0000;
      FourBytesRead(a);
      FourBytesRead(b);
      BothParts(FourBytes(a), FourBytes(b));
      FourLong(b);
      Powers();
    }
  }

  lemma OneByteRead(n: Byte)
    ensures FromBigEndian([n]) == n
  {
    assert [n][..0] == [];
  }

  lemma FourLong(n: nat)
    requires n < 0x1_0000_0000
    ensures |FourBytes(n)| == 4
  {
  }

  lemma NumberStands(s: Bytes, p: nat, n: nat, width: nat)
    requires IsWidth(width) && n < Bound(width) && OccursAt(s, p, Number(n, width))
    ensures p + width <= |s| && ReadUnsigned(s, p, width) == Ok(n, p + width)
  {
    hide Number, FromBigEndian;
    NumberRead(n, width);
  }

  /** A first byte and what follows it. */
  lemma FirstByte(s: Bytes, p: nat, c: Byte, rest: Bytes)
    requires OccursAt(s, p, [c] + rest)
    ensures p < |s| && s[p] == c && OccursAt(s, p + 1, rest) && p + 1 + |rest| <= |s|
  {
    hide OccursAt;
    OccursSplit(s, p, [c], rest);
    OccursFirst(s, p, [c]);
    Occurring(s, p + 1, rest);
  }

  // ---- Every object that does not nest ----

  predicate IsToken(x: Packed) { !x.PackedArr? && !x.PackedMap? }

  /** A first byte that announces no array and no map. */
  predicate IsTokenCode(c: Byte) { c < 0x80 || (0xA0 <= c < 0xDC) || c >= 0xE0 }

  lemma TokenDecodes(s: Bytes, p: nat, x: Packed)
    requires IsPacked(x) && IsToken(x) && OccursAt(s, p, Spelled(x))
    ensures p < |s| && IsTokenCode(s[p]) && DecodeToken(s, p) == Ok(Meaning(x), p + |Spelled(x)|)
  {
    hide DecodeToken, OccursAt;
    match x
    case PackedNil => SimpleDecodes(s, p, x);
    case PackedBool(_) => SimpleDecodes(s, p, x);
    case PackedInt(_, _) => IntDecodes(s, p, x);
    case PackedFloat(_) => FloatDecodes(s, p, x);
    case PackedStr(width, text) => TextDecodes(s, p, width, text);
    case PackedBin(_, _) => BinDecodes(s, p, x);
    case PackedExt(_, _, _) => ExtDecodes(s, p, x);
  }

  lemma SimpleDecodes(s: Bytes, p: nat, x: Packed)
    requires x.PackedNil? || x.PackedBool?
    requires OccursAt(s, p, Spelled(x))
    ensures p < |s| && IsTokenCode(s[p]) && DecodeToken(s, p) == Ok(Meaning(x), p + |Spelled(x)|)
  {
  }

  lemma IntDecodes(s: Bytes, p: nat, x: Packed)
    requires x.PackedInt? && IsPacked(x) && OccursAt(s, p, Spelled(x))
    ensures p < |s| && IsTokenCode(s[p]) && DecodeToken(s, p) == Ok(Meaning(x), p + |Spelled(x)|)
  {
    hide OccursAt, Number, ReadUnsigned, Pow256;
    Powers();
    match x.form
    case FixInt => FirstByteOnly(s, p, Spelled(x));
    case UInt(width) =>
      FirstByte(s, p, Spelled(x)[0], Number(x.n, width));
      NumberStands(s, p + 1, x.n, width);
    case SInt(width) =>
      var m := if x.n < 0 then x.n + Bound(width) else x.n;
      FirstByte(s, p, Spelled(x)[0], Number(m, width));
      NumberStands(s, p + 1, m, width);
  }

  lemma FirstByteOnly(s: Bytes, p: nat, t: Bytes)
    requires |t| == 1 && OccursAt(s, p, t)
    ensures p < |s| && s[p] == t[0]
  {
  }

  lemma FloatDecodes(s: Bytes, p: nat, x: Packed)
    requires x.PackedFloat? && IsPacked(x) && OccursAt(s, p, Spelled(x))
    ensures p < |s| && IsTokenCode(s[p]) && DecodeToken(s, p) == Ok(Meaning(x), p + |Spelled(x)|)
  {
    hide OccursAt;
    FirstByte(s, p, Spelled(x)[0], x.payload);
    Occurring(s, p + 1, x.payload);
  }

  lemma TextDecodes(s: Bytes, p: nat, width: nat, text: Bytes)
    requires IsTextWidth(width, |text|) && OccursAt(s, p, TextHeader(width, |text|) + text)
    ensures p < |s| && IsTokenCode(s[p])
    ensures var end := p + |TextHeader(width, |text|)| + |text|;
      DecodeToken(s, p) == Ok(Str(text), end) && DecodeKey(s, p) == Ok(text, end)
  {
    hide OccursAt, Number, ReadUnsigned;
    var h := TextHeader(width, |text|);
    OccursSplit(s, p, h, text);
    Occurring(s, p + |h|, text);
    if width == 0 {
      FirstByteOnly(s, p, h);
    } else {
      FirstByte(s, p, h[0], Number(|text|, width));
      NumberStands(s, p + 1, |text|, width);
    }
  }

  lemma BinDecodes(s: Bytes, p: nat, x: Packed)
    requires x.PackedBin? && IsPacked(x) && OccursAt(s, p, Spelled(x))
    ensures p < |s| && IsTokenCode(s[p]) && DecodeToken(s, p) == Ok(Meaning(x), p + |Spelled(x)|)
  {
    hide OccursAt, Number, ReadUnsigned;
    var h := [Spelled(x)[0]] + Number(|x.bytes|, x.width);
    OccursSplit(s, p, h, x.bytes);
    FirstByte(s, p, h[0], Number(|x.bytes|, x.width));
    NumberStands(s, p + 1, |x.bytes|, x.width);
  }

  lemma ExtDecodes(s: Bytes, p: nat, x: Packed)
    requires x.PackedExt? && IsPacked(x) && OccursAt(s, p, Spelled(x))
    ensures p < |s| && IsTokenCode(s[p]) && DecodeToken(s, p) == Ok(Meaning(x), p + |Spelled(x)|)
  {
    hide OccursAt, Number, ReadUnsigned;
    var t, n := Spelled(x), |x.bytes|;
    if x.width == 0 {
      assert t == [t[0]] + ([x.kind] + x.bytes);
      FirstByte(s, p, t[0], [x.kind] + x.bytes);
    } else {
      assert t == [t[0]] + (Number(n, x.width) + ([x.kind] + x.bytes));
      FirstByte(s, p, t[0], Number(n, x.width) + ([x.kind] + x.bytes));
      OccursSplit(s, p + 1, Number(n, x.width), [x.kind] + x.bytes);
      NumberStands(s, p + 1, n, x.width);
    }
  }

  // ---- Every object ----

  /** What decoding gives: the value, or TooDeep when it nests deeper than the limit. */
  ghost predicate Decoded<T>(r: Result<T>, val: T, end: nat, depth: nat, limit: nat) {
    r == if depth <= limit then Ok(val, end) else Err(TooDeep)
  }

  /** Wherever any spelling of an object stands, it is decoded to its value, and decoding stops
      right after it. */
  lemma {:induction false} FormatStands(s: Bytes, p: nat, x: Packed, limit: nat)
    requires IsPacked(x) && OccursAt(s, p, Spelled(x))
    ensures p + |Spelled(x)| <= |s|
    ensures Decoded(DecodeVariant(s, p, limit), CutKeys(Meaning(x)), p + |Spelled(x)|, Nesting(Meaning(x)), limit)
    decreases x, 0
  {
    hide DecodeToken, DecodeElems, DecodeMembers, CountHeader, OccursAt, SpelledAll, SpelledEntries, Meanings;
    hide EntryMeanings, CutElems, CutMembers, NestingOfElems, NestingOfMembers, ReadUnsigned;
    Occurring(s, p, Spelled(x));
    match x
    case PackedArr(width, items) =>
      var h := CountHeader(width, |items|, false);
      OccursSplit(s, p, h, SpelledAll(items));
      HeaderStands(s, p, width, |items|, false);
      if limit > 0 {
        ItemsStand(s, p + |h|, items, limit, []);
        assert [] + CutElems(Meanings(items)) == CutElems(Meanings(items));
      }
    case PackedMap(width, entries) =>
      var h := CountHeader(width, |entries|, true);
      OccursSplit(s, p, h, SpelledEntries(entries));
      HeaderStands(s, p, width, |entries|, true);
      if limit > 0 {
        EntriesStand(s, p + |h|, entries, limit, []);
        assert [] + CutMembers(EntryMeanings(entries)) == CutMembers(EntryMeanings(entries));
      }
    case _ =>
      TokenDecodes(s, p, x);
      TokenStands(s, p, x, limit);
  }

  lemma TokenStands(s: Bytes, p: nat, x: Packed, limit: nat)
    requires IsToken(x) && p < |s| && IsTokenCode(s[p])
    ensures DecodeVariant(s, p, limit) == DecodeToken(s, p)
    ensures CutKeys(Meaning(x)) == Meaning(x) && Nesting(Meaning(x)) == 0
  {
    hide DecodeToken;
  }

  /** A count is read, and the loop over what it counts begins. */
  lemma HeaderStands(s: Bytes, p: nat, width: nat, n: nat, map_: bool)
    requires IsCountWidth(width, n) && OccursAt(s, p, CountHeader(width, n, map_))
    ensures var q := p + |CountHeader(width, n, map_)|;
      && p < q <= |s|
      && (forall limit: nat :: limit == 0 ==> DecodeVariant(s, p, limit) == Err(TooDeep))
      && (forall limit: nat :: limit > 0 ==>
           DecodeVariant(s, p, limit) ==
             if map_ then DecodeMembers(s, q, n, limit, []) else DecodeElems(s, q, n, limit, []))
  {
    hide OccursAt, Number, ReadUnsigned, DecodeMembers, DecodeElems, DecodeToken;
    var h := CountHeader(width, n, map_);
    Occurring(s, p, h);
    if width == 0 {
      FirstByteOnly(s, p, h);
    } else {
      FirstByte(s, p, h[0], Number(n, width));
      NumberStands(s, p + 1, n, width);
    }
  }

  lemma {:induction false} ItemsStand(s: Bytes, p: nat, items: seq<Packed>, limit: nat, acc: seq<Value>)
    requires forall i :: 0 <= i < |items| ==> IsPacked(items[i])
    requires limit > 0 && OccursAt(s, p, SpelledAll(items))
    ensures p + |SpelledAll(items)| <= |s|
    ensures Decoded(DecodeElems(s, p, |items|, limit, acc), Arr(acc + CutElems(Meanings(items))),
                    p + |SpelledAll(items)|, 1 + NestingOfElems(Meanings(items)), limit)
    decreases items, 1
  {
    hide DecodeVariant, DecodeElems, Spelled, SpelledAll, OccursAt, CutElems, Meanings, NestingOfElems, IsPacked;
    Occurring(s, p, SpelledAll(items));
    ElemsStep(s, p, |items|, limit, acc);
    if items == [] {
      NoItems();
      assert acc + [] == acc;
    } else {
      var v := CutKeys(Meaning(items[0]));
      FirstItem(items);
      OccursSplit(s, p, Spelled(items[0]), SpelledAll(items[1..]));
      FormatStands(s, p, items[0], limit - 1);
      ItemsStand(s, p + |Spelled(items[0])|, items[1..], limit, acc + [v]);
      assert acc + [v] + CutElems(Meanings(items[1..])) == acc + CutElems(Meanings(items));
    }
  }

  lemma NoItems()
    ensures SpelledAll([]) == [] && CutElems(Meanings([])) == [] && NestingOfElems(Meanings([])) == 0
  {
  }

  lemma FirstItem(items: seq<Packed>)
    requires items != [] && forall i :: 0 <= i < |items| ==> IsPacked(items[i])
    ensures SpelledAll(items) == Spelled(items[0]) + SpelledAll(items[1..])
    ensures CutElems(Meanings(items)) == [CutKeys(Meaning(items[0]))] + CutElems(Meanings(items[1..]))
    ensures NestingOfElems(Meanings(items)) == Max(Nesting(Meaning(items[0])), NestingOfElems(Meanings(items[1..])))
  {
    hide Spelled, CutKeys, Meaning, Nesting, IsPacked;
    assert Meanings(items)[0] == Meaning(items[0]) && Meanings(items)[1..] == Meanings(items[1..]);
  }

  lemma ElemsStep(s: Bytes, p: nat, n: nat, limit: nat, acc: seq<Value>)
    requires p <= |s| && limit > 0
    ensures n == 0 ==> DecodeElems(s, p, n, limit, acc) == Ok(Arr(acc), p)
    ensures n > 0 ==> var r := DecodeVariant(s, p, limit - 1);
      DecodeElems(s, p, n, limit, acc) ==
        if r.Err? then Err(r.error) else DecodeElems(s, r.pos, n - 1, limit, acc + [r.val])
  {
    hide DecodeVariant;
  }

  lemma {:induction false} EntriesStand(s: Bytes, p: nat, entries: seq<Entry>, limit: nat, acc: seq<Member>)
    requires forall i :: 0 <= i < |entries| ==> IsEntry(entries[i])
    requires limit > 0 && OccursAt(s, p, SpelledEntries(entries))
    ensures p + |SpelledEntries(entries)| <= |s|
    ensures Decoded(DecodeMembers(s, p, |entries|, limit, acc), Obj(acc + CutMembers(EntryMeanings(entries))),
                    p + |SpelledEntries(entries)|, 1 + NestingOfMembers(EntryMeanings(entries)), limit)
    decreases entries, 1
  {
    hide DecodeMember, SpelledEntry, OccursAt, CutKeys, Meaning, Nesting, IsEntry, CStr;
    Occurring(s, p, SpelledEntries(entries));
    if entries == [] {
      assert acc + CutMembers(EntryMeanings(entries)) == acc;
    } else {
      var e := entries[0];
      var m := Member(CStr(e.key), CutKeys(Meaning(e.val)));
      OccursSplit(s, p, SpelledEntry(e), SpelledEntries(entries[1..]));
      EntryStands(s, p, e, limit);
      EntriesStand(s, p + |SpelledEntry(e)|, entries[1..], limit, acc + [m]);
      var ms := EntryMeanings(entries);
      assert ms[0] == Member(e.key, Meaning(e.val)) && ms[1..] == EntryMeanings(entries[1..]);
      assert acc + [m] + CutMembers(ms[1..]) == acc + CutMembers(ms);
    }
  }

  lemma {:induction false} EntryStands(s: Bytes, p: nat, e: Entry, limit: nat)
    requires IsEntry(e) && limit > 0 && OccursAt(s, p, SpelledEntry(e))
    ensures p + |SpelledEntry(e)| <= |s|
    ensures Decoded(DecodeMember(s, p, limit), Member(CStr(e.key), CutKeys(Meaning(e.val))), p + |SpelledEntry(e)|,
                    1 + Nesting(Meaning(e.val)), limit)
    decreases e, 0
  {
    hide DecodeVariant, Spelled, OccursAt, CutKeys, Meaning, Nesting, DecodeKey, TextHeader, IsPacked, CStr;
    Occurring(s, p, SpelledEntry(e));
    var text := TextHeader(e.width, |e.key|) + e.key;
    OccursSplit(s, p, text, Spelled(e.val));
    TextDecodes(s, p, e.width, e.key);
    FormatStands(s, p + |text|, e.val, limit - 1);
  }

  /** Any spelling of any object, followed by anything: its value, keys cut at a NUL, unless it
      nests too deeply, and the position right after it. */
  lemma FormatDecodes(x: Packed, limit: nat, rest: Bytes)
    requires IsPacked(x)
    ensures Decode(Spelled(x) + rest, limit) ==
      if Nesting(Meaning(x)) <= limit then Ok(CutKeys(Meaning(x)), |Spelled(x)|) else Err(TooDeep)
    ensures CutKeys(Meaning(x)) == Meaning(x) <==> PlainKeys(Meaning(x))
  {
    hide Spelled, DecodeVariant, Meaning, Nesting, CutKeys, PlainKeys, IsPacked;
    var s := Spelled(x) + rest;
    assert s[0..0 + |Spelled(x)|] == Spelled(x);
    FormatStands(s, 0, x, limit);
    CutChangesNothing(Meaning(x));
  }

  /** The longest extension is not skipped: its length and the type byte are added in 32 bits. */
  lemma LongestExtension(rest: Bytes, limit: nat)
    ensures Decode([0xC9, 0xFF, 0xFF, 0xFF, 0xFF] + rest, limit) == Ok(Null, 5)
  {
    var s: Bytes := [0xC9, 0xFF, 0xFF, 0xFF, 0xFF] + rest;
    assert s[1..5] == Number(0xFFFF_FFFF, 4);
    NumberStands(s, 1, 0xFFFF_FFFF, 4);
  }

  /** The one code that the format leaves unused, and keys that are no strings. */
  lemma RejectedCodes(rest: Bytes, limit: nat, c: Byte)
    ensures Decode([0xC1] + rest, limit) == Err(InvalidInput)
    ensures c < 0xA0 || (0xC0 <= c < 0xD9) || c > 0xDB ==> Decode([0x81, c] + rest, limit + 1) == Err(InvalidInput)
  {
    hide DecodeToken;
    assert DecodeToken([0xC1] + rest, 0) == Err(InvalidInput) by { UnusedCode(rest); }
    assert ([0xC1] + rest)[0] == 0xC1;
    var s := [0x81, c] + rest;
    assert s[0] == 0x81 && s[1] == c;
    assert c < 0xA0 || (0xC0 <= c < 0xD9) || c > 0xDB ==> DecodeKey(s, 1) == Err(InvalidInput);
    assert ReadCount(s, 0, FIX_ARRAY, ARRAY_16) == None && ReadCount(s, 0, FIX_OBJECT, OBJECT_16) == Some(Ok(1, 1));
    assert DecodeKey(s, 1).Err? ==> DecodeMember(s, 1, limit + 1) == Err(DecodeKey(s, 1).error);
    assert DecodeKey(s, 1).Err? ==> DecodeMembers(s, 1, 1, limit + 1, []) == Err(DecodeKey(s, 1).error);
  }

  lemma UnusedCode(rest: Bytes)
    ensures DecodeToken([0xC1] + rest, 0) == Err(InvalidInput)
  {
  }

  // ---- What the encoder chooses ----

  lemma {:induction false} BigEndianOfRead(t: Bytes)
    ensures BigEndian(FromBigEndian(t), |t|) == t
    decreases |t|
  {
    if t != [] {
      var n := |t| - 1;
      BigEndianOfRead(t[..n]);
      assert t == t[..n] + [t[n]];
    }
  }

  lemma NumberIsBigEndian(n: nat, width: nat)
    requires IsWidth(width) && n < Bound(width)
    ensures BigEndian(n, width) == Number(n, width)
  {
    NumberRead(n, width);
    BigEndianOfRead(Number(n, width));
  }

  /** The narrowest headers. */
  function TextWidth(n: nat): nat { if n < 32 then 0 else if n < 0x100 then 1 else if n < 0x1_0000 then 2 else 4 }

  function CountWidth(n: nat): nat { if n < 16 then 0 else if n < 0x1_0000 then 2 else 4 }

  lemma TextIsFormat(n: nat)
    requires n < 0x1_0000_0000
    ensures IsTextWidth(TextWidth(n), n) && TextHeader(TextWidth(n), n) == StringHeader(n)
  {
    hide Number, BigEndian;
    if n >= 32 {
      NumberIsBigEndian(n, TextWidth(n));
    }
  }

  lemma CountIsFormat(n: nat)
    requires n < 0x1_0000_0000
    ensures IsCountWidth(CountWidth(n), n)
    ensures CountHeader(CountWidth(n), n, false) == CollectionHeader(FIX_ARRAY, ARRAY_16, n)
    ensures CountHeader(CountWidth(n), n, true) == CollectionHeader(FIX_OBJECT, OBJECT_16, n)
  {
    hide Number, BigEndian;
    if n >= 16 {
      NumberIsBigEndian(n, CountWidth(n));
    }
  }

  /** The narrowest form of an integer; unsigned ones are preferred. */
  function NarrowestForm(n: int): IntForm {
    if -32 <= n <= 127 then FixInt
    else if n > 0 then UInt(if n <= 0xFF then 1 else if n <= 0xFFFF then 2 else if n <= 0xFFFF_FFFF then 4 else 8)
    else SInt(if n >= -0x80 then 1 else if n >= -0x8000 then 2 else if n >= -0x8000_0000 then 4 else 8)
  }

  lemma IntIsFormat(n: int)
    requires Is64Bit(n)
    ensures var x := PackedInt(NarrowestForm(n), n); IsPacked(x) && Spelled(x) == EncodeInt(n)
  {
    hide Number, BigEndian, Pow256;
    Powers();
    match NarrowestForm(n)
    case FixInt =>
    case UInt(width) => NumberIsBigEndian(n, width);
    case SInt(width) => NumberIsBigEndian(n + Bound(width), width);
  }

  /** What the encoder writes is a spelling of the value. */
  lemma {:induction false} EncodingIsFormat(v: Value) returns (x: Packed)
    requires Encodable(v)
    ensures IsPacked(x) && Meaning(x) == v && Spelled(x) == Encode(v)
    decreases v, 0
  {
    hide EncodeElems, EncodeMembers, EncodeInt, StringHeader, CollectionHeader, TextHeader, CountHeader;
    hide NarrowestForm, TextWidth, CountWidth, IsTextWidth, IsCountWidth;
    match v
    case Null => x := PackedNil;
    case Bool(b) => x := PackedBool(b);
    case Int(n) =>
      IntIsFormat(n);
      x := PackedInt(NarrowestForm(n), n);
    case Str(t) =>
      TextIsFormat(|t|);
      x := PackedStr(TextWidth(|t|), t);
    case Arr(es) =>
      CountIsFormat(|es|);
      var items := ElemsAreFormat(es);
      x := PackedArr(CountWidth(|es|), items);
    case Obj(ms) =>
      CountIsFormat(|ms|);
      var entries := MembersAreFormat(ms);
      x := PackedMap(CountWidth(|ms|), entries);
  }

  lemma {:induction false} ElemsAreFormat(es: seq<Value>) returns (items: seq<Packed>)
    requires forall i :: 0 <= i < |es| ==> Encodable(es[i])
    ensures |items| == |es| && (forall i :: 0 <= i < |items| ==> IsPacked(items[i]))
    ensures Meanings(items) == es && SpelledAll(items) == EncodeElems(es)
    decreases es, 1
  {
    hide IsPacked, Encode, Spelled, Meaning;
    if es == [] {
      items := [];
    } else {
      var first := EncodingIsFormat(es[0]);
      var rest := ElemsAreFormat(es[1..]);
      items := [first] + rest;
      assert items[1..] == rest && es == [es[0]] + es[1..];
    }
  }

  lemma {:induction false} MembersAreFormat(ms: seq<Member>) returns (entries: seq<Entry>)
    requires forall i :: 0 <= i < |ms| ==> EncodableMember(ms[i])
    ensures |entries| == |ms| && (forall i :: 0 <= i < |entries| ==> IsEntry(entries[i]))
    ensures EntryMeanings(entries) == ms && SpelledEntries(entries) == EncodeMembers(ms)
    decreases ms, 1
  {
    hide IsPacked, Encode, Spelled, Meaning, TextHeader, StringHeader, IsTextWidth, TextWidth;
    if ms == [] {
      entries := [];
    } else {
      var m := ms[0];
      var val := EncodingIsFormat(m.val);
      TextIsFormat(|m.key|);
      var rest := MembersAreFormat(ms[1..]);
      var first := Entry(TextWidth(|m.key|), m.key, val);
      entries := [first] + rest;
      assert entries[1..] == rest && ms == [ms[0]] + ms[1..];
      assert SpelledEntry(first) == EncodeMember(m);
    }
  }

  /** And no spelling of the value is shorter. */
  lemma {:induction false} EncodingIsShortest(v: Value, x: Packed)
    requires Encodable(v) && IsPacked(x) && Meaning(x) == v
    ensures |Encode(v)| <= |Spelled(x)|
    decreases v, 0
  {
    hide EncodeElems, EncodeMembers, SpelledAll, SpelledEntries, Number, BigEndian;
    match v
    case Arr(es) => ElemsAreShortest(es, x.items);
    case Obj(ms) => MembersAreShortest(ms, x.entries);
    case _ =>
  }

  lemma {:induction false} ElemsAreShortest(es: seq<Value>, items: seq<Packed>)
    requires forall i :: 0 <= i < |es| ==> Encodable(es[i])
    requires (forall i :: 0 <= i < |items| ==> IsPacked(items[i])) && Meanings(items) == es
    ensures |EncodeElems(es)| <= |SpelledAll(items)|
    decreases es, 1
  {
    hide IsPacked, Encode, Spelled, Encodable;
    if es != [] {
      EncodingIsShortest(es[0], items[0]);
      assert es[1..] == Meanings(items[1..]);
      ElemsAreShortest(es[1..], items[1..]);
    }
  }

  lemma {:induction false} MembersAreShortest(ms: seq<Member>, entries: seq<Entry>)
    requires forall i :: 0 <= i < |ms| ==> EncodableMember(ms[i])
    requires (forall i :: 0 <= i < |entries| ==> IsEntry(entries[i])) && EntryMeanings(entries) == ms
    ensures |EncodeMembers(ms)| <= |SpelledEntries(entries)|
    decreases ms, 1
  {
    hide IsPacked, Encode, Spelled, Encodable;
    if ms != [] {
      EncodingIsShortest(ms[0].val, entries[0].val);
      assert ms[1..] == EntryMeanings(entries[1..]);
      MembersAreShortest(ms[1..], entries[1..]);
      assert |TextHeader(entries[0].width, |entries[0].key|)| >= |StringHeader(|ms[0].key|)|;
    }
  }

  // ---- Input that ends too early ----

  /** Cut anywhere, an input that decodes is incomplete. */
  lemma {:induction false} CutVariant(s: Bytes, p: nat, limit: nat, k: nat)
    requires p <= k <= |s| && DecodeVariant(s, p, limit).Ok? && k < DecodeVariant(s, p, limit).pos
    ensures DecodeVariant(s[..k], p, limit) == Err(IncompleteInput)
    decreases |s| - p, 0
  {
    hide DecodeToken, DecodeElems, DecodeMembers, ReadCount;
    if p < k {
      CutCount(s, p, FIX_ARRAY, ARRAY_16, k);
      var a, o := ReadCount(s, p, FIX_ARRAY, ARRAY_16), ReadCount(s, p, FIX_OBJECT, OBJECT_16);
      if a.Some? {
        if a.value.pos <= k {
          CutElemsOf(s, a.value.pos, a.value.val, limit, [], k);
        }
      } else {
        CutCount(s, p, FIX_OBJECT, OBJECT_16, k);
        if o.None? {
          CutToken(s, p, k);
        } else if o.value.pos <= k {
          CutMembersOf(s, o.value.pos, o.value.val, limit, [], k);
        }
      }
    }
  }

  lemma CutUnsigned(s: Bytes, p: nat, width: nat, k: nat)
    requires p <= k <= |s| && ReadUnsigned(s, p, width).Ok?
    ensures ReadUnsigned(s[..k], p, width) == if p + width <= k then ReadUnsigned(s, p, width) else Err(IncompleteInput)
  {
    if p + width <= k {
      assert s[..k][p..p + width] == s[p..p + width];
    }
  }

  lemma CutCount(s: Bytes, p: nat, fix: Byte, wide: Byte, k: nat)
    requires p < k <= |s| && fix <= 0xF0 && wide < 0xFF
    requires var r := ReadCount(s, p, fix, wide); r.Some? ==> r.value.Ok?
    ensures ReadCount(s[..k], p, fix, wide) ==
      var r := ReadCount(s, p, fix, wide);
      if r.None? then None else if r.value.pos <= k then r else Some(Err(IncompleteInput))
  {
    hide ReadUnsigned;
    if s[p] == wide && !(fix <= s[p] < fix + 0x10) {
      CutUnsigned(s, p + 1, 2, k);
    } else if s[p] == wide + 1 && !(fix <= s[p] < fix + 0x10) {
      CutUnsigned(s, p + 1, 4, k);
    }
  }

  lemma CutString(s: Bytes, p: nat, n: nat, k: nat)
    requires p <= k <= |s| && ReadString(s, p, n).Ok?
    ensures ReadString(s[..k], p, n) == if p + n <= k then ReadString(s, p, n) else Err(IncompleteInput)
  {
    if p + n <= k {
      assert s[..k][p..p + n] == s[p..p + n];
    }
  }

  lemma CutSized(s: Bytes, p: nat, width: nat, more: nat, k: nat)
    requires p <= k <= |s|
    ensures var r := ReadSizedString(s, p, width);
      r.Ok? ==> ReadSizedString(s[..k], p, width) == if r.pos <= k then r else Err(IncompleteInput)
    ensures var r := SkipSized(s, p, width, more);
      r.Ok? ==> SkipSized(s[..k], p, width, more) == if r.pos <= k then r else Err(IncompleteInput)
  {
    hide ReadUnsigned, ReadString;
    var n := ReadUnsigned(s, p, width);
    if n.Ok? {
      CutUnsigned(s, p, width, k);
      if n.pos <= k && ReadString(s, n.pos, n.val).Ok? {
        CutString(s, n.pos, n.val, k);
      }
    }
  }

  lemma CutToken(s: Bytes, p: nat, k: nat)
    requires p < k <= |s| && DecodeToken(s, p).Ok?
    ensures DecodeToken(s[..k], p) == if DecodeToken(s, p).pos <= k then DecodeToken(s, p) else Err(IncompleteInput)
  {
    hide ReadUnsigned, ReadString, ReadSizedString, SkipSized;
    var c, q := s[p], p + 1;
    assert s[..k][p] == c;
    if 0xA0 <= c < 0xC0 {
      CutString(s, q, c - 0xA0, k);
    } else if 0xC4 <= c <= 0xC9 {
      var width := if c == 0xC4 || c == 0xC7 then 1 else if c == 0xC5 || c == 0xC8 then 2 else 4;
      CutSized(s, q, width, if c >= 0xC7 then 1 else 0, k);
    } else if 0xCA <= c <= 0xCB {
      assert q + 4 <= k ==> s[..k][q..q + 4] == s[q..q + 4];
      assert q + 8 <= k ==> s[..k][q..q + 8] == s[q..q + 8];
    } else if 0xCC <= c <= 0xD3 {
      var width := if c % 4 == 0 then 1 else if c % 4 == 1 then 2 else if c % 4 == 2 then 4 else 8;
      CutUnsigned(s, q, width, k);
    } else if 0xD9 <= c <= 0xDB {
      CutSized(s, q, if c == 0xD9 then 1 else if c == 0xDA then 2 else 4, 0, k);
    }
  }

  lemma CutKey(s: Bytes, p: nat, k: nat)
    requires p <= k <= |s| && DecodeKey(s, p).Ok?
    ensures DecodeKey(s[..k], p) == if DecodeKey(s, p).pos <= k then DecodeKey(s, p) else Err(IncompleteInput)
  {
    hide ReadUnsigned, ReadString, ReadSizedString;
    if p < k {
      var c, q := s[p], p + 1;
      assert s[..k][p] == c;
      if 0xA0 <= c < 0xC0 {
        CutString(s, q, c - 0xA0, k);
      } else {
        CutSized(s, q, if c == 0xD9 then 1 else if c == 0xDA then 2 else 4, 0, k);
      }
    }
  }

  lemma {:induction false} CutElemsOf(s: Bytes, p: nat, n: nat, limit: nat, acc: seq<Value>, k: nat)
    requires p <= k <= |s| && limit > 0
    requires DecodeElems(s, p, n, limit, acc).Ok? && k < DecodeElems(s, p, n, limit, acc).pos
    ensures DecodeElems(s[..k], p, n, limit, acc) == Err(IncompleteInput)
    decreases |s| - p, 1
  {
    hide DecodeVariant;
    var v := DecodeVariant(s, p, limit - 1);
    if k < v.pos {
      CutVariant(s, p, limit - 1, k);
    } else {
      WholeVariant(s, p, limit - 1, k);
      CutElemsOf(s, v.pos, n - 1, limit, acc + [v.val], k);
    }
  }

  lemma {:induction false} CutMembersOf(s: Bytes, p: nat, n: nat, limit: nat, acc: seq<Member>, k: nat)
    requires p <= k <= |s| && limit > 0
    requires DecodeMembers(s, p, n, limit, acc).Ok? && k < DecodeMembers(s, p, n, limit, acc).pos
    ensures DecodeMembers(s[..k], p, n, limit, acc) == Err(IncompleteInput)
    decreases |s| - p, 2
  {
    hide DecodeVariant, DecodeKey, CStr;
    var name := DecodeKey(s, p);
    CutKey(s, p, k);
    if name.pos <= k {
      var v := DecodeVariant(s, name.pos, limit - 1);
      if k < v.pos {
        CutVariant(s, name.pos, limit - 1, k);
      } else {
        WholeVariant(s, name.pos, limit - 1, k);
        CutMembersOf(s, v.pos, n - 1, limit, acc + [Member(CStr(name.val), v.val)], k);
      }
    }
  }

  /** What lies before the cut is decoded as before. */
  lemma {:induction false} WholeVariant(s: Bytes, p: nat, limit: nat, k: nat)
    requires p <= k <= |s| && DecodeVariant(s, p, limit).Ok? && DecodeVariant(s, p, limit).pos <= k
    ensures DecodeVariant(s[..k], p, limit) == DecodeVariant(s, p, limit)
    decreases |s| - p, 0
  {
    hide DecodeToken, DecodeElems, DecodeMembers, ReadCount;
    CutCount(s, p, FIX_ARRAY, ARRAY_16, k);
    var a, o := ReadCount(s, p, FIX_ARRAY, ARRAY_16), ReadCount(s, p, FIX_OBJECT, OBJECT_16);
    if a.Some? {
      ElemsGoOn(s, a.value.pos, a.value.val, limit, []);
      WholeElems(s, a.value.pos, a.value.val, limit, [], k);
    } else {
      CutCount(s, p, FIX_OBJECT, OBJECT_16, k);
      if o.Some? {
        MembersGoOn(s, o.value.pos, o.value.val, limit, []);
        WholeMembers(s, o.value.pos, o.value.val, limit, [], k);
      } else {
        CutToken(s, p, k);
      }
    }
  }

  lemma {:induction false} WholeElems(s: Bytes, p: nat, n: nat, limit: nat, acc: seq<Value>, k: nat)
    requires p <= k <= |s| && limit > 0
    requires DecodeElems(s, p, n, limit, acc).Ok? && DecodeElems(s, p, n, limit, acc).pos <= k
    ensures DecodeElems(s[..k], p, n, limit, acc) == DecodeElems(s, p, n, limit, acc)
    decreases |s| - p, 1
  {
    hide DecodeVariant;
    if n > 0 {
      var v := DecodeVariant(s, p, limit - 1);
      ElemsGoOn(s, v.pos, n - 1, limit, acc + [v.val]);
      WholeVariant(s, p, limit - 1, k);
      WholeElems(s, v.pos, n - 1, limit, acc + [v.val], k);
    }
  }

  lemma ElemsGoOn(s: Bytes, p: nat, n: nat, limit: nat, acc: seq<Value>)
    requires p <= |s| && limit > 0 && DecodeElems(s, p, n, limit, acc).Ok?
    ensures p <= DecodeElems(s, p, n, limit, acc).pos
  {
  }

  lemma MembersGoOn(s: Bytes, p: nat, n: nat, limit: nat, acc: seq<Member>)
    requires p <= |s| && limit > 0 && DecodeMembers(s, p, n, limit, acc).Ok?
    ensures p <= DecodeMembers(s, p, n, limit, acc).pos
  {
  }

  lemma {:induction false} WholeMembers(s: Bytes, p: nat, n: nat, limit: nat, acc: seq<Member>, k: nat)
    requires p <= k <= |s| && limit > 0
    requires DecodeMembers(s, p, n, limit, acc).Ok? && DecodeMembers(s, p, n, limit, acc).pos <= k
    ensures DecodeMembers(s[..k], p, n, limit, acc) == DecodeMembers(s, p, n, limit, acc)
    decreases |s| - p, 2
  {
    hide DecodeVariant, DecodeKey, CStr;
    if n > 0 {
      var name := DecodeKey(s, p);
      var v := DecodeVariant(s, name.pos, limit - 1);
      CutKey(s, p, k);
      WholeVariant(s, name.pos, limit - 1, k);
      WholeMembers(s, v.pos, n - 1, limit, acc + [Member(CStr(name.val), v.val)], k);
    }
  }

  /** Every beginning of an input that decodes, up to where decoding stops, is incomplete. */
  lemma CutInputIsIncomplete(s: Bytes, limit: nat, k: nat)
    requires Decode(s, limit).Ok? && k < Decode(s, limit).pos <= |s|
    ensures Decode(s[..k], limit) == Err(if k == 0 then EmptyInput else IncompleteInput)
  {
    hide DecodeVariant;
    if k > 0 {
      CutVariant(s, 0, limit, k);
    }
  }
}
