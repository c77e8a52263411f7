/** MsgPackDeserializer over a bounded pool. */
module MsgPackReader {
  import opened Values
  import opened Heap
  import opened Trees
  import opened Pool
  import opened Copier
  import opened Collections
  import opened MsgPack

  const COST := SLOT_SIZE + 1

  /** The outcome of a reading member: no error, or one. */
  type Code = Option<Error>

  class MsgPackDeserializer {
    const pool: MemoryPool
    const storage: StringCopier
    const input: Bytes
    var pos: nat
    var foundSomething: bool

    constructor (pool: MemoryPool, input: Bytes)
      requires pool.Valid() && !pool.overflowed
      ensures this.pool == pool && this.input == input && fresh(storage)
      ensures Ready() && pos == 0 && !foundSomething
    {
      this.pool := pool;
      this.input := input;
      storage := new StringCopier(pool);
      pos, foundSomething := 0, false;
    }

    /** No slot and no character is taken that the bytes read since `from` do not pay for, at
        the size of a slot and a terminator each; an overflow may be ahead by one slot. */
    ghost predicate Paid(err: Code, from: nat, free: int)
      reads this, pool
    {
      match err
      case None => free <= Free(pool) + COST * (pos - from)
      case Some(e) => e == NoMemory ==> free < COST * (|input| - from) + SLOT_SIZE
    }

    ghost predicate Ready()
      reads this, pool, pool.buf, storage
    {
      pool.Valid() && !pool.overflowed && storage.pool == pool && pos <= |input|
    }

    // ---- Reading ----

    method ReadByte() returns (err: Code, value: Byte)
      requires pos <= |input|
      modifies this`pos
      ensures old(pos) == |input| ==> err == Some(IncompleteInput) && pos == old(pos)
      ensures old(pos) < |input| ==> err == None && value == input[old(pos)] && pos == old(pos) + 1
    {
      if pos == |input| {
        return Some(IncompleteInput), 0;
      }
      value := input[pos];
      pos := pos + 1;
      err := None;
    }

    /** readInteger: `k` bytes, the highest first. */
    method ReadInteger(k: nat) returns (err: Code, value: nat)
      requires pos <= |input|
      modifies this`pos
      ensures pos <= |input|
      ensures match ReadUnsigned(input, old(pos), k) {
        case Ok(n, q) => err == None && value == n && pos == q
        case Err(e) => err == Some(e) && e != NoMemory
      }
    {
      if |input| - pos < k {
        return Some(IncompleteInput), 0;
      }
      value := 0;
      var i := 0;
      assert input[pos..pos] == [];
      while i < k
        invariant 0 <= i <= k && pos == old(pos) + i <= |input|
        invariant value == FromBigEndian(input[old(pos)..pos])
      {
        ghost var more := input[old(pos)..pos + 1];
        assert more[..|more| - 1] == input[old(pos)..pos];
        value := value * 256 + input[pos];
        pos := pos + 1;
        i := i + 1;
      }
      err := None;
    }

    method SkipBytes(n: nat) returns (err: Code)
      requires pos <= |input|
      modifies this`pos
      ensures old(pos) + n <= |input| ==> err == None && pos == old(pos) + n
      ensures old(pos) + n > |input| ==> err == Some(IncompleteInput)
    {
      var left := n;
      while left > 0
        invariant 0 <= left <= n && pos == old(pos) + (n - left) <= |input|
      {
        if pos == |input| {
          return Some(IncompleteInput);
        }
        pos := pos + 1;
        left := left - 1;
      }
      err := None;
    }

    /** What reading into the string under construction leaves. */
    ghost predicate StringRead(err: Code, r: Result<Bytes>)
      reads this, pool, pool.buf, storage
    {
      && storage.pool == pool && storage.Building() &&
      match err
      case None => r.Ok? && !pool.overflowed && pos == r.pos && storage.Text() == r.val
      case Some(e) => if e == NoMemory then pool.overflowed else r == Err(e)
    }

    /** The text is no longer than the bytes read; it overflows when they are more than fit. */
    ghost predicate FitsText(err: Code, from: nat)
      reads this, pool, storage
    {
      match err
      case None => from + storage.size <= pos
      case Some(e) => e == NoMemory ==> from + Free(pool) <= |input|
    }

    /** readString: `n` bytes. */
    method ReadBytes(n: nat) returns (err: Code)
      requires Ready()
      modifies this`pos, storage, pool`overflowed, pool.buf
      ensures StringRead(err, ReadString(input, old(pos), n)) && pool.Chars() == old(pool.Chars()) && pos <= |input|
      ensures FitsText(err, old(pos))
    {
      hide MemoryPool.Valid, MemoryPool.Chars, StringCopier.Building, StringCopier.Text;
      storage.StartString();
      var left := n;
      while left > 0
        invariant 0 <= left <= n && pos == old(pos) + (n - left) <= |input|
        invariant storage.Building() && pool.Chars() == old(pool.Chars())
        invariant !pool.overflowed ==> storage.Text() == input[old(pos)..pos]
        invariant pool.overflowed ==> old(pos) + Free(pool) <= pos
      {
        var c;
        err, c := ReadByte();
        if err != None {
          return;
        }
        storage.Append(c);
        left := left - 1;
      }
      return if pool.overflowed then Some(NoMemory) else None;
    }

    /** readString with its size before it. */
    method ReadSized(k: nat) returns (err: Code)
      requires Ready()
      modifies this`pos, storage, pool`overflowed, pool.buf
      ensures pool.Valid() && pool.Chars() == old(pool.Chars()) && pos <= |input|
      ensures var r := ReadSizedString(input, old(pos), k);
        if err != None && err != Some(NoMemory) then r == Err(err.value) else StringRead(err, r)
      ensures FitsText(err, old(pos))
    {
      hide MemoryPool.Valid, MemoryPool.Chars, StringCopier.Building, StringCopier.Text;
      var n;
      err, n := ReadInteger(k);
      if err == None {
        err := ReadBytes(n);
      }
    }

    method ReadKeyString() returns (err: Code)
      requires Ready()
      modifies this`pos, storage, pool`overflowed, pool.buf
      ensures pool.Valid() && pool.Chars() == old(pool.Chars())
      ensures var r := DecodeKey(input, old(pos));
        if err != None && err != Some(NoMemory) then r == Err(err.value) else StringRead(err, r)
      ensures FitsText(err, old(pos) + 1)
    {
      hide MemoryPool.Valid, MemoryPool.Chars, StringCopier.Building, StringCopier.Text, ReadSizedString;
      var code;
      err, code := ReadByte();
      if err != None {
        return;
      }
      if FIX_STRING <= code < 0xC0 {
        err := ReadBytes(code - FIX_STRING);
      } else if code == 0xD9 {
        err := ReadSized(1);
      } else if code == 0xDA {
        err := ReadSized(2);
      } else if code == 0xDB {
        err := ReadSized(4);
      } else {
        err := Some(InvalidInput);
      }
    }

    // ---- Values ----

    /** What decoding into a variant leaves: the pure value, or a pure error, or an overflow. */
    ghost predicate Decoded(err: Code, r: Result<Value>, variant: int, after: Shape, cells: map<int, Slot>,
                            chars: Bytes)
      reads this, pool, pool.buf, storage
    {
      pool.Valid() &&
      match err
      case None => r.Ok? && Ready() && pos == r.pos && Built(pool, variant, after, r.val, cells, chars)
      case Some(e) => if e == NoMemory then pool.overflowed else r == Err(e)
    }

    method SetLeaf(variant: int, c: Content, ghost v: Value)
      requires Ready() && variant in pool.cells && Denotes(pool.Mem(), c, LEAF, v)
      modifies pool`cells
      ensures Ready() && Built(pool, variant, LEAF, v, old(pool.cells), old(pool.Chars()))
    {
      hide MemoryPool.Valid, MemoryPool.Chars, Built;
      WriteLeaf(pool, variant, c, v);
    }

    /** The string under construction, saved and stored in a variant. */
    method StoreString(err: Code, variant: int, ghost r: Result<Bytes>) returns (err': Code)
      requires pool.Valid() && variant in pool.cells && pos <= |input|
      requires if err != None && err != Some(NoMemory) then r == Err(err.value) else StringRead(err, r)
      modifies pool`left, pool`cells, pool.buf
      ensures Decoded(err', StringValue(r), variant, LEAF, old(pool.cells), old(pool.Chars()))
      ensures err' == err && (err == None ==> old(Free(pool)) <= Free(pool) + storage.size + 1)
    {
      hide MemoryPool.Valid, MemoryPool.Chars, StringCopier.Building, StringCopier.Text, Built, StringAt;
      if err != None {
        return err;
      }
      var size := storage.size;
      ghost var text := storage.Text();
      var data := storage.Save();
      WriteString(pool, variant, data, size, text, old(pool.Chars()));
      return None;
    }

    /** readInteger into a variant. */
    method ReadInt(variant: int, k: nat, signed: bool) returns (err: Code)
      requires Ready() && variant in pool.cells && (k == 1 || k == 2 || k == 4 || k == 8)
      modifies this`pos, pool`cells
      ensures Decoded(err, MsgPack.ReadInt(input, old(pos), k, signed), variant, LEAF, old(pool.cells),
        old(pool.Chars()))
      ensures err == None ==> old(pos) <= pos
      ensures err != Some(NoMemory)
    {
      hide MemoryPool.Valid, MemoryPool.Chars, Built, FromBigEndian, Pow256;
      var n;
      err, n := ReadInteger(k);
      if err == None {
        FitsBytes(input[old(pos)..pos]);
        Pow256s();
        var value := if signed then Signed(n, k) else n;
        SetLeaf(variant, IntContent(value, signed), Int(value));
      }
    }

    /** readFloat and readDouble: the bytes are kept as they are. */
    method ReadFloat(variant: int, k: nat) returns (err: Code)
      requires Ready() && variant in pool.cells
      modifies this`pos, pool`cells
      ensures Decoded(err, MsgPack.ReadFloat(input, old(pos), k), variant, LEAF, old(pool.cells), old(pool.Chars()))
      ensures err == None ==> old(pos) <= pos
      ensures err != Some(NoMemory)
    {
      hide MemoryPool.Valid, MemoryPool.Chars, Built;
      if |input| - pos < k {
        return Some(IncompleteInput);
      }
      var bytes := input[pos..pos + k];
      pos := pos + k;
      SetLeaf(variant, FloatContent(Binary(bytes)), Float(Binary(bytes)));
      return None;
    }

    /** skipBytes for what is not supported: the variant stays null. */
    method SkipValue(variant: int, n: nat) returns (err: Code)
      requires Ready() && Holds(pool, variant, LEAF, Null)
      modifies this`pos
      ensures Decoded(err, MsgPack.SkipBytes(input, old(pos), n), variant, LEAF, pool.cells, pool.Chars())
      ensures err == None ==> old(pos) <= pos
      ensures err != Some(NoMemory)
    {
      hide MemoryPool.Valid, MemoryPool.Chars, Built;
      StillNull(pool, variant);
      err := SkipBytes(n);
    }

    /** skipString and skipExt */
    method SkipSized(variant: int, k: nat, more: nat) returns (err: Code)
      requires Ready() && Holds(pool, variant, LEAF, Null)
      modifies this`pos
      ensures Decoded(err, MsgPack.SkipSized(input, old(pos), k, more), variant, LEAF, pool.cells, pool.Chars())
      ensures err == None ==> old(pos) <= pos
      ensures err != Some(NoMemory)
    {
      hide MemoryPool.Valid, MemoryPool.Chars, Built, ReadUnsigned, MsgPack.SkipBytes, Holds;
      var n;
      err, n := ReadInteger(k);
      if err == None {
        err := SkipValue(variant, (n + more) % SIZE_LIMIT);
      }
    }

    /** The codes of parseVariant that stand for integers. */
    method ParseNumber(variant: int, code: Byte) returns (err: Code)
      requires Ready() && variant in pool.cells && pos > 0 && code == input[pos - 1] && 0xCC <= code <= 0xD3
      modifies this`pos, pool`cells
      ensures Decoded(err, DecodeToken(input, old(pos) - 1), variant, LEAF, old(pool.cells), old(pool.Chars()))
      ensures Paid(err, old(pos) - 1, old(Free(pool)) + SLOT_SIZE)
    {
      hide Ready, Decoded, MsgPack.ReadInt;
      var k := if code == 0xCC || code == 0xD0 then 1 else if code == 0xCD || code == 0xD1 then 2
               else if code == 0xCE || code == 0xD2 then 4 else 8;
      err := ReadInt(variant, k, code >= 0xD0);
    }

    /** The codes that are not supported. */
    method SkipUnsupported(variant: int, code: Byte) returns (err: Code)
      requires Ready() && Holds(pool, variant, LEAF, Null) && pos > 0 && code == input[pos - 1]
      requires 0xC4 <= code <= 0xC9 || 0xD4 <= code <= 0xD8
      modifies this`pos
      ensures Decoded(err, DecodeToken(input, old(pos) - 1), variant, LEAF, pool.cells, pool.Chars())
      ensures Paid(err, old(pos) - 1, Free(pool) + SLOT_SIZE)
    {
      hide Ready, Decoded, Holds, MsgPack.SkipSized, MsgPack.SkipBytes;
      if code >= 0xD4 {
        err := SkipValue(variant,
          if code == 0xD4 then 2 else if code == 0xD5 then 3 else if code == 0xD6 then 5 else if code == 0xD7 then 9
            else 17);
      } else {
        var k := if code == 0xC4 || code == 0xC7 then 1 else if code == 0xC5 || code == 0xC8 then 2 else 4;
        err := SkipSized(variant, k, if code >= 0xC7 then 1 else 0);
      }
    }

    /** The codes that stand for strings. */
    method ParseString(variant: int, code: Byte) returns (err: Code)
      requires Ready() && variant in pool.cells && pos > 0 && code == input[pos - 1]
      requires FIX_STRING <= code < 0xC0 || 0xD9 <= code <= 0xDB
      modifies this`pos, storage, pool`left, pool`overflowed, pool`cells, pool.buf
      ensures Decoded(err, DecodeToken(input, old(pos) - 1), variant, LEAF, old(pool.cells), old(pool.Chars()))
      ensures Paid(err, old(pos) - 1, old(Free(pool)) + SLOT_SIZE)
    {
      hide MemoryPool.Valid, MemoryPool.Chars, StringCopier.Building, StringCopier.Text, Decoded, ReadString;
      hide ReadSizedString;
      if code < 0xC0 {
        ghost var r := ReadString(input, pos, code - FIX_STRING);
        err := ReadBytes(code - FIX_STRING);
        err := StoreString(err, variant, r);
      } else {
        var k := if code == 0xD9 then 1 else if code == 0xDA then 2 else 4;
        ghost var r := ReadSizedString(input, pos, k);
        err := ReadSized(k);
        err := StoreString(err, variant, r);
      }
    }

    /** The codes of parseVariant that do not nest. */
    method ParseToken(variant: int, code: Byte) returns (err: Code)
      requires Ready() && Holds(pool, variant, LEAF, Null) && pos > 0 && code == input[pos - 1]
      requires code < 0x80 || 0xA0 <= code < 0xDC || 0xE0 <= code
      modifies this`pos, storage, pool`left, pool`overflowed, pool`cells, pool.buf
      ensures Decoded(err, DecodeToken(input, old(pos) - 1), variant, LEAF, old(pool.cells), old(pool.Chars()))
      ensures Paid(err, old(pos) - 1, old(Free(pool)) + SLOT_SIZE)
    {
      hide MemoryPool.Valid, MemoryPool.Chars, Built, ReadString, ReadSizedString, MsgPack.ReadInt, MsgPack.ReadFloat;
      hide MsgPack.SkipSized, MsgPack.SkipBytes;
      if FIX_STRING <= code < 0xC0 || 0xD9 <= code <= 0xDB {
        err := ParseString(variant, code);
      } else if 0xCC <= code <= 0xD3 {
        err := ParseNumber(variant, code);
      } else if 0xC4 <= code <= 0xC9 || 0xD4 <= code <= 0xD8 {
        err := SkipUnsupported(variant, code);
      } else if code == 0xCA || code == 0xCB {
        err := ReadFloat(variant, if code == 0xCA then 4 else 8);
      } else if code == 0xC1 {
        err := Some(InvalidInput);
      } else {
        ParseSimple(variant, code);
        err := None;
      }
    }

    /** Null, booleans, and integers that fit the code itself. */
    method ParseSimple(variant: int, code: Byte)
      requires Ready() && Holds(pool, variant, LEAF, Null) && pos > 0 && code == input[pos - 1]
      requires code < 0x80 || code == 0xC0 || code == 0xC2 || code == 0xC3 || 0xE0 <= code
      modifies pool`cells
      ensures Ready() && DecodeToken(input, pos - 1).Ok? && DecodeToken(input, pos - 1).pos == pos
      ensures Built(pool, variant, LEAF, DecodeToken(input, pos - 1).val, old(pool.cells), old(pool.Chars()))
    {
      hide MemoryPool.Valid, MemoryPool.Chars, Built;
      if code == 0xC0 {
        StillNull(pool, variant);
      } else if code == 0xC2 || code == 0xC3 {
        SetLeaf(variant, BoolContent(code == 0xC3), Bool(code == 0xC3));
      } else {
        var n := if code < 0x80 then code else code - 0x100;
        SetLeaf(variant, IntContent(n, true), Int(n));
      }
    }

    // ---- Nested values ----

    /** The count after a header code, if it is one of `fix` or `wide`. */
    method ParseCount(code: Byte, fix: Byte, wide: Byte) returns (err: Code, n: nat)
      requires 0 < pos <= |input| && code == input[pos - 1] && fix <= 0xF0 && wide < 0xFF
      requires fix <= code < fix + 0x10 || code == wide || code == wide + 1
      modifies this`pos
      ensures var r := ReadCount(input, old(pos) - 1, fix, wide);
        && r.Some?
        && (err == None ==> r.value == Ok(n, pos))
          && (err != None ==> err != Some(NoMemory) && r.value == Err(err.value))
    {
      if fix <= code < fix + 0x10 {
        return None, code - fix;
      }
      err, n := ReadInteger(if code == wide then 2 else 4);
    }

    /** parseVariant, with a filter that allows everything. */
    method ParseVariant(variant: int, nestingLimit: nat) returns (err: Code, ghost after: Shape)
      requires Ready() && Holds(pool, variant, LEAF, Null)
      modifies this`pos, this`foundSomething, storage
      modifies pool`left, pool`right, pool`overflowed, pool`cells, pool.buf
      ensures Decoded(err, DecodeVariant(input, old(pos), nestingLimit), variant, after, old(pool.cells),
        old(pool.Chars()))
      ensures Paid(err, old(pos), old(Free(pool)) + SLOT_SIZE)
      ensures foundSomething == (old(foundSomething) || old(pos) < |input|)
      decreases |input| - pos, 0
    {
      hide MemoryPool.Valid, MemoryPool.Chars, Built, DecodeToken, DecodeElems, DecodeMembers, Tree, Owns, ReadCount;
      hide DecodeVariant;
      VariantUnfold(input, pos, nestingLimit);
      after := LEAF;
      var code;
      err, code := ReadByte();
      if err != None {
        return;
      }
      foundSomething := true;
      var n;
      if IsArrayCode(code) {
        err, n := ParseCount(code, FIX_ARRAY, ARRAY_16);
        if err == None {
          err, after := ReadArray(variant, n, nestingLimit);
        }
      } else if IsObjectCode(code) {
        err, n := ParseCount(code, FIX_OBJECT, OBJECT_16);
        if err == None {
          err, after := ReadObject(variant, n, nestingLimit);
        }
      } else {
        err := ParseToken(variant, code);
      }
    }

    /** readArray */
    method ReadArray(variant: int, n: nat, nestingLimit: nat) returns (err: Code, ghost after: Shape)
      requires Ready() && Holds(pool, variant, LEAF, Null)
      modifies this`pos, this`foundSomething, storage
      modifies pool`left, pool`right, pool`overflowed, pool`cells, pool.buf
      ensures Decoded(err, if nestingLimit == 0 then Err(TooDeep)
        else DecodeElems(input, old(pos), n, nestingLimit, []),
                      variant, after, old(pool.cells), old(pool.Chars()))
      ensures Paid(err, old(pos), old(Free(pool)))
      ensures old(foundSomething) ==> foundSomething
      decreases |input| - pos, 3
    {
      hide MemoryPool.Valid, MemoryPool.Chars, Built, DecodeVariant, Tree;
      after := LEAF;
      if nestingLimit == 0 {
        return Some(TooDeep), after;
      }
      ghost var cells, chars := pool.cells, pool.Chars();
      SetLeaf(variant, Collection(false, NULL, NULL), Arr([]));
      var left := n;
      ghost var acc: seq<Value> := [];
      while left > 0
        invariant Ready() && old(pos) <= pos && Built(pool, variant, after, Arr(acc), cells, chars)
        invariant Paid(None, old(pos), old(Free(pool)))
        invariant DecodeElems(input, old(pos), n, nestingLimit, []) == DecodeElems(input, pos, left, nestingLimit, acc)
        invariant old(foundSomething) ==> foundSomething
      {
        ghost var r := DecodeVariant(input, pos, nestingLimit - 1);
        err, after := ReadElement(variant, nestingLimit - 1, acc, after, cells, chars);
        if err != None {
          return;
        }
        acc := acc + [r.val];
        left := left - 1;
      }
      err := None;
    }

    /** One more element. */
    method ReadElement(variant: int, nestingLimit: nat, ghost acc: seq<Value>, ghost sh: Shape,
                       ghost cells: map<int, Slot>, ghost chars: Bytes)
      returns (err: Code, ghost after: Shape)
      requires Ready() && Built(pool, variant, sh, Arr(acc), cells, chars)
      modifies this`pos, this`foundSomething, storage
      modifies pool`left, pool`right, pool`overflowed, pool`cells, pool.buf
      ensures var r := DecodeVariant(input, old(pos), nestingLimit);
        Decoded(err, if r.Err? then Err(r.error) else Ok(Arr(acc + [r.val]), r.pos), variant, after, cells, chars)
      ensures Paid(err, old(pos), old(Free(pool)))
      ensures old(foundSomething) ==> foundSomething
      decreases |input| - pos, 2
    {
      hide MemoryPool.Valid, MemoryPool.Chars, OwnsNew, Grew, Tree, Owns, DecodeVariant, OnlyLinks;
      after := sh;
      ghost var m := pool.Mem();
      HeldHead(pool, variant, sh, Arr(acc));
      var value := AddChild(pool, variant, NoKey, [], sh, Arr(acc));
      if value == NULL {
        return Some(NoMemory), after;
      }
      AddedIsNew(m, pool.Mem(), variant, sh, value, cells, chars);
      after := Shape(sh.kids + [Kid(value, LEAF)]);
      ghost var r := DecodeVariant(input, pos, nestingLimit);
      err, after := ParseChild(variant, value, nestingLimit, after, Arr(acc + [Null]), |acc|, cells, chars);
      assert r.Ok? ==> (acc + [Null])[|acc| := r.val] == acc + [r.val];
    }

    /** parseVariant into the null child number `at` of a collection. */
    method ParseChild(owner: int, slot: int, nestingLimit: nat, ghost sh: Shape, ghost v: Value, ghost at: nat,
                      ghost cells: map<int, Slot>, ghost chars: Bytes)
      returns (err: Code, ghost after: Shape)
      requires Ready() && IsNested(v) && Built(pool, owner, sh, v, cells, chars)
      requires at < Arity(v) && |sh.kids| == Arity(v) && sh.kids[at] == Kid(slot, LEAF) && Child(v, at) == Null
      modifies this`pos, this`foundSomething, storage
      modifies pool`left, pool`right, pool`overflowed, pool`cells, pool.buf
      ensures var r := DecodeVariant(input, old(pos), nestingLimit);
        Decoded(err, if r.Err? then Err(r.error) else Ok(WithChild(v, at, r.val), r.pos), owner, after, cells, chars)
      ensures Paid(err, old(pos), old(Free(pool)) + SLOT_SIZE)
      ensures old(foundSomething) ==> foundSomething
      decreases |input| - pos, 1
    {
      hide MemoryPool.Valid, MemoryPool.Chars, OwnsNew, Grew, Tree, Owns, DecodeVariant;
      ghost var m := pool.Mem();
      HeldSlot(pool, owner, sh, v, at);
      ghost var sub;
      ghost var r := DecodeVariant(input, pos, nestingLimit);
      err, sub := ParseVariant(slot, nestingLimit);
      after := Shape(sh.kids[at := Kid(slot, sub)]);
      if err == None {
        NewChildRewritten(pool, m, owner, sh, v, at, sub, r.val, cells, chars);
      }
    }

    /** readObject */
    method ReadObject(variant: int, n: nat, nestingLimit: nat) returns (err: Code, ghost after: Shape)
      requires Ready() && Holds(pool, variant, LEAF, Null)
      modifies this`pos, this`foundSomething, storage
      modifies pool`left, pool`right, pool`overflowed, pool`cells, pool.buf
      ensures Decoded(err, if nestingLimit == 0 then Err(TooDeep)
        else DecodeMembers(input, old(pos), n, nestingLimit, []),
                      variant, after, old(pool.cells), old(pool.Chars()))
      ensures Paid(err, old(pos), old(Free(pool)))
      ensures old(foundSomething) ==> foundSomething
      decreases |input| - pos, 3
    {
      hide MemoryPool.Valid, MemoryPool.Chars, Built, DecodeMember, Tree;
      after := LEAF;
      if nestingLimit == 0 {
        return Some(TooDeep), after;
      }
      ghost var cells, chars := pool.cells, pool.Chars();
      SetLeaf(variant, Collection(true, NULL, NULL), Obj([]));
      var left := n;
      ghost var acc: seq<Member> := [];
      while left > 0
        invariant Ready() && old(pos) <= pos && Built(pool, variant, after, Obj(acc), cells, chars)
        invariant Paid(None, old(pos), old(Free(pool)))
        invariant DecodeMembers(input, old(pos), n, nestingLimit, [])
          == DecodeMembers(input, pos, left, nestingLimit, acc)
        invariant old(foundSomething) ==> foundSomething
      {
        ghost var r := DecodeMember(input, pos, nestingLimit);
        err, after := ReadMember(variant, nestingLimit, acc, after, cells, chars);
        if err != None {
          return;
        }
        acc := acc + [r.val];
        left := left - 1;
      }
      err := None;
    }

    /** A key, while the object it belongs to is being built. */
    method ReadMemberKey(variant: int, ghost sh: Shape, ghost v: Value, ghost cells: map<int, Slot>, ghost chars: Bytes)
      returns (err: Code)
      requires Ready() && Built(pool, variant, sh, v, cells, chars)
      modifies this`pos, storage, pool`overflowed, pool.buf
      ensures pool.Valid() && FitsText(err, old(pos) + 1)
      ensures var r := DecodeKey(input, old(pos));
        if err != None && err != Some(NoMemory) then r == Err(err.value) else StringRead(err, r)
      ensures err == None ==> Ready() && Built(pool, variant, sh, v, cells, chars)
    {
      hide MemoryPool.Valid, MemoryPool.Chars, StringCopier.Building, StringCopier.Text, Tree, Owns, OwnsNew, Grew,
        DecodeKey;
      err := ReadKeyString();
    }

    /** A key, saved in the pool, a slot, and its value. */
    method ReadMember(variant: int, nestingLimit: nat, ghost acc: seq<Member>, ghost sh: Shape,
                      ghost cells: map<int, Slot>, ghost chars: Bytes)
      returns (err: Code, ghost after: Shape)
      requires Ready() && nestingLimit > 0 && Built(pool, variant, sh, Obj(acc), cells, chars)
      modifies this`pos, this`foundSomething, storage
      modifies pool`left, pool`right, pool`overflowed, pool`cells, pool.buf
      ensures var r := DecodeMember(input, old(pos), nestingLimit);
        Decoded(err, if r.Err? then Err(r.error) else Ok(Obj(acc + [r.val]), r.pos), variant, after, cells, chars)
      ensures Paid(err, old(pos), old(Free(pool)))
      ensures old(foundSomething) ==> foundSomething
      decreases |input| - pos, 2
    {
      hide MemoryPool.Valid, MemoryPool.Chars, StringCopier.Building, StringCopier.Text, Tree, DecodeVariant, DecodeKey;
      hide Built, Owns, Holds, Free;
      after := sh;
      ghost var name := DecodeKey(input, pos);
      err := ReadMemberKey(variant, sh, Obj(acc), cells, chars);
      if err != None {
        return;
      }
      ghost var key := CStr(storage.Text());
      var slot;
      slot, after := AddKey(variant, sh, acc, cells, chars);
      if slot == NULL {
        return Some(NoMemory), after;
      }
      ghost var r := DecodeVariant(input, pos, nestingLimit - 1);
      err, after := ParseChild(variant, slot, nestingLimit - 1, after, Obj(acc + [Member(key, Null)]), |acc|, cells,
        chars);
      assert r.Ok? ==> (acc + [Member(key, Null)])[|acc| := Member(key, r.val)] == acc + [Member(key, r.val)];
    }

    /** The slot of a new member, named by the string under construction. */
    method AddKey(variant: int, ghost sh: Shape, ghost acc: seq<Member>, ghost cells: map<int, Slot>,
                  ghost chars: Bytes)
      returns (slot: int, ghost after: Shape)
      requires Ready() && storage.Building() && Built(pool, variant, sh, Obj(acc), cells, chars)
      modifies pool`left, pool`right, pool`overflowed, pool`cells, pool.buf
      ensures pool.Valid() && (slot == NULL ==> pool.overflowed)
      ensures slot != NULL ==>
        && Ready() && Built(pool, variant, after, Obj(acc + [Member(CStr(old(storage.Text())), Null)]), cells, chars)
        && |after.kids| == |acc| + 1 && after.kids[|acc|] == Kid(slot, LEAF)
      ensures var cost := SLOT_SIZE + storage.size + 1;
        if slot == NULL then old(Free(pool)) < cost else old(Free(pool)) <= Free(pool) + cost
    {
      hide MemoryPool.Valid, MemoryPool.Chars, StringCopier.Text, StringCopier.Building, OwnsNew, Grew, Tree, Owns;
      hide OnlyLinks, StringAt;
      HeldHead(pool, variant, sh, Obj(acc));
      ghost var m := pool.Mem();
      ghost var key := CStr(storage.Text());
      var data := storage.Save();
      SavedStill(pool, m, variant, sh, Obj(acc), cells, chars);
      StringAtIsCString(pool.Mem(), data, old(storage.Text()));
      ghost var saved := pool.Mem();
      slot := AddChild(pool, variant, OwnedKey(data), key, sh, Obj(acc));
      after := Shape(sh.kids + [Kid(slot, LEAF)]);
      if slot != NULL {
        AddedIsNew(saved, pool.Mem(), variant, sh, slot, cells, chars);
      }
    }

    /** parse: the whole input, into a cleared document. */
    method Parse(nestingLimit: nat) returns (err: Code, ghost sh: Shape)
      requires Ready() && pos == 0 && !foundSomething && Holds(pool, ROOT, LEAF, Null)
      modifies this`pos, this`foundSomething, storage
      modifies pool`left, pool`right, pool`overflowed, pool`cells, pool.buf
      ensures pool.Valid()
      ensures var r := Decode(input, nestingLimit);
        match err
        case None => r.Ok? && !pool.overflowed && Holds(pool, ROOT, sh, r.val)
        case Some(e) => if e == NoMemory then pool.overflowed else r == Err(e)
      ensures err == Some(NoMemory) ==> old(Free(pool)) < COST * |input|
    {
      hide MemoryPool.Valid, MemoryPool.Chars, OwnsNew, Grew, Tree, Owns;
      err, sh := ParseVariant(ROOT, nestingLimit);
      if !foundSomething {
        err := Some(EmptyInput);
      }
    }
  }

  lemma {:induction false} FitsBytes(bytes: Bytes)
    ensures FromBigEndian(bytes) < Pow256(|bytes|)
  {
    if bytes != [] {
      FitsBytes(bytes[..|bytes| - 1]);
    }
  }

  lemma Pow256s()
    ensures Pow256(1) == 0x100 && Pow256(2) == 0x1_0000 && Pow256(4) == 0x1_0000_0000
    ensures Pow256(8) == 0x1_0000_0000_0000_0000
  {
    assert Pow256(4) == 0x1_0000_0000;
    assert Pow256(6) == 0x1_0000_0000_0000;
  }

  predicate IsArrayCode(code: Byte) { FIX_ARRAY <= code < 0xA0 || code == 0xDC || code == 0xDD }

  predicate IsObjectCode(code: Byte) { FIX_OBJECT <= code < FIX_ARRAY || code == 0xDE || code == 0xDF }

  lemma VariantUnfold(s: Bytes, p: nat, limit: nat)
    requires p <= |s|
    ensures p == |s| ==> DecodeVariant(s, p, limit) == Err(IncompleteInput)
    ensures p < |s| && IsArrayCode(s[p]) ==>
      var n := ReadCount(s, p, FIX_ARRAY, ARRAY_16);
      n.Some? && DecodeVariant(s, p, limit) ==
        if n.value.Err? then Err(n.value.error)
        else if limit == 0 then Err(TooDeep) else DecodeElems(s, n.value.pos, n.value.val, limit, [])
    ensures p < |s| && IsObjectCode(s[p]) ==>
      var n := ReadCount(s, p, FIX_OBJECT, OBJECT_16);
      n.Some? && DecodeVariant(s, p, limit) ==
        if n.value.Err? then Err(n.value.error)
        else if limit == 0 then Err(TooDeep) else DecodeMembers(s, n.value.pos, n.value.val, limit, [])
    ensures p < |s| && !IsArrayCode(s[p]) && !IsObjectCode(s[p]) ==> DecodeVariant(s, p, limit) == DecodeToken(s, p)
  {
    hide DecodeElems, DecodeMembers, DecodeToken, ReadUnsigned;
  }

  lemma StillNull(pool: MemoryPool, variant: int)
    requires pool.Valid() && Holds(pool, variant, LEAF, Null)
    ensures Built(pool, variant, LEAF, Null, pool.cells, pool.Chars())
  {
  }
}
