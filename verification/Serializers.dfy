/** The serializers over the slots of a pool: each appends to its output what the pure
    printers and the pure encoder say. */
module Serializers {
  import opened Values
  import opened Unicode
  import opened JsonText
  import opened Heap
  import opened Pool
  import opened Trees
  import opened Collections
  import opened JsonPrinter
  import opened MsgPack
  import Numbers

  // ---- Text ----

  class TextFormatter {
    var output: Bytes

    constructor ()
      ensures output == []
    {
      output := [];
    }

    method WriteRaw(s: Bytes)
      modifies this
      ensures output == old(output) + s
    {
      output := output + s;
    }

    method WriteBoolean(value: bool)
      modifies this
      ensures output == old(output) + if value then TRUE_TEXT else FALSE_TEXT
    {
      if value {
        WriteRaw(TRUE_TEXT);
      } else {
        WriteRaw(FALSE_TEXT);
      }
    }

    method WriteChar(c: Byte)
      modifies this
      ensures output == old(output) + PrintChar(c)
    {
      var specialChar := ScanForByte(c);
      if specialChar != 0 {
        WriteRaw([BACKSLASH]);
        WriteRaw([specialChar]);
      } else if c != 0 {
        WriteRaw([c]);
      } else {
        WriteRaw([BACKSLASH, 117, 48, 48, 48, 48]);
      }
    }

    method WriteString(value: Bytes)
      modifies this
      ensures output == old(output) + PrintString(value)
    {
      hide PrintChar;
      WriteRaw([QUOTE]);
      assert value[0..] == value;
      var i := 0;
      while i < |value|
        invariant 0 <= i <= |value|
        invariant output + PrintChars(value[i..]) == old(output) + [QUOTE] + PrintChars(value)
      {
        WriteChar(value[i]);
        assert value[i..][1..] == value[i + 1..];
        i := i + 1;
      }
      assert value[i..] == [] && output + [] == output;
      WriteRaw([QUOTE]);
      assert output == old(output) + ([QUOTE] + PrintChars(value) + [QUOTE]);
    }

    /** Digits from the lowest up, in a buffer filled from its end. */
    method WriteUnsigned(n: nat)
      requires n <= 0xFFFF_FFFF_FFFF_FFFF
      modifies this
      ensures output == old(output) + Numbers.PrintNat(n)
    {
      var buffer := new Byte[22](_ => 0);
      var begin := 22;
      var value := n;
      Numbers.Pow10Of20();
      Numbers.PrintedLength(n, 19);
      assert buffer[22..22] == [];
      while true
        invariant |Numbers.PrintNat(value)| + 2 <= begin <= 22
        invariant Numbers.PrintNat(value) + buffer[begin..22] == Numbers.PrintNat(n)
        invariant fresh(buffer) && output == old(output)
        decreases value
      {
        begin := begin - 1;
        buffer[begin] := 48 + value % 10;
        var more := value / 10;
        DigitWritten(value, buffer[begin + 1..22], buffer[begin..22]);
        if more == 0 {
          break;
        }
        value := more;
      }
      WriteRaw(buffer[begin..22]);
    }

    method WriteInteger(value: int)
      requires Is64Bit(value)
      modifies this
      ensures output == old(output) + Numbers.PrintInt(value)
    {
      if value < 0 {
        WriteRaw([45]);
        WriteUnsigned(0 - value);
      } else {
        WriteUnsigned(value);
      }
    }
  }

  /** One digit in front of those written: what is left to print is a tenth. */
  lemma DigitWritten(n: nat, before: Bytes, after: Bytes)
    requires after == [48 + n % 10] + before
    ensures n < 10 ==> Numbers.PrintNat(n) + before == after
    ensures n >= 10 ==> Numbers.PrintNat(n) + before == Numbers.PrintNat(n / 10) + after
    ensures n >= 10 ==> |Numbers.PrintNat(n)| == |Numbers.PrintNat(n / 10)| + 1
  {
  }

  // ---- JSON ----

  /** Every integer is one that a variant can hold. */
  predicate Integers64(v: Value) {
    match v
    case Int(n) => Is64Bit(n)
    case Arr(es) => forall i :: 0 <= i < |es| ==> Integers64(es[i])
    case Obj(ms) => forall i :: 0 <= i < |ms| ==> Integers64(ms[i].val)
    case _ => true
  }

  predicate Serializable(v: Value) { FloatFree(v) && Integers64(v) }

  /** What is still to be written from child number `i` on. */
  function Remaining(style: Style, v: Value, i: nat, n: nat): Bytes
    requires IsNested(v) && i <= Arity(v) && Serializable(v)
  {
    if i == Arity(v) then []
    else if v.Arr? then PrintElems(style, v.elems[i..], n)
    else PrintMembers(style, v.members[i..], n)
  }

  function PrintKid(style: Style, v: Value, i: nat, n: nat): Bytes
    requires IsNested(v) && i < Arity(v) && Serializable(v)
  {
    if v.Arr? then Print(style, v.elems[i], n) else PrintMember(style, v.members[i], n)
  }

  lemma RemainingUnfold(style: Style, v: Value, i: nat, n: nat)
    requires IsNested(v) && i < Arity(v) && Serializable(v)
    ensures Remaining(style, v, i, n) == PrintKid(style, v, i, n) +
      if i + 1 == Arity(v) then [] else [COMMA] + Lead(style, n) + Remaining(style, v, i + 1, n)
  {
  }

  lemma PrintNested(style: Style, v: Value, n: nat)
    requires IsNested(v) && Serializable(v)
    ensures var open, close := if v.Arr? then LEFT_BRACKET else LEFT_BRACE, if v.Arr? then RIGHT_BRACKET
      else RIGHT_BRACE;
      Print(style, v, n) ==
        if Arity(v) == 0 then [open, close]
        else [open] + Lead(style, n + 1) + Remaining(style, v, 0, n + 1) + Lead(style, n) + [close]
  {
  }

  class JsonSerializer {
    const pool: MemoryPool
    const formatter: TextFormatter

    constructor (pool: MemoryPool, formatter: TextFormatter)
      ensures this.pool == pool && this.formatter == formatter
    {
      this.pool := pool;
      this.formatter := formatter;
    }

    /** accept: what is not nested. */
    method VisitScalar(at: int, ghost sh: Shape, ghost v: Value, ghost style: Style, ghost n: nat)
      requires pool.Valid() && Holds(pool, at, sh, v) && Serializable(v) && !IsNested(v)
      modifies formatter
      ensures formatter.output == old(formatter.output) + Print(style, v, n)
    {
      hide MemoryPool.Valid, MemoryPool.Chars, PrintString, Numbers.PrintNat;
      var c := pool.cells[at].content;
      if c.NullContent? {
        formatter.WriteRaw(NULL_TEXT);
      } else if c.BoolContent? {
        formatter.WriteBoolean(c.b);
      } else if c.IntContent? {
        if c.signed {
          formatter.WriteInteger(c.n);
        } else {
          formatter.WriteUnsigned(c.n);
        }
      } else {
        var text := ReadText(pool, c, sh, v.s);
        formatter.WriteString(text);
      }
    }

    /** accept, for the compact printer. */
    method Visit(at: int, ghost sh: Shape, ghost v: Value, ghost n: nat)
      requires pool.Valid() && Holds(pool, at, sh, v) && Serializable(v)
      modifies formatter
      ensures formatter.output == old(formatter.output) + Print(Compact, v, n)
      decreases sh, 2
    {
      hide MemoryPool.Valid, MemoryPool.Chars, Print, Apart, KidDenotes;
      if pool.cells[at].content.Collection? {
        VisitCollection(at, sh, v, n);
      } else {
        VisitScalar(at, sh, v, Compact, n);
      }
    }

    /** visitArray and visitObject */
    method VisitCollection(at: int, ghost sh: Shape, ghost v: Value, ghost n: nat)
      requires pool.Valid() && Holds(pool, at, sh, v) && Serializable(v) && IsNested(v)
      modifies formatter
      ensures formatter.output == old(formatter.output) + Print(Compact, v, n)
      decreases sh, 1
    {
      hide MemoryPool.Valid, MemoryPool.Chars, Print, Tree, Remaining, PrintKid;
      HeldHead(pool, at, sh, v);
      PrintNested(Compact, v, n);
      var isObject := pool.cells[at].content.isObject;
      formatter.WriteRaw([if isObject then LEFT_BRACE else LEFT_BRACKET]);
      var slot := pool.cells[at].content.head;
      ghost var i, rest := 0, Remaining(Compact, v, 0, n + 1);
      NothingRemains(Compact, v, n + 1);
      while slot != NULL
        invariant 0 <= i <= Arity(v) && slot == if i < Arity(v) then sh.kids[i].addr else NULL
        invariant formatter.output + Remaining(Compact, v, i, n + 1)
               == old(formatter.output) + [if isObject then LEFT_BRACE else LEFT_BRACKET] + rest
        decreases Arity(v) - i
      {
        HeldSlot(pool, at, sh, v, i);
        RemainingUnfold(Compact, v, i, n + 1);
        VisitSlot(slot, sh, v, i, n + 1);
        slot := NextOf(slot, pool.cells[slot]);
        i := i + 1;
        if slot == NULL {
          break;
        }
        formatter.WriteRaw([COMMA]);
      }
      if i < Arity(v) {
        HeldSlot(pool, at, sh, v, i);
      }
      formatter.WriteRaw([if isObject then RIGHT_BRACE else RIGHT_BRACKET]);
      Enclosed(old(formatter.output), if isObject then LEFT_BRACE else LEFT_BRACKET, rest,
        if isObject then RIGHT_BRACE else RIGHT_BRACKET);
    }

    /** One element, or one key, colon and value. */
    method VisitSlot(slot: int, ghost sh: Shape, ghost v: Value, ghost i: nat, ghost n: nat)
      requires pool.Valid() && IsNested(v) && i < Arity(v) && |sh.kids| == Arity(v) && Serializable(v)
      requires slot in pool.cells && ChildKey(pool.Mem(), pool.cells[slot].key, v, i)
      requires Holds(pool, slot, sh.kids[i].sub, Child(v, i))
      modifies formatter
      ensures formatter.output == old(formatter.output) + PrintKid(Compact, v, i, n)
      decreases sh, 0
    {
      hide MemoryPool.Valid, MemoryPool.Chars, Print, PrintString, Tree;
      if pool.cells[slot].key != NoKey {
        WriteKey(pool, formatter, slot, v.members[i].key);
        formatter.WriteRaw([COLON]);
      }
      Visit(slot, sh.kids[i].sub, Child(v, i), n);
    }
  }

  class PrettyJsonSerializer {
    const base: JsonSerializer
    /** The depth, in eight bits. */
    var nesting: nat

    constructor (base: JsonSerializer)
      ensures this.base == base && nesting == 0
    {
      this.base := base;
      nesting := 0;
    }

    method Indent()
      requires nesting < 256
      modifies base.formatter
      ensures base.formatter.output == old(base.formatter.output) + Spaces(nesting)
    {
      var i := 0;
      assert Spaces(0) == [];
      while i < nesting
        invariant 0 <= i <= nesting && base.formatter.output == old(base.formatter.output) + Spaces(i)
      {
        base.formatter.WriteRaw([32, 32]);
        SpacesAtEnd(i);
        i := i + 1;
      }
    }

    /** accept, for the pretty printer. */
    method Visit(at: int, ghost sh: Shape, ghost v: Value, ghost n: nat)
      requires base.pool.Valid() && Holds(base.pool, at, sh, v) && Serializable(v) && nesting == n % 256
      modifies this, base.formatter
      ensures nesting == old(nesting) && base.formatter.output == old(base.formatter.output) + Print(Pretty, v, n)
      decreases sh, 2
    {
      hide MemoryPool.Valid, MemoryPool.Chars, Print, Apart, KidDenotes;
      if base.pool.cells[at].content.Collection? {
        VisitCollection(at, sh, v, n);
      } else {
        base.VisitScalar(at, sh, v, Pretty, n);
      }
    }

    /** visitArray and visitObject */
    method VisitCollection(at: int, ghost sh: Shape, ghost v: Value, ghost n: nat)
      requires base.pool.Valid() && Holds(base.pool, at, sh, v) && Serializable(v) && IsNested(v) && nesting == n % 256
      modifies this, base.formatter
      ensures nesting == old(nesting) && base.formatter.output == old(base.formatter.output) + Print(Pretty, v, n)
      decreases sh, 1
    {
      hide MemoryPool.Valid, MemoryPool.Chars, Print, Tree, Remaining, Spaces, Serializable;
      HeldHead(base.pool, at, sh, v);
      PrintNested(Pretty, v, n);
      var isObject := base.pool.cells[at].content.isObject;
      var open, close := if isObject then LEFT_BRACE else LEFT_BRACKET, if isObject then RIGHT_BRACE else RIGHT_BRACKET;
      var slot := base.pool.cells[at].content.head;
      if slot == NULL {
        if Arity(v) > 0 {
          HeldSlot(base.pool, at, sh, v, 0);
        }
        base.formatter.WriteRaw([open, close]);
        return;
      }
      base.formatter.WriteRaw([open, 13, 10]);
      nesting := (nesting + 1) % 256;
      VisitSlots(slot, at, sh, v, n + 1);
      nesting := (nesting + 255) % 256;
      Indent();
      base.formatter.WriteRaw([close]);
      PrettyEnclosed(old(base.formatter.output), open, Spaces((n + 1) % 256), Remaining(Pretty, v, 0, n + 1),
        Spaces(n % 256), close);
    }

    /** The loop over the slots: each after its indentation, with a line end after it. */
    method VisitSlots(head: int, at: int, ghost sh: Shape, ghost v: Value, ghost n: nat)
      requires base.pool.Valid() && Holds(base.pool, at, sh, v) && Serializable(v) && IsNested(v) && nesting == n % 256
      requires Arity(v) > 0 && |sh.kids| == Arity(v) && head == sh.kids[0].addr
      modifies this, base.formatter
      ensures nesting == old(nesting)
      ensures base.formatter.output
           == old(base.formatter.output) + Spaces(n % 256) + Remaining(Pretty, v, 0, n) + [13, 10]
      decreases sh, 0, 1
    {
      hide MemoryPool.Valid, MemoryPool.Chars, Print, Tree, Remaining, PrintKid, Spaces, Serializable, ChildKey, Owns;
      var slot := head;
      ghost var i := 0;
      ghost var before, all := base.formatter.output, Spaces(n % 256) + Remaining(Pretty, v, 0, n) + [13, 10];
      HeldSlot(base.pool, at, sh, v, 0);
      while slot != NULL
        invariant 0 <= i <= Arity(v) && slot == (if i < Arity(v) then sh.kids[i].addr else NULL) && nesting == n % 256
        invariant base.formatter.output +
          (if i == Arity(v) then [] else Spaces(n % 256) + Remaining(Pretty, v, i, n) + [13, 10]) == before + all
        decreases Arity(v) - i
      {
        HeldSlot(base.pool, at, sh, v, i);
        RemainingUnfold(Pretty, v, i, n);
        ghost var written := base.formatter.output;
        Indent();
        VisitSlot(slot, sh, v, i, n);
        slot := NextOf(slot, base.pool.cells[slot]);
        base.formatter.WriteRaw(if slot != NULL then [COMMA, 13, 10] else [13, 10]);
        if i + 1 < Arity(v) {
          HeldSlot(base.pool, at, sh, v, i + 1);
        }
        LineWritten(written, Spaces(n % 256), PrintKid(Pretty, v, i, n),
          if i + 1 < Arity(v) then Remaining(Pretty, v, i + 1, n) else []);
        i := i + 1;
      }
      if i < Arity(v) {
        HeldSlot(base.pool, at, sh, v, i);
      }
      assert base.formatter.output + [] == base.formatter.output;
      assert before + all == before + Spaces(n % 256) + Remaining(Pretty, v, 0, n) + [13, 10];
    }

    method VisitSlot(slot: int, ghost sh: Shape, ghost v: Value, ghost i: nat, ghost n: nat)
      requires base.pool.Valid() && IsNested(v) && i < Arity(v) && |sh.kids| == Arity(v) && Serializable(v)
        && nesting == n % 256
      requires slot in base.pool.cells && ChildKey(base.pool.Mem(), base.pool.cells[slot].key, v, i)
      requires Holds(base.pool, slot, sh.kids[i].sub, Child(v, i))
      modifies this, base.formatter
      ensures nesting == old(nesting) && base.formatter.output == old(base.formatter.output) + PrintKid(Pretty, v, i, n)
      decreases sh, 0, 0
    {
      hide MemoryPool.Valid, MemoryPool.Chars, Print, PrintString, Tree;
      if base.pool.cells[slot].key != NoKey {
        WriteKey(base.pool, base.formatter, slot, v.members[i].key);
        base.formatter.WriteRaw([COLON, 32]);
      }
      Visit(slot, sh.kids[i].sub, Child(v, i), n);
    }
  }

  lemma {:induction false} SpacesAtEnd(n: nat)
    ensures Spaces(n + 1) == Spaces(n) + [32, 32]
  {
  }

  lemma PrettyEnclosed(before: Bytes, open: Byte, inner: Bytes, items: Bytes, outer: Bytes, close: Byte)
    ensures before + [open, 13, 10] + inner + items + [13, 10] + outer + [close]
         == before + ([open] + ([13, 10] + inner) + items + ([13, 10] + outer) + [close])
  {
  }

  lemma LineWritten(before: Bytes, indent: Bytes, item: Bytes, rest: Bytes)
    ensures before + indent + item + [13, 10] == before + (indent + (item + []) + [13, 10])
    ensures before + indent + item + [COMMA, 13, 10] + (indent + rest + [13, 10])
         == before + (indent + (item + ([COMMA] + ([13, 10] + indent) + rest)) + [13, 10])
  {
  }

  /** writeString on a slot's key. */
  method WriteKey(pool: MemoryPool, formatter: TextFormatter, slot: int, ghost key: Bytes)
    requires pool.Valid() && slot in pool.cells && KeyIs(pool.Mem(), pool.cells[slot].key, key)
    modifies formatter
    ensures formatter.output == old(formatter.output) + PrintString(CStr(key))
  {
    hide MemoryPool.Valid, MemoryPool.Chars, PrintString;
    var text := ReadKey(pool, pool.cells[slot].key, key);
    CStrOfNulFree(key);
    formatter.WriteString(text);
  }

  lemma Enclosed(before: Bytes, open: Byte, items: Bytes, close: Byte)
    ensures before + [open] + items + [close] == before + ([open] + [] + items + [] + [close])
    ensures items == [] ==> before + [open] + items + [close] == before + [open, close]
  {
  }

  lemma NothingRemains(style: Style, v: Value, n: nat)
    requires IsNested(v) && Serializable(v)
    ensures Remaining(style, v, Arity(v), n) == [] && (Arity(v) == 0 ==> Remaining(style, v, 0, n) == [])
  {
  }

  // ---- MessagePack ----

  /** The bytes of an integer in memory, the lowest first. */
  function LittleEndian(n: nat, k: nat): (r: Bytes)
    ensures |r| == k
  {
    if k == 0 then [] else [n % 256] + LittleEndian(n / 256, k - 1)
  }

  lemma {:induction false} BigIsLittleReversed(n: nat, k: nat, i: nat)
    requires i < k
    ensures BigEndian(n, k)[i] == LittleEndian(n, k)[k - 1 - i]
  {
    if i < k - 1 {
      BigIsLittleReversed(n / 256, k - 1, i);
    }
  }

  /** fixEndianess: pairs of bytes swapped from both ends. */
  method FixEndianess(p: array<Byte>)
    requires p.Length == 1 || p.Length == 2 || p.Length == 4 || p.Length == 8
    modifies p
    ensures forall i :: 0 <= i < p.Length ==> p[i] == old(p[p.Length - 1 - i])
  {
    if p.Length == 8 {
      p[0], p[7] := p[7], p[0];
      p[1], p[6] := p[6], p[1];
      p[2], p[5] := p[5], p[2];
      p[3], p[4] := p[4], p[3];
    } else if p.Length == 4 {
      p[0], p[3] := p[3], p[0];
      p[1], p[2] := p[2], p[1];
    } else if p.Length == 2 {
      p[0], p[1] := p[1], p[0];
    }
  }

  class MsgPackSerializer {
    const pool: MemoryPool
    const writer: TextFormatter

    constructor (pool: MemoryPool, writer: TextFormatter)
      ensures this.pool == pool && this.writer == writer
    {
      this.pool := pool;
      this.writer := writer;
    }

    /** writeInteger on a type of `k` bytes. */
    method WriteInteger(value: nat, k: nat)
      requires k == 1 || k == 2 || k == 4 || k == 8
      modifies writer
      ensures writer.output == old(writer.output) + BigEndian(value, k)
    {
      hide BigEndian, LittleEndian;
      var memory := LittleEndian(value, k);
      var bytes := new Byte[k](i requires 0 <= i < |memory| => memory[i]);
      FixEndianess(bytes);
      forall i | 0 <= i < k ensures bytes[i] == BigEndian(value, k)[i] {
        BigIsLittleReversed(value, k, i);
      }
      assert bytes[..] == BigEndian(value, k);
      writer.WriteRaw(bytes[..]);
    }

    method VisitSignedInteger(n: int)
      requires FitsInteger(n, true)
      modifies writer
      ensures writer.output == old(writer.output) + EncodeInt(n)
    {
      hide BigEndian;
      if n > 0 {
        VisitUnsignedInteger(n);
      } else if n >= -0x20 {
        writer.WriteRaw([TwosComplement(n, 1)]);
      } else if n >= -0x80 {
        writer.WriteRaw([0xD0]);
        WriteInteger(TwosComplement(n, 1), 1);
      } else if n >= -0x8000 {
        writer.WriteRaw([0xD1]);
        WriteInteger(TwosComplement(n, 2), 2);
      } else if n >= -0x8000_0000 {
        writer.WriteRaw([0xD2]);
        WriteInteger(TwosComplement(n, 4), 4);
      } else {
        writer.WriteRaw([0xD3]);
        WriteInteger(TwosComplement(n, 8), 8);
      }
    }

    method VisitUnsignedInteger(n: nat)
      requires FitsInteger(n, false)
      modifies writer
      ensures writer.output == old(writer.output) + EncodeInt(n)
    {
      hide BigEndian;
      if n <= 0x7F {
        writer.WriteRaw([n]);
      } else if n <= 0xFF {
        writer.WriteRaw([0xCC]);
        WriteInteger(n, 1);
      } else if n <= 0xFFFF {
        writer.WriteRaw([0xCD]);
        WriteInteger(n, 2);
      } else if n <= 0xFFFF_FFFF {
        writer.WriteRaw([0xCE]);
        WriteInteger(n, 4);
      } else {
        writer.WriteRaw([0xCF]);
        WriteInteger(n, 8);
      }
    }

    method VisitString(value: Bytes)
      requires |value| < SIZE_LIMIT
      modifies writer
      ensures writer.output == old(writer.output) + EncodeString(value)
    {
      hide StringHeader;
      WriteStringHeader(|value|);
      writer.WriteRaw(value);
    }

    method WriteStringHeader(n: nat)
      requires n < SIZE_LIMIT
      modifies writer
      ensures writer.output == old(writer.output) + StringHeader(n)
    {
      hide BigEndian;
      if n < 0x20 {
        writer.WriteRaw([0xA0 + n]);
      } else if n < 0x100 {
        writer.WriteRaw([0xD9]);
        WriteInteger(n, 1);
      } else if n < 0x1_0000 {
        writer.WriteRaw([0xDA]);
        WriteInteger(n, 2);
      } else {
        writer.WriteRaw([0xDB]);
        WriteInteger(n, 4);
      }
    }

    method WriteHeader(fix: Byte, wide: Byte, n: nat)
      requires n < SIZE_LIMIT && fix <= 0xF0 && wide < 0xFF
      modifies writer
      ensures writer.output == old(writer.output) + CollectionHeader(fix, wide, n)
    {
      hide BigEndian;
      if n < 0x10 {
        writer.WriteRaw([fix + n]);
      } else if n < 0x1_0000 {
        writer.WriteRaw([wide]);
        WriteInteger(n, 2);
      } else {
        writer.WriteRaw([wide + 1]);
        WriteInteger(n, 4);
      }
    }

    /** accept, for the encoder. */
    method Visit(at: int, ghost sh: Shape, ghost v: Value)
      requires pool.Valid() && Holds(pool, at, sh, v) && Encodable(v)
      modifies writer
      ensures writer.output == old(writer.output) + Encode(v)
      decreases sh, 2
    {
      hide MemoryPool.Valid, MemoryPool.Chars, Apart, KidDenotes, EncodeElems, EncodeMembers, EncodeInt;
      hide EncodeString, CollectionHeader;
      var c := pool.cells[at].content;
      if c.NullContent? {
        writer.WriteRaw([0xC0]);
      } else if c.BoolContent? {
        writer.WriteRaw(if c.b then [0xC3] else [0xC2]);
      } else if c.IntContent? {
        if c.signed {
          VisitSignedInteger(c.n);
        } else {
          VisitUnsignedInteger(c.n);
        }
      } else if c.Collection? {
        var n := Size(pool, at, sh, v);
        if c.isObject {
          WriteHeader(FIX_OBJECT, OBJECT_16, n);
        } else {
          WriteHeader(FIX_ARRAY, ARRAY_16, n);
        }
        VisitSlots(at, sh, v);
      } else {
        var text := ReadText(pool, c, sh, v.s);
        VisitString(text);
      }
    }

    /** The loops of visitArray and visitObject over the slots. */
    method VisitSlots(at: int, ghost sh: Shape, ghost v: Value)
      requires pool.Valid() && Holds(pool, at, sh, v) && Encodable(v) && IsNested(v)
      modifies writer
      ensures writer.output == old(writer.output) + if v.Arr? then EncodeElems(v.elems) else EncodeMembers(v.members)
      decreases sh, 1
    {
      hide MemoryPool.Valid, MemoryPool.Chars, Tree, EncodeFrom, EncodeKid, EncodeElems, EncodeMembers;
      HeldHead(pool, at, sh, v);
      EncodeAll(v);
      var slot := pool.cells[at].content.head;
      ghost var i := 0;
      while slot != NULL
        invariant 0 <= i <= Arity(v) && slot == if i < Arity(v) then sh.kids[i].addr else NULL
        invariant writer.output + EncodeFrom(v, i) == old(writer.output) + EncodeFrom(v, 0)
        decreases Arity(v) - i
      {
        HeldSlot(pool, at, sh, v, i);
        EncodeUnfold(v, i);
        VisitSlot(slot, sh, v, i);
        slot := NextOf(slot, pool.cells[slot]);
        i := i + 1;
      }
      if i < Arity(v) {
        HeldSlot(pool, at, sh, v, i);
      }
      assert writer.output + [] == writer.output;
    }

    method VisitSlot(slot: int, ghost sh: Shape, ghost v: Value, ghost i: nat)
      requires pool.Valid() && IsNested(v) && i < Arity(v) && |sh.kids| == Arity(v) && Encodable(v)
      requires slot in pool.cells && ChildKey(pool.Mem(), pool.cells[slot].key, v, i)
      requires Holds(pool, slot, sh.kids[i].sub, Child(v, i))
      modifies writer
      ensures writer.output == old(writer.output) + EncodeKid(v, i)
      decreases sh, 0
    {
      hide MemoryPool.Valid, MemoryPool.Chars, Encode, EncodeString, Tree;
      var key := pool.cells[slot].key;
      if key != NoKey {
        var text := ReadKey(pool, key, v.members[i].key);
        VisitString(text);
      }
      Visit(slot, sh.kids[i].sub, Child(v, i));
    }
  }

  function EncodeKid(v: Value, i: nat): Bytes
    requires IsNested(v) && i < Arity(v) && Encodable(v)
  {
    if v.Arr? then Encode(v.elems[i]) else EncodeMember(v.members[i])
  }

  function EncodeFrom(v: Value, i: nat): Bytes
    requires IsNested(v) && i <= Arity(v) && Encodable(v)
  {
    if v.Arr? then EncodeElems(v.elems[i..]) else EncodeMembers(v.members[i..])
  }

  lemma EncodeUnfold(v: Value, i: nat)
    requires IsNested(v) && i < Arity(v) && Encodable(v)
    ensures EncodeFrom(v, i) == EncodeKid(v, i) + EncodeFrom(v, i + 1)
  {
  }

  lemma EncodeAll(v: Value)
    requires IsNested(v) && Encodable(v)
    ensures EncodeFrom(v, 0) == (if v.Arr? then EncodeElems(v.elems) else EncodeMembers(v.members))
    ensures EncodeFrom(v, Arity(v)) == []
  {
  }
}
