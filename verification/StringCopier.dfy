/** Strings under construction in the pool's free zone. */
module Copier {
  import opened Values
  import opened Heap
  import opened Unicode
  import opened Pool

  class StringCopier {
    const pool: MemoryPool
    var ptr: nat
    var size: nat
    var capacity: nat

    constructor (pool: MemoryPool)
      ensures this.pool == pool
    {
      this.pool := pool;
      ptr, size, capacity := 0, 0, 0;
    }

    /** The string starts at the free zone and stays inside it, with room for a terminator:
        it overlaps neither the saved strings nor the slots. */
    ghost predicate Building()
      reads this, pool, pool.buf
      ensures Building() ==> pool.Valid()
    {
      && pool.Valid()
      && ptr == pool.left && ptr + capacity == pool.right
      && (size < capacity || (size == capacity == 0 && pool.overflowed))
    }

    /** The characters appended so far. */
    ghost function Text(): (r: Bytes)
      requires Building()
      reads this, pool, pool.buf
      ensures |r| == size
    {
      pool.buf[ptr - pool.begin..ptr + size - pool.begin]
    }

    method StartString()
      requires pool.Valid()
      modifies this, pool`overflowed
      ensures Building() && Text() == [] && pool.Chars() == old(pool.Chars())
      ensures pool.overflowed == (old(pool.overflowed) || Free(pool) == 0)
    {
      ptr, capacity, size := pool.left, pool.right - pool.left, 0;
      if capacity == 0 {
        pool.MarkAsOverflowed();
      }
    }

    /** Appends a character, or marks the pool as overflowed when the terminator would not fit. */
    method Append(c: Byte)
      requires Building()
      modifies this`size, pool`overflowed, pool.buf
      ensures Building() && pool.Chars() == old(pool.Chars())
      ensures pool.overflowed == (old(pool.overflowed) || Free(pool) <= |old(Text())| + 1)
      ensures !pool.overflowed ==> Text() == old(Text()) + [c]
    {
      if size + 1 < capacity {
        pool.buf[ptr + size - pool.begin] := c;
        size := size + 1;
      } else {
        pool.MarkAsOverflowed();
      }
    }

    /** Saves the string in the pool and returns its address. */
    method Save() returns (data: int)
      requires Building() && !pool.overflowed
      modifies pool`left, pool.buf
      ensures pool.Valid() && data != NULL && StringAt(pool.Mem(), data, old(Text()))
      ensures pool.Chars() == Pool.Save(old(pool.Chars()), old(Text()))
      ensures Free(pool) + |old(Text())| + 1 >= old(Free(pool))
    {
      hide StringAt, Pool.Save;
      data := pool.SaveStringFromFreeZone(size);
    }

    /** Terminates the string in place and reads it as a C string. */
    method Str() returns (key: Bytes)
      requires Building() && !pool.overflowed
      modifies pool.buf
      ensures Building() && Text() == old(Text()) && pool.Chars() == old(pool.Chars())
      ensures key == CStr(Text())
    {
      hide CStr, MemoryPool.SlotsLaid;
      pool.buf[ptr + size - pool.begin] := 0;
      key := CStr(pool.buf[ptr - pool.begin..ptr + size - pool.begin]);
    }

    /** Utf8::encodeCodepoint: the bytes are built in reverse in a buffer closed by 0.
        `(x | 0x80) & 0xBF` keeps the low six bits of `x` and sets the top one. */
    method EncodeCodepoint(codepoint: nat)
      requires Building() && codepoint < 0x110000
      modifies this`size, pool`overflowed, pool.buf
      ensures Building() && pool.Chars() == old(pool.Chars())
      ensures pool.overflowed == (old(pool.overflowed) || Free(pool) <= |old(Text())| + |Utf8(codepoint)|)
      ensures !pool.overflowed ==> Text() == old(Text()) + Utf8(codepoint)
    {
      hide Building, Text, MemoryPool.Valid, MemoryPool.Chars;
      if codepoint < 0x80 {
        Append(codepoint);
        return;
      }
      var reversed: seq<Byte> := [0, 0x80 + codepoint % 64];
      var rest := codepoint / 64;
      if rest < 0x20 {
        reversed := reversed + [0xC0 + rest];
      } else {
        reversed := reversed + [0x80 + rest % 64];
        rest := rest / 64;
        if rest < 0x10 {
          reversed := reversed + [0xE0 + rest];
        } else {
          reversed := reversed + [0x80 + rest % 64];
          rest := rest / 64;
          reversed := reversed + [0xF0 + rest];
        }
      }
      var n := |reversed| - 1;
      ReversedUtf8(codepoint, reversed);
      var p := n;
      ghost var text := Text();
      while reversed[p] != 0
        invariant 0 <= p <= n && Building() && pool.Chars() == old(pool.Chars())
        invariant pool.overflowed == (old(pool.overflowed) || (p < n && Free(pool) <= |text| + n - p))
        invariant !pool.overflowed ==> Text() == text + Utf8(codepoint)[..n - p]
        decreases p
      {
        Append(reversed[p]);
        p := p - 1;
      }
      assert p == 0;
      assert Utf8(codepoint)[..n] == Utf8(codepoint);
    }
  }

  /** The buffer holds a terminator and then the UTF-8 bytes, last first, none of them 0. */
  lemma ReversedUtf8(codepoint: nat, reversed: seq<Byte>)
    requires 0x80 <= codepoint < 0x110000
    requires
      var a, b, c := codepoint % 64, codepoint / 64, codepoint / 64 / 64;
      reversed == [0, 0x80 + a] +
        (if b < 0x20 then [0xC0 + b]
         else if c < 0x10 then [0x80 + b % 64, 0xE0 + c]
         else [0x80 + b % 64, 0x80 + c % 64, 0xF0 + c / 64])
    ensures |reversed| == |Utf8(codepoint)| + 1 && reversed[0] == 0
    ensures forall i :: 0 < i < |reversed| ==> reversed[i] == Utf8(codepoint)[|reversed| - 1 - i] != 0
  {
  }

  /** Utf16::Codepoint */
  class CodepointBuilder {
    var highSurrogate: nat
    var codepoint: nat

    constructor ()
      ensures highSurrogate == 0 && codepoint == 0
    {
      highSurrogate, codepoint := 0, 0;
    }

    /** Takes a code unit; true when it completes a code point. */
    method Append(unit: nat) returns (complete: bool)
      requires highSurrogate < 0x400 && unit < 0x1_0000
      modifies this
      ensures highSurrogate < 0x400 && complete == !IsHighSurrogate(unit)
      ensures highSurrogate == if complete then old(highSurrogate) else unit % 0x400
      ensures complete ==> codepoint == Codepoint(highSurrogate, unit)
    {
      if IsHighSurrogate(unit) {
        highSurrogate := unit % 0x400;
        return false;
      }
      if IsLowSurrogate(unit) {
        codepoint := 0x10000 + (highSurrogate * 0x400 + unit % 0x400);
        return true;
      }
      codepoint := unit;
      return true;
    }
  }
}
