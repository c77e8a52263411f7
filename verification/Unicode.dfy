/** Escaped characters: hexadecimal digits, UTF-16 code units, UTF-8 output and the
    one-letter escapes. */
module Unicode {
  import opened Values

  /** decodeHex: a byte below 'A' (65), or with the sign bit set, is taken from '0';
      any other has bit 5 cleared and is taken from 'A'. So the characters up to '?' pass for
      digits, and '`' for a 9. */
  function DecodeHex(c: Byte): (d: Byte)
    ensures d <= 0x0F <==> 48 <= c <= 63 || 65 <= c <= 70 || 96 <= c <= 102
  {
    if c < 65 || c >= 128 then (c - 48) % 256
    else ((if (c / 32) % 2 == 1 then c - 32 else c) - 65 + 10) % 256
  }

  predicate IsHighSurrogate(unit: nat) { 0xD800 <= unit < 0xDC00 }

  predicate IsLowSurrogate(unit: nat) { 0xDC00 <= unit < 0xE000 }

  /** The code point that a code unit completes after the high surrogate bits `high`. */
  function Codepoint(high: nat, unit: nat): (cp: nat)
    requires high < 0x400 && unit < 0x1_0000
    ensures cp < 0x110000
  {
    if IsLowSurrogate(unit) then 0x10000 + high * 0x400 + unit % 0x400 else unit
  }

  /** UTF-8 as the table of section 3 of RFC 3629 defines it, for one code point. */
  function Utf8(cp: nat): (r: Bytes)
    requires cp < 0x110000
    ensures 1 <= |r| <= 4
  {
    if cp < 0x80 then [cp]
    else if cp < 0x800 then [0xC0 + cp / 64, 0x80 + cp % 64]
    else if cp < 0x10000 then [0xE0 + cp / 4096, 0x80 + cp / 64 % 64, 0x80 + cp % 64]
    else [0xF0 + cp / 262144, 0x80 + cp / 4096 % 64, 0x80 + cp / 64 % 64, 0x80 + cp % 64]
  }

  /** The letter that escapes `c` after a backslash when printing, or 0. */
  function EscapeChar(c: Byte): Byte {
    if c == 34 || c == 92 then c
    else if c == 8 then 98
    else if c == 12 then 102
    else if c == 10 then 110
    else if c == 13 then 114
    else if c == 9 then 116
    else 0
  }

  /** The byte that the escape letter `c` stands for, or 0. */
  function UnescapeChar(c: Byte): Byte {
    if c == 47 || c == 34 || c == 92 then c
    else if c == 98 then 8
    else if c == 102 then 12
    else if c == 110 then 10
    else if c == 114 then 13
    else if c == 116 then 9
    else 0
  }

  // ---- The table of escapes ----

  const ESCAPE_TABLE: Bytes := [47, 47, 34, 34, 92, 92, 98, 8, 102, 12, 110, 10, 114, 13, 116, 9, 0]

  /** escapeChar: the scan of the table, which starts after its first pair. */
  method ScanForByte(c: Byte) returns (letter: Byte)
    ensures letter == EscapeChar(c)
  {
    var p := 2;
    while ESCAPE_TABLE[p] != 0 && ESCAPE_TABLE[p + 1] != c
      invariant 2 <= p <= 16 && p % 2 == 0
      invariant forall i :: 1 <= i && 2 * i < p ==> ESCAPE_TABLE[2 * i + 1] != c
      decreases 16 - p
    {
      assert ESCAPE_TABLE[2 * (p / 2) + 1] != c;
      p := p + 2;
    }
    if p == 16 {
      assert ESCAPE_TABLE[2 * 1 + 1] != c && ESCAPE_TABLE[2 * 2 + 1] != c && ESCAPE_TABLE[2 * 3 + 1] != c;
      assert ESCAPE_TABLE[2 * 4 + 1] != c && ESCAPE_TABLE[2 * 5 + 1] != c && ESCAPE_TABLE[2 * 6 + 1] != c;
      assert ESCAPE_TABLE[2 * 7 + 1] != c;
    }
    return ESCAPE_TABLE[p];
  }

  /** unescapeChar: the scan of the whole table. */
  method ScanForLetter(c: Byte) returns (b: Byte)
    ensures b == UnescapeChar(c)
  {
    var p := 0;
    while true
      invariant 0 <= p <= 16 && p % 2 == 0
      invariant forall i :: 0 <= i && 2 * i < p ==> ESCAPE_TABLE[2 * i] != c
      decreases 16 - p
    {
      if ESCAPE_TABLE[p] == 0 {
        assert ESCAPE_TABLE[2 * 0] != c && ESCAPE_TABLE[2 * 1] != c && ESCAPE_TABLE[2 * 2] != c
          && ESCAPE_TABLE[2 * 3] != c;
        assert ESCAPE_TABLE[2 * 4] != c && ESCAPE_TABLE[2 * 5] != c && ESCAPE_TABLE[2 * 6] != c
          && ESCAPE_TABLE[2 * 7] != c;
        return 0;
      }
      if ESCAPE_TABLE[p] == c {
        return ESCAPE_TABLE[p + 1];
      }
      assert ESCAPE_TABLE[2 * (p / 2)] != c;
      p := p + 2;
    }
  }
}
