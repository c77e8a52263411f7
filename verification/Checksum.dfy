/** The Internet checksum of RFC 1071, as the raw TCP sender computes it on a little-endian
    machine. */
module InternetChecksum {
  import opened Values

  type Word = w: int | 0 <= w < 0x1_0000

  const UNSIGNED_RANGE: nat := 0x1_0000_0000

  /** The most words whose sum always fits an unsigned int. */
  const MAX_WORDS: nat := 65537

  /** The word that a little-endian machine reads from two bytes. */
  function WordOf(low: Byte, high: Byte): Word {
    var l: int, h: int := low, high;
    l + 256 * h
  }

  /** The 16-bit words of a buffer; a last odd byte is padded with zero. */
  function Words(s: Bytes): (ws: seq<Word>)
    ensures |ws| == (|s| + 1) / 2
  {
    if s == [] then []
    else if |s| == 1 then [s[0]]
    else [WordOf(s[0], s[1])] + Words(s[2..])
  }

  function Sum(ws: seq<Word>): nat {
    if ws == [] then 0 else ws[0] + Sum(ws[1..])
  }

  /** The value of `n` in 16-bit ones'-complement arithmetic: its residue modulo 0xFFFF,
      with zero only for zero. */
  function OnesComplement(n: nat): Word {
    if n == 0 then 0 else (n - 1) % 0xFFFF + 1
  }

  function Complement(w: Word): Word { 0xFFFF - w }

  // ---- The computation ----

  /** checksum: a 32-bit sum of the words, folded and inverted. */
  method Checksum(buf: Bytes) returns (r: Word)
    requires 0 < |buf| < UNSIGNED_RANGE
    ensures r == Complement(OnesComplement(Sum(Words(buf)) % UNSIGNED_RANGE))
    ensures |buf| <= 2 * MAX_WORDS ==> r == ChecksumOf(buf)
    ensures |buf| <= 131074 ==>
      (r + Weighted(buf, true)) % 65535 == 0 && (r == 65535 <==> Weighted(buf, true) == 0)
  {
    hide OnesComplement, Words, Sum;
    var sum := Accumulate(buf);
    if |buf| <= 2 * MAX_WORDS {
      SumFits(Words(buf));
      ChecksumIsResidue(buf);
    }
    var folded := Fold(sum);
    return 0xFFFF - folded;
  }

  /** The loop over the words, and the odd byte. */
  method Accumulate(buf: Bytes) returns (sum: nat)
    requires 0 < |buf| < UNSIGNED_RANGE
    ensures sum == Sum(Words(buf)) % UNSIGNED_RANGE
  {
    hide Words, Sum, WordOf;
    sum := 0;
    var i := 0;
    NoWords();
    assert buf[..0] == [];
    while i < |buf| - 1
      invariant 0 <= i <= |buf| && i % 2 == 0 && 0 <= sum < UNSIGNED_RANGE
      invariant sum == Sum(Words(buf[..i])) % UNSIGNED_RANGE
    {
      WordAdded(buf, i);
      var word16 := WordOf(buf[i], buf[i + 1]);
      AddModulo(Sum(Words(buf[..i])), word16);
      sum := (sum + word16) % UNSIGNED_RANGE;
      i := i + 2;
    }
    if |buf| % 2 == 1 {
      LastByteAdded(buf);
      AddModulo(Sum(Words(buf[..i])), buf[i]);
      sum := (sum + buf[i]) % UNSIGNED_RANGE;
    } else {
      assert buf[..i] == buf;
    }
  }

  /** Adds the carries back until there are none. */
  method Fold(total: nat) returns (sum: Word)
    requires total < UNSIGNED_RANGE
    ensures sum == OnesComplement(total)
  {
    hide OnesComplement;
    var n := total;
    while n / 0x1_0000 != 0
      invariant 0 <= n < UNSIGNED_RANGE && OnesComplement(n) == OnesComplement(total)
      decreases n
    {
      FoldStep(n);
      n := n % 0x1_0000 + n / 0x1_0000;
    }
    OnesComplementOfWord(n);
    return n;
  }

  lemma NoWords()
    ensures Sum(Words([])) == 0
  {
  }

  lemma AddModulo(total: nat, word: nat)
    ensures (total % UNSIGNED_RANGE + word) % UNSIGNED_RANGE == (total + word) % UNSIGNED_RANGE
  {
  }

  lemma {:induction false} WordsSplit(s: Bytes, i: nat)
    requires i <= |s| && i % 2 == 0
    ensures Words(s) == Words(s[..i]) + Words(s[i..])
    decreases i
  {
    hide Words;
    if i == 0 {
      assert s[0..] == s && s[..0] == [];
      assert Words([]) == [] by { NoWord(); }
    } else {
      WordsSplit(s[2..], i - 2);
      assert s[2..][..i - 2] == s[..i][2..] && s[2..][i - 2..] == s[i..];
      FirstWord(s);
      FirstWord(s[..i]);
    }
  }

  lemma NoWord()
    ensures Words([]) == []
  {
  }

  lemma FirstWord(s: Bytes)
    requires |s| >= 2
    ensures Words(s) == [WordOf(s[0], s[1])] + Words(s[2..])
  {
  }

  lemma WordAdded(s: Bytes, i: nat)
    requires i + 1 < |s| && i % 2 == 0
    ensures Sum(Words(s[..i + 2])) == Sum(Words(s[..i])) + WordOf(s[i], s[i + 1])
  {
    var t := s[..i + 2];
    WordsSplit(t, i);
    assert t[..i] == s[..i] && t[i..] == [s[i], s[i + 1]];
    assert Words(t[i..]) == [WordOf(s[i], s[i + 1])];
    SumOfBoth(Words(s[..i]), Words(t[i..]));
  }

  lemma LastByteAdded(s: Bytes)
    requires |s| % 2 == 1
    ensures Sum(Words(s)) == Sum(Words(s[..|s| - 1])) + s[|s| - 1]
  {
    var i := |s| - 1;
    WordsSplit(s, i);
    assert s[i..] == [s[i]];
    SumOfBoth(Words(s[..i]), Words(s[i..]));
  }

  lemma {:induction false} SumOfBoth(a: seq<Word>, b: seq<Word>)
    ensures Sum(a + b) == Sum(a) + Sum(b)
  {
    if a == [] {
      assert a + b == b;
    } else {
      SumOfBoth(a[1..], b);
      assert (a + b)[1..] == a[1..] + b;
    }
  }

  /** Folding once keeps the ones'-complement value. */
  lemma FoldStep(n: nat)
    requires n >= 0x1_0000
    ensures n % 0x1_0000 + n / 0x1_0000 < n
    ensures OnesComplement(n % 0x1_0000 + n / 0x1_0000) == OnesComplement(n)
  {
  }

  lemma SameResidue(a: nat, b: nat, k: nat)
    requires a > 0 && b == a + 0xFFFF * k
    ensures OnesComplement(a) == OnesComplement(b)
  {
  }

  lemma OnesComplementOfWord(n: nat)
    requires n < 0x1_0000
    ensures OnesComplement(n) == n
  {
  }

  // ---- The 32-bit sum ----

  lemma {:induction false} SumAtMost(ws: seq<Word>)
    ensures Sum(ws) <= 0xFFFF * |ws|
  {
    if ws != [] {
      SumAtMost(ws[1..]);
    }
  }

  lemma SumFits(ws: seq<Word>)
    requires |ws| <= MAX_WORDS
    ensures Sum(ws) < UNSIGNED_RANGE
  {
    SumAtMost(ws);
  }

  lemma {:induction false} SumOfOnes(n: nat)
    ensures Sum(seq(n, i => 0xFFFF)) == 0xFFFF * n
  {
    if n > 0 {
      SumOfOnes(n - 1);
      assert seq(n, i => 0xFFFF)[1..] == seq(n - 1, i => 0xFFFF);
    }
  }

  /** The sum of `n` words never wraps exactly when `n` is at most 65537. */
  lemma SumFitsExactly(n: nat)
    ensures (forall ws: seq<Word> :: |ws| == n ==> Sum(ws) < UNSIGNED_RANGE) <==> n <= MAX_WORDS
  {
    if n <= MAX_WORDS {
      forall ws: seq<Word> | |ws| == n ensures Sum(ws) < UNSIGNED_RANGE {
        SumFits(ws);
      }
    } else {
      var ones: seq<Word> := seq(n, i => 0xFFFF);
      SumOfOnes(n);
      assert |ones| == n && Sum(ones) >= UNSIGNED_RANGE;
    }
  }

  // ---- What a receiver checks ----

  /** The checksum of a buffer whose sum does not wrap. */
  function ChecksumOf(buf: Bytes): Word { Complement(OnesComplement(Sum(Words(buf)))) }

  /** A checksum of zero says exactly that the words add up to zero in ones'-complement
      arithmetic, with not every word zero. */
  lemma ZeroMeansMultiple(buf: Bytes)
    ensures ChecksumOf(buf) == 0 <==> Sum(Words(buf)) > 0 && Sum(Words(buf)) % 0xFFFF == 0
  {
    hide Sum, Words;
    MultipleOf(Sum(Words(buf)));
  }

  lemma MultipleOf(n: nat)
    ensures OnesComplement(n) == 0xFFFF <==> n > 0 && n % 0xFFFF == 0
  {
    if n > 0 {
      var q, r := (n - 1) / 0xFFFF, (n - 1) % 0xFFFF;
      assert n == 0xFFFF * q + (r + 1);
    }
  }

  /** The bytes, each weighted with 1 or 256 by its place in a word. */
  function Weighted(s: Bytes, low: bool): nat {
    if s == [] then 0 else (if low then s[0] as int else 256 * s[0] as int) + Weighted(s[1..], !low)
  }

  lemma {:induction false} SumIsWeighted(s: Bytes)
    ensures Sum(Words(s)) == Weighted(s, true)
    decreases |s|
  {
    if s == [] {
    } else if |s| == 1 {
      assert s[1..] == [];
      assert [s[0]][1..] == [];
    } else {
      SumIsWeighted(s[2..]);
      FirstWord(s);
      assert s[1..][1..] == s[2..];
    }
  }

  /** The checksum in plain arithmetic: with it the weighted bytes are a multiple of 65535, and
      it is 65535 only when they are zero. Only one 16-bit number is so. */
  lemma ChecksumIsResidue(buf: Bytes)
    ensures var total, r := Weighted(buf, true), ChecksumOf(buf);
      0 <= r <= 65535 && (r + total) % 65535 == 0 && (r == 65535 <==> total == 0)
  {
    SumIsWeighted(buf);
    ResidueOf(Weighted(buf, true));
  }

  lemma ResidueOf(n: nat)
    ensures var r := Complement(OnesComplement(n)); (r + n) % 65535 == 0 && (r == 65535 <==> n == 0)
  {
    if n > 0 {
      var q := (n - 1) / 65535;
      assert n == 65535 * q + (n - 1) % 65535 + 1;
      assert Complement(OnesComplement(n)) + n == 65535 * (q + 1);
    }
  }

  /** The word at even offset `at` replaced. */
  function Stored(buf: Bytes, at: nat, w: Word): Bytes
    requires at + 1 < |buf|
  {
    buf[at := w % 256][at + 1 := w / 256]
  }

  lemma StoredSum(buf: Bytes, at: nat, w: Word)
    requires at + 1 < |buf| && at % 2 == 0
    ensures Sum(Words(Stored(buf, at, w))) + WordOf(buf[at], buf[at + 1]) == Sum(Words(buf)) + w
  {
    var s := Stored(buf, at, w);
    WordsSplit(buf, at + 2);
    WordsSplit(s, at + 2);
    WordAdded(buf, at);
    WordAdded(s, at);
    assert s[..at] == buf[..at] && s[at + 2..] == buf[at + 2..];
    SumOfBoth(Words(buf[..at + 2]), Words(buf[at + 2..]));
    SumOfBoth(Words(s[..at + 2]), Words(s[at + 2..]));
  }

  /** A checksum computed over a zeroed field and stored there makes the checksum zero. */
  lemma StoredChecksumVerifies(buf: Bytes, at: nat)
    requires at + 1 < |buf| && at % 2 == 0 && buf[at] == 0 && buf[at + 1] == 0
    ensures ChecksumOf(Stored(buf, at, ChecksumOf(buf))) == 0
  {
    var n, c := Sum(Words(buf)), ChecksumOf(buf);
    StoredSum(buf, at, c);
    var total := n + c;
    var q := if n == 0 then 0 else (n - 1) / 0xFFFF;
    assert total == 0xFFFF * q + 0xFFFF;
    SameResidue(0xFFFF, total, q);
  }

  /** After that, another value in any one word goes unnoticed exactly when 0x0000 and 0xFFFF
      are exchanged, which are the same in ones'-complement arithmetic, and not every word is
      zero now. */
  lemma OneWordIsNoticed(buf: Bytes, at: nat, w: Word)
    requires at + 1 < |buf| && at % 2 == 0 && ChecksumOf(buf) == 0 && w != WordOf(buf[at], buf[at + 1])
    ensures ChecksumOf(Stored(buf, at, w)) == 0 <==>
      w % 0xFFFF == 0 && WordOf(buf[at], buf[at + 1]) % 0xFFFF == 0 && Sum(Words(Stored(buf, at, w))) > 0
  {
    hide ChecksumOf, Words, Sum, WordOf;
    StoredSum(buf, at, w);
    ZeroMeansMultiple(buf);
    ZeroMeansMultiple(Stored(buf, at, w));
    DifferentResidue(Sum(Words(buf)), Sum(Words(Stored(buf, at, w))), WordOf(buf[at], buf[at + 1]), w);
  }

  /** The words 0xFFFF, 0x0000 become 0xFFFF, 0xFFFF unnoticed, and these 0x0000, 0xFFFF; the
      one word 0xFFFF does not become 0x0000 unnoticed. */
  lemma ExchangedWords()
    ensures ChecksumOf([255, 255, 0, 0]) == 0
    ensures ChecksumOf(Stored([255, 255, 0, 0], 2, 0xFFFF)) == 0
    ensures ChecksumOf(Stored([255, 255, 255, 255], 0, 0)) == 0
    ensures ChecksumOf([255, 255]) == 0 && ChecksumOf(Stored([255, 255], 0, 0)) == 0xFFFF
  {
    assert Stored([255, 255, 0, 0], 2, 0xFFFF) == [255, 255, 255, 255];
    assert Stored([255, 255, 255, 255], 0, 0) == [0, 0, 255, 255];
    assert Stored([255, 255], 0, 0) == [0, 0];
    assert [255, 255, 0, 0][2..] == [0, 0] && [0, 0, 255, 255][2..] == [255, 255];
    assert [255, 255, 255, 255][2..] == [255, 255];
    assert Words([0, 0]) == [0] && Words([255, 255]) == [0xFFFF];
    assert Words([255, 255, 0, 0]) == [0xFFFF, 0] && Words([255, 255, 255, 255]) == [0xFFFF, 0xFFFF];
    assert Words([0, 0, 255, 255]) == [0, 0xFFFF];
  }

  lemma DifferentResidue(n: nat, m: nat, a: Word, b: Word)
    requires m + a == n + b && n % 0xFFFF == 0 && a != b
    ensures m % 0xFFFF == 0 <==> a % 0xFFFF == 0 && b % 0xFFFF == 0
  {
  }

  // ---- Byte order ----

  function Swap(w: Word): Word { w % 256 * 256 + w / 256 }

  function SwapBytes(s: Bytes): (r: Bytes)
    requires |s| % 2 == 0
    ensures |r| == |s|
  {
    if s == [] then [] else [s[1], s[0]] + SwapBytes(s[2..])
  }

  /** 2^16 is one modulo 0xFFFF, so swapping multiplies by 2^8. */
  lemma {:induction false} SwappedSum(s: Bytes) returns (k: int)
    requires |s| % 2 == 0
    ensures Sum(Words(SwapBytes(s))) == 256 * Sum(Words(s)) - 0xFFFF * k
    ensures Sum(Words(s)) == 0 <==> Sum(Words(SwapBytes(s))) == 0
  {
    if s == [] {
      k := 0;
    } else {
      k := SwappedSum(s[2..]);
      var high: int := s[1];
      k := k + high;
      assert SwapBytes(s)[2..] == SwapBytes(s[2..]);
      assert Words(SwapBytes(s)) == [WordOf(s[1], s[0])] + Words(SwapBytes(s[2..]));
    }
  }

  lemma SwappedResidue(n: nat, m: nat, k: int)
    requires m == 256 * n - 0xFFFF * k && (n == 0 <==> m == 0)
    ensures OnesComplement(m) == Swap(OnesComplement(n))
  {
    if n > 0 {
      var q, r := (n - 1) / 0xFFFF, (n - 1) % 0xFFFF + 1;
      var swapped := Swap(r);
      assert r == r % 256 + 256 * (r / 256);
      assert swapped == 256 * r - 0xFFFF * (r / 256);
      assert m - swapped == 0xFFFF * (256 * q - k + r / 256);
      var d := 256 * q - k + r / 256;
      assert 1 <= swapped <= 0xFFFF;
      assert d >= 0;
      SameResidue(swapped, m, d);
      OnesComplementOfWord(swapped);
    }
  }

  /** The checksum does not depend on the byte order of the machine: on swapped words it is
      the swapped checksum. */
  lemma ChecksumOfSwapped(s: Bytes)
    requires |s| % 2 == 0
    ensures ChecksumOf(SwapBytes(s)) == Swap(ChecksumOf(s))
  {
    hide Words, Sum, OnesComplement, SwapBytes, Swap;
    var k := SwappedSum(s);
    SwappedResidue(Sum(Words(s)), Sum(Words(SwapBytes(s))), k);
    SwapComplement(OnesComplement(Sum(Words(s))));
  }

  lemma SwapComplement(w: Word)
    ensures Complement(Swap(w)) == Swap(Complement(w))
  {
    var c := Complement(w);
    assert c == 256 * (255 - w / 256) + (255 - w % 256);
    assert c / 256 == 255 - w / 256 && c % 256 == 255 - w % 256;
  }
}
