/**
  SHA-256 of byte strings: padding and parsing (FIPS 180-4, sections 5.1.1, 5.2.1 and 6.2.2).
 */
module Sha256Message {
  import opened Words
  import opened WordBits
  import opened Bytes
  import opened Sha256

  const BLOCK := 64

  /** The big-endian word at byte p. */
  function BeWord(m: seq<Byte>, p: nat): Word
    requires p + 4 <= |m|
  {
    var a: int, b: int, c: int, d: int := m[p], m[p + 1], m[p + 2], m[p + 3];
    0x100_0000 * a + 0x1_0000 * b + 0x100 * c + d
  }

  function BlockWords(m: seq<Byte>, c: nat): (w: seq<Word32>)
    requires BLOCK * c + BLOCK <= |m|
    ensures |w| == 16
    ensures forall i :: 0 <= i < 16 ==> w[i] == Bits(BeWord(m, BLOCK * c + 4 * i))
  {
    seq(16, i requires 0 <= i < 16 => Bits(BeWord(m, BLOCK * c + 4 * i)))
  }

  /** The chaining value after the first c blocks of m. */
  function HashBlocks(h: seq<Word32>, m: seq<Byte>, c: nat): (r: seq<Word32>)
    requires |h| == 8 && BLOCK * c <= |m|
    ensures |r| == 8
  {
    if c == 0 then h else Compress(HashBlocks(h, m, c - 1), BlockWords(m, c - 1))
  }

  /** The bytes of a number, most significant first. */
  function BeBytes(x: nat, n: nat): (b: seq<Byte>)
    ensures |b| == n
  {
    if n == 0 then [] else BeBytes(x / 256, n - 1) + [x % 256]
  }

  /** The length field: the message's length in bits, in 64 bits. */
  function LengthField(n: nat): (b: seq<Byte>)
    ensures |b| == 8
  {
    BeBytes(8 * n % 0x1_0000_0000_0000_0000, 8)
  }

  /** The least number of zero bytes that lets the length field end a block. */
  function ZeroCount(n: nat): (k: nat)
    ensures k < BLOCK && (n + 1 + k) % BLOCK == BLOCK - 8
  {
    if n % BLOCK <= 55 then 55 - n % BLOCK else 119 - n % BLOCK
  }

  function Pad(m: seq<Byte>): (p: seq<Byte>)
    ensures |p| == BLOCK * BlockCount(|m|)
  {
    m + [0x80] + Zeros(ZeroCount(|m|)) + LengthField(|m|)
  }

  /** The number of blocks of a padded message of n bytes. */
  function BlockCount(n: nat): (c: nat)
    ensures BLOCK * c == n + 9 + ZeroCount(n)
  {
    n / BLOCK + if n % BLOCK <= 55 then 1 else 2
  }

  function Hash(m: seq<Byte>): (h: seq<Word32>)
    ensures |h| == 8
  {
    HashBlocks(Init(), Pad(m), BlockCount(|m|))
  }

  function WordBytes(ws: seq<Word>): (b: seq<Byte>)
    ensures |b| == 4 * |ws|
  {
    if ws == [] then [] else WordBytes(ws[..|ws| - 1]) + BeBytes(ws[|ws| - 1], 4)
  }

  /** The message digest. */
  function Digest(m: seq<Byte>): (d: seq<Byte>)
    ensures |d| == 32
  {
    WordBytes(AllNum(Hash(m)))
  }

  // ---- Facts

  lemma PadLayout(m: seq<Byte>)
    ensures var n, p := |m|, Pad(m);
            && (forall i :: 0 <= i < n ==> p[i] == m[i]) && p[n] == 0x80
            && (forall i :: n < i < |p| - 8 ==> p[i] == 0)
            && p[|p| - 8..] == LengthField(n)
  {
  }

  /** Blocks with the same bytes have the same words. */
  lemma BlockWordsEqual(m: seq<Byte>, c: nat, m': seq<Byte>, c': nat)
    requires BLOCK * c + BLOCK <= |m| && BLOCK * c' + BLOCK <= |m'|
    requires m[BLOCK * c..BLOCK * c + BLOCK] == m'[BLOCK * c'..BLOCK * c' + BLOCK]
    ensures BlockWords(m, c) == BlockWords(m', c')
  {
    hide Bits;
    forall i | 0 <= i < 16
      ensures BeWord(m, BLOCK * c + 4 * i) == BeWord(m', BLOCK * c' + 4 * i)
    {
      var x, y := m[BLOCK * c..BLOCK * c + BLOCK], m'[BLOCK * c'..BLOCK * c' + BLOCK];
      assert x[4 * i] == y[4 * i] && x[4 * i + 1] == y[4 * i + 1] && x[4 * i + 2] == y[4 * i + 2] && x[4 * i + 3] == y[4 * i + 3];
    }
  }

  /** The first c blocks determine the chaining value after them. */
  lemma {:induction false} HashBlocksPrefix(h: seq<Word32>, m: seq<Byte>, m': seq<Byte>, c: nat)
    requires |h| == 8 && BLOCK * c <= |m| && BLOCK * c <= |m'|
    requires m[..BLOCK * c] == m'[..BLOCK * c]
    ensures HashBlocks(h, m, c) == HashBlocks(h, m', c)
  {
    hide Compress, BlockWords;
    if c > 0 {
      var p, p' := m[..BLOCK * c], m'[..BLOCK * c];
      assert m[..BLOCK * (c - 1)] == p[..BLOCK * (c - 1)] == m'[..BLOCK * (c - 1)];
      assert m[BLOCK * (c - 1)..BLOCK * (c - 1) + BLOCK] == p[BLOCK * (c - 1)..] == m'[BLOCK * (c - 1)..BLOCK * (c - 1) + BLOCK];
      HashBlocksPrefix(h, m, m', c - 1);
      BlockWordsEqual(m, c - 1, m', c - 1);
    }
  }

  /** Hashing whole blocks and then more blocks is hashing them together. */
  lemma {:induction false} HashBlocksJoin(h: seq<Word32>, m: seq<Byte>, c: nat, x: seq<Byte>, d: nat)
    requires |h| == 8 && |m| == BLOCK * c && BLOCK * d <= |x|
    ensures HashBlocks(HashBlocks(h, m, c), x, d) == HashBlocks(h, m + x, c + d)
  {
    hide Compress, BlockWords;
    if d == 0 {
      assert (m + x)[..BLOCK * c] == m[..BLOCK * c];
      HashBlocksPrefix(h, m, m + x, c);
    } else {
      HashBlocksJoin(h, m, c, x, d - 1);
      var e := c + d - 1;
      assert (m + x)[BLOCK * e..BLOCK * e + BLOCK] == x[BLOCK * (d - 1)..BLOCK * (d - 1) + BLOCK];
      BlockWordsEqual(m + x, e, x, d - 1);
    }
  }

  lemma BeBytes4(x: Word)
    ensures BeBytes(x, 4) == [x / 0x100_0000, x / 0x1_0000 % 256, x / 256 % 256, x % 256]
    ensures BeWord(BeBytes(x, 4), 0) == x
  {
    assert x / 256 / 256 == x / 0x1_0000 && x / 0x1_0000 / 256 == x / 0x100_0000;
    assert BeBytes(x / 0x100_0000, 1) == [x / 0x100_0000 % 256];
    assert BeBytes(x / 0x1_0000, 2) == BeBytes(x / 0x100_0000, 1) + [x / 0x1_0000 % 256];
    assert BeBytes(x / 256, 3) == BeBytes(x / 0x1_0000, 2) + [x / 256 % 256];
  }

  /** Decoding undoes encoding. */
  lemma {:induction false} WordBytesWord(ws: seq<Word>, i: nat)
    requires i < |ws|
    ensures BeWord(WordBytes(ws), 4 * i) == ws[i]
  {
    hide BeBytes;
    var n := |ws| - 1;
    var b, rest, last := WordBytes(ws), WordBytes(ws[..n]), BeBytes(ws[n], 4);
    assert b == rest + last;
    if i < n {
      WordBytesWord(ws[..n], i);
    } else {
      BeBytes4(ws[n]);
    }
  }

  /** The length field of a message shorter than 2^28 bytes, as two words. */
  lemma ShortLength(n: nat)
    requires n < 0x1000_0000
    ensures BeWord(LengthField(n), 0) == 0
    ensures BeWord(LengthField(n), 4) == 8 * n
  {
    hide *;
    ShortLengthField(n, 8 * n);
    LowBytes(8 * n);
    BeBytes4(8 * n);
    BeWordBehindZeros(BeBytes(8 * n, 4));
  }

  lemma ShortLengthField(n: nat, x: Word)
    requires x == 8 * n
    ensures LengthField(n) == BeBytes(x, 8)
  {
    hide BeBytes;
  }

  lemma BeWordBehindZeros(b: seq<Byte>)
    requires |b| == 4
    ensures BeWord([0, 0, 0, 0] + b, 0) == 0
    ensures BeWord([0, 0, 0, 0] + b, 4) == BeWord(b, 0)
  {
  }

  lemma LowBytes(x: Word)
    ensures BeBytes(x, 8) == [0, 0, 0, 0] + BeBytes(x, 4)
  {
    assert x / 256 / 256 / 256 / 256 == 0;
    assert BeBytes(0, 2) == BeBytes(0, 1) + [0] && BeBytes(0, 1) == BeBytes(0, 0) + [0];
    assert BeBytes(0, 4) == BeBytes(0, 3) + [0] && BeBytes(0, 3) == BeBytes(0, 2) + [0];
    var y, z, u := x / 256, x / 256 / 256, x / 256 / 256 / 256;
    assert BeBytes(u, 5) == BeBytes(0, 4) + [u % 256] && BeBytes(u, 1) == BeBytes(0, 0) + [u % 256];
    assert BeBytes(z, 6) == BeBytes(u, 5) + [z % 256] && BeBytes(z, 2) == BeBytes(u, 1) + [z % 256];
    assert BeBytes(y, 7) == BeBytes(z, 6) + [y % 256] && BeBytes(y, 3) == BeBytes(z, 2) + [y % 256];
  }
}
