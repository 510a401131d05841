/**
  sha256d of algo/sha2.c: SHA-256 applied twice to a whole message, padded on the fly.
 */
module Sha256OneShot {
  import opened Words
  import opened WordBits
  import opened Bytes
  import opened Sha256
  import opened Sha256Message
  import MiningKernel
  import ScanHash
  import Limbs
  import BaseUintHex
  import BaseUintShift
  import Base58

  /** Byte i of the padded message, without its length field. */
  function Marked(data: seq<Byte>, i: nat): Byte
  {
    if i < |data| then data[i] else if i == |data| then 0x80 else 0
  }

  /** The bytes gathered for one block: memset, memcpy and the byte behind the message. */
  method Gather(b: array<Byte>, data: seq<Byte>, r: int, ghost c: nat)
    requires b.Length == BLOCK && r == |data| - BLOCK * c && -9 < r
    modifies b
    ensures forall k :: 0 <= k < BLOCK ==> b[k] == Marked(data, BLOCK * c + k)
  {
    var i := 0;
    if r < 64 {
      while i < 64
        invariant 0 <= i <= 64
        invariant forall k :: 0 <= k < i ==> b[k] == 0
      {
        b[i] := 0;
        i := i + 1;
      }
    }
    var n := if r > 64 then 64 else if r < 0 then 0 else r;
    i := 0;
    while i < n
      invariant 0 <= i <= n
      invariant forall k :: 0 <= k < i ==> b[k] == data[|data| - r + k]
      invariant r < 64 ==> forall k :: i <= k < 64 ==> b[k] == 0
    {
      b[i] := data[|data| - r + i];
      i := i + 1;
    }
    if 0 <= r < 64 {
      b[r] := 0x80;
    }
  }

  /** Outside the length field the padded message is what is gathered. */
  lemma PaddedBytes(data: seq<Byte>, i: nat)
    requires i < |Pad(data)| - 8
    ensures Pad(data)[i] == Marked(data, i)
  {
  }

  /** A block before the last one. */
  lemma InnerBlock(data: seq<Byte>, b: seq<Byte>, c: nat)
    requires |b| == BLOCK && |data| - BLOCK * c >= 56
    requires forall k :: 0 <= k < BLOCK ==> b[k] == Marked(data, BLOCK * c + k)
    ensures c + 1 < BlockCount(|data|)
    ensures BlockWords(b, 0) == BlockWords(Pad(data), c)
  {
    hide Bits;
  }

  /** The last block, whose last word is overwritten with the number of bits. */
  lemma LastBlock(data: seq<Byte>, b: seq<Byte>, c: nat)
    requires |b| == BLOCK && -9 < |data| - BLOCK * c < 56 && |data| < 0x1000_0000
    requires forall k :: 0 <= k < BLOCK ==> b[k] == Marked(data, BLOCK * c + k)
    ensures c + 1 == BlockCount(|data|)
    ensures BlockWords(b, 0)[15 := Bits(8 * |data|)] == BlockWords(Pad(data), c)
  {
    assert c + 1 == BlockCount(|data|);
    var p := Pad(data);
    assert forall k :: 56 <= k < BLOCK ==> b[k] == 0;
    hide Pad, Marked, BlockCount, Bits;
    forall k | 0 <= k < 56 ensures b[k] == p[BLOCK * c + k] {
      PaddedBytes(data, BLOCK * c + k);
    }
    PadLayout(data);
    ShortLength(|data|);
    LastWords(p, b, c, LengthField(|data|));
  }

  lemma LastWords(p: seq<Byte>, b: seq<Byte>, c: nat, len: seq<Byte>)
    requires |b| == BLOCK && |p| == BLOCK * c + BLOCK && |len| == 8
    requires forall k :: 0 <= k < 56 ==> b[k] == p[BLOCK * c + k]
    requires forall k :: 56 <= k < BLOCK ==> b[k] == 0
    requires p[|p| - 8..] == len && BeWord(len, 0) == 0
    ensures BlockWords(p, c) == BlockWords(b, 0)[15 := Bits(BeWord(len, 4))]
  {
    hide Bits;
  }

  /** One iteration's block: gathered, decoded and, if it is the last, given the bit count. */
  method LoadBlock(b: array<Byte>, data: seq<Byte>, r: int, ghost c: nat) returns (t: seq<Word32>)
    requires b.Length == BLOCK && r == |data| - BLOCK * c && -9 < r && |data| < 0x1000_0000
    modifies b
    ensures c < BlockCount(|data|) && (r < 56 <==> c + 1 == BlockCount(|data|))
    ensures t == BlockWords(Pad(data), c)
  {
    hide Pad, Marked, BlockCount, BeWord, Bits;
    Gather(b, data, r, c);
    t := [];
    var i := 0;
    while i < 16
      invariant 0 <= i <= 16 && t == BlockWords(b[..], 0)[..i]
    {
      t := t + [Bits(BeWord(b[..], 4 * i))];
      i := i + 1;
    }
    if r < 56 {
      LastBlock(data, b[..], c);
      t := t[15 := Bits(8 * |data|)];
    } else {
      InnerBlock(data, b[..], c);
    }
  }

  /** The words of a padded message that consists of words. */
  function PaddedWord(ws: seq<Word>, i: nat): Word
    requires |ws| < 0x400_0000
  {
    if i < |ws| then ws[i]
    else if i == |ws| then 0x8000_0000
    else if i == 16 * BlockCount(4 * |ws|) - 1 then 32 * |ws|
    else 0
  }

  lemma WordPadding(ws: seq<Word>, i: nat)
    requires |ws| < 0x400_0000 && i < 16 * BlockCount(4 * |ws|)
    ensures BeWord(Pad(WordBytes(ws)), 4 * i) == PaddedWord(ws, i)
  {
    hide Pad, WordBytes, BlockCount, LengthField;
    var d := WordBytes(ws);
    PadLayout(d);
    if i < |ws| {
      WordBytesWord(ws, i);
      WordCopied(Pad(d), 4 * i, d, 4 * i);
    } else if i >= 16 * BlockCount(4 * |ws|) - 2 {
      LengthWords(d, Pad(d));
    }
  }

  lemma LengthWords(d: seq<Byte>, p: seq<Byte>)
    requires |d| < 0x1000_0000 && |p| >= 8 && p[|p| - 8..] == LengthField(|d|)
    ensures BeWord(p, |p| - 8) == 0 && BeWord(p, |p| - 4) == 8 * |d|
  {
    hide BeWord, LengthField;
    var len := LengthField(|d|);
    assert forall k :: 0 <= k < 8 ==> p[|p| - 8 + k] == p[|p| - 8..][k] == len[k];
    WordCopied(p, |p| - 8, len, 0);
    WordCopied(p, |p| - 4, len, 4);
    ShortLength(|d|);
  }

  lemma WordCopied(x: seq<Byte>, i: nat, y: seq<Byte>, j: nat)
    requires i + 4 <= |x| && j + 4 <= |y|
    requires x[i] == y[j] && x[i + 1] == y[j + 1] && x[i + 2] == y[j + 2] && x[i + 3] == y[j + 3]
    ensures BeWord(x, i) == BeWord(y, j)
  {
  }

  /** Word i of block c of a padded message that consists of words. */
  lemma BlockOfWords(ws: seq<Word>, p: seq<Byte>, c: nat, i: nat)
    requires |ws| < 0x400_0000 && c < BlockCount(4 * |ws|) && p == Pad(WordBytes(ws)) && i < 16
    ensures BlockWords(p, c)[i] == Bits(PaddedWord(ws, 16 * c + i))
  {
    hide Pad, WordBytes, BlockCount, BeWord, PaddedWord, LengthField, ZeroCount, Bits;
    var k := 16 * c + i;
    WordPadding(ws, k);
    assert 4 * k == BLOCK * c + 4 * i;
  }

  lemma HashStep(h: seq<Word32>, m: seq<Byte>, c: nat)
    requires |h| == 8 && BLOCK * c + BLOCK <= |m|
    ensures HashBlocks(h, m, c + 1) == Compress(HashBlocks(h, m, c), BlockWords(m, c))
    ensures c == 0 ==> HashBlocks(h, m, c) == h
  {
  }

  /** The block the second hash compresses is the padded digest of the first. */
  lemma RehashedDigest(s: seq<Word32>, d: seq<Byte>)
    requires |s| == 8 && d == WordBytes(AllNum(s))
    ensures Hash(d) == MiningKernel.Rehash(s)
  {
    DigestBlock(s, d);
    hide Compress, WordBytes, Init, Pad, BlockWords, BlockCount, HashBlocks, AllNum;
    HashStep(Init(), Pad(d), 0);
  }

  lemma DigestBlock(s: seq<Word32>, d: seq<Byte>)
    requires |s| == 8 && d == WordBytes(AllNum(s))
    ensures BlockCount(|d|) == 1 && BlockWords(Pad(d), 0) == s + MiningKernel.DIGEST_PADDING
  {
    hide WordBytes, BlockWords, Pad, BlockCount, Bits, Num, AllNum, PaddedWord, BeWord, LengthField, ZeroCount, BeBytes;
    BlockCounts();
    forall i | 0 <= i < 16
      ensures BlockWords(Pad(d), 0)[i] == (s + MiningKernel.DIGEST_PADDING)[i]
    {
      BlockOfWords(AllNum(s), Pad(d), 0, i);
      DigestWord(s, i);
    }
  }

  lemma BlockCounts()
    ensures BlockCount(32) == 1 && BlockCount(80) == 2
  {
  }

  lemma HeaderLength(data: seq<Word>)
    requires ScanHash.PaddedHeader(data)
    ensures |data| == 32
  {
  }

  lemma DigestWord(s: seq<Word32>, i: nat)
    requires |s| == 8 && i < 16
    ensures Bits(PaddedWord(AllNum(s), i)) == (s + MiningKernel.DIGEST_PADDING)[i]
  {
    hide Bits, Num;
    PaddingBits();
    BlockCounts();
    if i < 8 {
      BitsOfNum(s[i]);
    }
  }

  lemma HeaderWord(data: seq<Word>, i: nat)
    requires ScanHash.PaddedHeader(data) && i < 32
    ensures PaddedWord(data[..20], i) == data[i]
  {
    BlockCounts();
  }

  lemma HeaderBlock(data: seq<Word>, p: seq<Byte>, c: nat)
    requires ScanHash.PaddedHeader(data) && c < 2 && p == Pad(WordBytes(data[..20])) && |p| == BLOCK * 2
    ensures BlockWords(p, c) == AllBits(data[16 * c..16 * c + 16])
  {
    hide WordBytes, BlockWords, Pad, BlockCount, Bits, PaddedWord, BeWord, ScanHash.PaddedHeader;
    HeaderLength(data);
    BlockCounts();
    forall i | 0 <= i < 16
      ensures BlockWords(p, c)[i] == AllBits(data[16 * c..16 * c + 16])[i]
    {
      BlockOfWords(data[..20], p, c, i);
      HeaderWord(data, 16 * c + i);
    }
  }

  lemma HeaderBlocks(data: seq<Word>, header: seq<Byte>)
    requires ScanHash.PaddedHeader(data) && header == WordBytes(data[..20])
    ensures BlockCount(|header|) == 2
    ensures BlockWords(Pad(header), 0) == AllBits(data[..16]) && BlockWords(Pad(header), 1) == AllBits(data[16..])
  {
    hide *;
    HeaderLength(data);
    BlockCounts();
    HeaderBlock(data, Pad(header), 0);
    HeaderBlock(data, Pad(header), 1);
    assert data[16 * 0..16 * 0 + 16] == data[..16] && data[16 * 1..16 * 1 + 16] == data[16..];
  }

  lemma HeaderHash(data: seq<Word>, header: seq<Byte>)
    requires ScanHash.PaddedHeader(data) && header == WordBytes(data[..20])
    ensures Hash(header) == Compress(Compress(Init(), AllBits(data[..16])), AllBits(data[16..]))
  {
    HeaderBlocks(data, header);
    hide Compress, WordBytes, Init, Pad, BlockWords, BlockCount, HashBlocks, ScanHash.PaddedHeader, AllBits;
    HashStep(Init(), Pad(header), 0);
    HashStep(Init(), Pad(header), 1);
  }

  /** The double hash the nonce search is about is SHA-256 applied twice to the header's bytes. */
  lemma HeaderDigest(data: seq<Word>, header: seq<Byte>)
    requires ScanHash.PaddedHeader(data) && header == WordBytes(data[..20])
    ensures ScanHash.DoubleHash(data) == Hash(Digest(header))
  {
    HeaderHash(data, header);
    hide Hash, Compress, WordBytes, Init, MiningKernel.Rehash, ScanHash.PaddedHeader, AllBits, AllNum;
    RehashedDigest(Hash(header), Digest(header));
  }

  // ---- The length field

  lemma {:induction false} BeBytesValue(x: nat, n: nat)
    requires x < Pow256(n)
    ensures Base58.BeBytes(BeBytes(x, n)) == x
    decreases n
  {
    if n > 0 {
      BeBytesValue(x / 256, n - 1);
      var b := BeBytes(x, n);
      assert b[..n - 1] == BeBytes(x / 256, n - 1);
    }
  }

  /** Read as a big-endian number, the length field is the message's length in bits modulo 2^64. */
  lemma LengthFieldValue(n: nat)
    ensures Base58.BeBytes(LengthField(n)) == 8 * n % 0x1_0000_0000_0000_0000
  {
    assert Pow256(8) == 0x1_0000_0000_0000_0000;
    BeBytesValue(8 * n % 0x1_0000_0000_0000_0000, 8);
  }

  // ---- The proof-of-work rule

  /** Limbs made of byte-swapped words hold the number whose little-endian bytes the words are. */
  lemma {:induction false} SwappedLimbs(ws: seq<Word>)
    ensures Limbs.Value(ScanHash.SwapAll(ws)) == LeValue(WordBytes(ws))
  {
    hide Swab32, BeBytes;
    if ws != [] {
      var n := |ws| - 1;
      var front, last := ws[..n], ws[n];
      SwappedLimbs(front);
      assert ScanHash.SwapAll(ws) == ScanHash.SwapAll(front) + [Swab32(last)];
      BaseUintShift.ValueConcat(ScanHash.SwapAll(front), [Swab32(last)]);
      LeConcat(WordBytes(front), BeBytes(last, 4));
      Base58.Pow256OfLimbs(0, n);
      SwappedWord(last);
    }
  }

  lemma SwappedWord(x: Word)
    ensures LeValue(BeBytes(x, 4)) == Swab32(x)
    ensures Limbs.Value([Swab32(x)]) == Swab32(x)
  {
    BeBytes4(x);
    hide BeBytes;
    var b := BeBytes(x, 4);
    BaseUintHex.PrependFour(b, []);
    assert b + [] == b;
    hide Swab32;
    assert [Swab32(x)][1..] == [];
  }

  /** A nonce solves a header exactly if the header's 80 bytes with that nonce, hashed twice with
      SHA-256 and read as a little-endian number, are at most the target. */
  lemma ProofOfWork(data: seq<Word>, n: Word, target: seq<Word>, header: seq<Byte>)
    requires ScanHash.PaddedHeader(data) && |target| == 8
    requires header == WordBytes(data[19 := n][..20])
    ensures ScanHash.Solves(data, n, target) <==> LeValue(Digest(Digest(header))) <= Limbs.Value(target)
  {
    var data': seq<Word> := data[19 := n];
    assert ScanHash.PaddedHeader(data') by {
      assert data'[16..] == data[16..][3 := n];
    }
    hide Hash, WordBytes, Swab32, LeValue, Limbs.Value, ScanHash.DoubleHash, ScanHash.PaddedHeader, AllNum;
    HeaderDigest(data', header);
    SwappedLimbs(AllNum(ScanHash.DoubleHash(data')));
  }

  lemma {:induction false} LeConcat(x: seq<Byte>, y: seq<Byte>)
    ensures LeValue(x + y) == LeValue(x) + Pow256(|x|) * LeValue(y)
  {
    if x == [] {
      assert x + y == y;
    } else {
      assert (x + y)[1..] == x[1..] + y;
      LeConcat(x[1..], y);
      LeStep(x[0], LeValue(x[1..]), Pow256(|x| - 1), LeValue(y));
    }
  }

  lemma LeStep(b: nat, v: nat, p: nat, u: nat)
    ensures b + 256 * (v + p * u) == (b + 256 * v) + (256 * p) * u
  {
  }

  /** sha256d: the digest of the digest, for every message the int arithmetic can count. */
  method DoubleDigest(data: seq<Byte>) returns (hash: seq<Byte>)
    requires |data| < 0x1000_0000
    ensures hash == Digest(Digest(data))
  {
    hide Compress, BlockWords, BlockCount, Pad, WordBytes, AllNum;
    var init := Init();
    hide Init;
    var s := new Word32[16](_ => W(0));
    var b := new Byte[BLOCK](_ => 0);
    ScanHash.CopyInto(s, init);
    ghost var c := 0;
    var r := |data|;
    while r > -9
      invariant r == |data| - BLOCK * c && c <= BlockCount(|data|)
      invariant r > -9 <==> c < BlockCount(|data|)
      invariant s[..8] == HashBlocks(init, Pad(data), c)
    {
      var t := LoadBlock(b, data, r, c);
      Transform(s, t, false);
      r := r - 64;
      c := c + 1;
    }
    RehashedDigest(s[..8], WordBytes(AllNum(s[..8])));
    var block := s[..8] + MiningKernel.DIGEST_PADDING;
    var t := new Word32[16](_ => W(0));
    ScanHash.CopyInto(t, init);
    Transform(t, block, false);
    hash := WordBytes(AllNum(t[..8]));
  }
}
