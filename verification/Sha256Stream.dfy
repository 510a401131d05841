/**
  The incremental SHA-256 of scryptjane/scrypt-jane-hash_sha256.h: shift-register rounds, and a
  buffer that lets a message arrive in pieces.
 */
module Sha256Stream {
  import opened WordBits
  import opened Bytes
  import opened Sha256
  import opened Sha256Message

  const TWO64 := 0x1_0000_0000_0000_0000

  /** STEP: every working variable is moved, unlike in algo/sha2.c. */
  method Step(r: array<Word32>, i: nat, w: Word32)
    requires r.Length == 8 && i < 64
    modifies r
    ensures r[..] == Round(old(r[..]), K(i), w)
  {
    hide Plus, Ch, Maj, ChCode, MajStream, BigSigma0, BigSigma1, K, RotR;
    ghost var v := r[..];
    var t1 := Plus(BigSigma0(r[0]), MajStream(r[0], r[1], r[2]));
    var t0 := Plus(Plus(Plus(Plus(r[7], BigSigma1(r[4])), ChCode(r[4], r[5], r[6])), K(i)), w);
    assert t0 == T1(v, K(i), w) && t1 == T2(v) by {
      BooleanForms(v[0], v[1], v[2]);
      BooleanForms(v[4], v[5], v[6]);
    }
    hide T1, T2;
    r[7] := r[6];
    r[6] := r[5];
    r[5] := r[4];
    r[4] := Plus(r[3], t0);
    r[3] := r[2];
    r[2] := r[1];
    r[1] := r[0];
    r[0] := Plus(t0, t1);
  }

  /** The rounds of one block. */
  method Steps(r: array<Word32>, w: array<Word32>)
    requires r.Length == 8 && w.Length == 64 && r != w
    modifies r
    ensures r[..] == Rounds(old(r[..]), old(w[..]), 0, 64)
  {
    hide Round, K;
    var i := 0;
    while i < 64
      invariant 0 <= i <= 64 && w[..] == old(w[..])
      invariant r[..] == Rounds(old(r[..]), old(w[..]), 0, i)
    {
      Step(r, i, w[i]);
      i := i + 1;
    }
  }

  /** The schedule of block c of the input. */
  method Expand(w: array<Word32>, input: seq<Byte>, c: nat)
    requires w.Length == 64 && BLOCK * c + BLOCK <= |input|
    modifies w
    ensures w[..] == FullSchedule(BlockWords(input, c))
  {
    hide Plus, SmallSigma0, SmallSigma1, BeWord, Bits;
    ghost var m := BlockWords(input, c);
    var i := 0;
    while i < 16
      invariant 0 <= i <= 16
      invariant forall t :: 0 <= t < i ==> w[t] == m[t]
    {
      w[i] := Bits(BeWord(input, BLOCK * c + 4 * i));
      i := i + 1;
    }
    while i < 64
      invariant 16 <= i <= 64
      invariant forall t :: 0 <= t < i ==> w[t] == Schedule(m, t)
    {
      w[i] := Plus(Plus(Plus(SmallSigma1(w[i - 2]), w[i - 7]), SmallSigma0(w[i - 15])), w[i - 16]);
      i := i + 1;
    }
  }

  /** The loop that adds the chaining value and stores the sum in both places. */
  method Feed(r: array<Word32>, h: array<Word32>)
    requires r.Length == h.Length == 8 && r != h
    modifies r, h
    ensures h[..] == r[..] == AddState(old(h[..]), old(r[..]))
  {
    hide Plus;
    var i := 0;
    while i < 8
      invariant 0 <= i <= 8
      invariant forall t :: 0 <= t < i ==> h[t] == r[t] == Plus(old(h[t]), old(r[t]))
      invariant forall t :: i <= t < 8 ==> h[t] == old(h[t]) && r[t] == old(r[t])
    {
      PlusCommutes(r[i], h[i]);
      r[i] := Plus(r[i], h[i]);
      h[i] := r[i];
      i := i + 1;
    }
  }

  /** scrypt_hash_state */
  class State {
    const h: array<Word32>
    var bits: nat
    var leftover: nat
    const buffer: array<Byte>

    /** The first c blocks of m have been compressed. */
    ghost predicate Chained(m: seq<Byte>, c: nat)
      reads this, h
    {
      && h.Length == 8 && buffer.Length == BLOCK && BLOCK * c <= |m|
      && bits == 512 * c % TWO64 && h[..] == HashBlocks(Init(), m, c)
    }

    /** The state after absorbing m, however it was cut up: all its full blocks have been
        compressed and the buffer holds the rest. */
    ghost predicate Holds(m: seq<Byte>)
      reads this, h, buffer
    {
      var c := |m| / BLOCK;
      && Chained(m, c) && leftover == |m| - BLOCK * c && buffer[..leftover] == m[BLOCK * c..]
    }

    /** scrypt_hash_init */
    constructor ()
      ensures Holds([]) && fresh(h) && fresh(buffer)
    {
      bits, leftover := 0, 0;
      var init := Init();
      var a := new Word32[8](k requires 0 <= k < 8 => init[k]);
      h := a;
      buffer := new Byte[BLOCK](_ => 0);
      new;
      assert h[..] == init;
    }

    /** sha256_blocks */
    method Blocks(input: seq<Byte>, count: nat)
      requires h.Length == 8 && BLOCK * count <= |input| && bits < TWO64
      modifies h, this`bits
      ensures h[..] == HashBlocks(old(h[..]), input, count)
      ensures bits == (old(bits) + 512 * count) % TWO64
    {
      hide Rounds, FullSchedule, BlockWords;
      var r := new Word32[8](k requires 0 <= k < 8 reads h => h[k]);
      assert h[..] == old(h[..]);
      assert r[..] == h[..];
      var w := new Word32[64];
      var i := 0;
      while i < count
        invariant 0 <= i <= count && fresh(r) && fresh(w)
        invariant r[..] == h[..] == HashBlocks(old(h[..]), input, i)
        invariant bits == (old(bits) + 512 * i) % TWO64
        modifies r, w, h, this`bits
      {
        Expand(w, input, i);
        Steps(r, w);
        Feed(r, h);
        bits := (bits + 512) % TWO64;
        i := i + 1;
      }
    }

    /** memcpy into the buffer at position at. */
    method Store(at: nat, input: seq<Byte>)
      requires buffer.Length == BLOCK && at + |input| <= BLOCK
      modifies buffer
      ensures buffer[..at] == old(buffer[..at])
      ensures buffer[at..at + |input|] == input
      ensures buffer[at + |input|..] == old(buffer[at + |input|..])
    {
      var i := 0;
      while i < |input|
        invariant 0 <= i <= |input|
        invariant forall k :: 0 <= k < i ==> buffer[at + k] == input[k]
        invariant forall k :: 0 <= k < at ==> buffer[k] == old(buffer[k])
        invariant forall k :: at + i <= k < BLOCK ==> buffer[k] == old(buffer[k])
      {
        buffer[at + i] := input[i];
        i := i + 1;
      }
    }

    /** Compressing the blocks x behind the c blocks already compressed. */
    method Chain(x: seq<Byte>, count: nat, ghost m: seq<Byte>, ghost c: nat)
      requires Chained(m, c) && |m| == BLOCK * c && BLOCK * count <= |x|
      modifies h, this`bits
      ensures Chained(m + x, c + count)
    {
      hide HashBlocks, Init;
      assert bits < TWO64;
      Blocks(x, count);
      HashBlocksJoin(Init(), m, c, x, count);
      assert bits == 512 * (c + count) % TWO64 by {
        BitCount(c, BLOCK * count);
      }
    }

    /** The part of scrypt_hash_update behind "handle the current data": whole blocks are
        compressed from the input, the rest is kept. */
    method Absorb(input: seq<Byte>, ghost m: seq<Byte>, ghost c: nat)
      requires Chained(m, c) && |m| == BLOCK * c
      modifies h, buffer, this`bits, this`leftover
      ensures Holds(m + input)
    {
      hide HashBlocks;
      var count := |input| / BLOCK;
      leftover := |input| - BLOCK * count;
      Chain(input, count, m, c);
      var rest := input[BLOCK * count..];
      ghost var now := m + input;
      assert now[BLOCK * (c + count)..] == rest;
      if leftover > 0 {
        Store(0, rest);
        assert buffer[..leftover] == buffer[0..0 + leftover];
      }
      assert |now| / BLOCK == c + count;
    }

    /** Input that completes the block in the buffer, which is then compressed. */
    method Complete(chunk: seq<Byte>, ghost m: seq<Byte>)
      requires Holds(m) && |chunk| == BLOCK - leftover
      modifies h, buffer, this`bits
      ensures Chained(m + chunk, |m| / BLOCK + 1) && |m + chunk| == BLOCK * (|m| / BLOCK + 1)
    {
      hide HashBlocks;
      ghost var c := |m| / BLOCK;
      ghost var front := m[..BLOCK * c];
      HashBlocksPrefix(Init(), m, front, c);
      ghost var held := buffer[..leftover];
      Store(leftover, chunk);
      assert buffer[..] == buffer[..leftover] + buffer[leftover..leftover + |chunk|];
      assert front + buffer[..] == m + chunk;
      Chain(buffer[..], 1, front, c);
    }

    /** Input that does not fill the buffer. */
    method Keep(chunk: seq<Byte>, ghost m: seq<Byte>)
      requires Holds(m) && |chunk| < BLOCK - leftover
      modifies buffer, this`leftover
      ensures Holds(m + chunk)
    {
      hide HashBlocks;
      ghost var c, now := |m| / BLOCK, m + chunk;
      assert now[..BLOCK * c] == m[..BLOCK * c];
      HashBlocksPrefix(Init(), m, now, c);
      Store(leftover, chunk);
      assert buffer[..leftover + |chunk|] == buffer[..leftover] + buffer[leftover..leftover + |chunk|];
      assert now[BLOCK * c..] == m[BLOCK * c..] + chunk;
      assert |now| / BLOCK == c;
      leftover := leftover + |chunk|;
    }

    /** scrypt_hash_update: the state depends on what was absorbed, not on how it was cut up. */
    method Update(input: seq<Byte>, ghost m: seq<Byte>)
      requires Holds(m)
      modifies h, buffer, this`bits, this`leftover
      ensures Holds(m + input)
    {
      hide HashBlocks;
      if leftover > 0 {
        var want := BLOCK - leftover;
        if |input| < want {
          Keep(input, m);
        } else {
          assert m + input == m + input[..want] + input[want..];
          ghost var c := |m| / BLOCK + 1;
          Complete(input[..want], m);
          Absorb(input[want..], m + input[..want], c);
        }
      } else {
        Absorb(input, m, |m| / BLOCK);
      }
    }

    /** Fills the buffer from position at on and compresses it. */
    method Close(at: nat, x: seq<Byte>, y: seq<Byte>, ghost front: seq<Byte>, ghost c: nat)
      requires Chained(front, c) && |front| == BLOCK * c
      requires at + |x| + |y| == BLOCK
      modifies h, buffer, this`bits
      ensures Chained(front + (old(buffer[..at]) + x + y), c + 1)
    {
      hide HashBlocks;
      Store(at, x);
      ghost var first := buffer[..at + |x|];
      assert first == buffer[..at] + buffer[at..at + |x|];
      Store(at + |x|, y);
      assert buffer[..] == first + buffer[at + |x|..at + |x| + |y|];
      Chain(buffer[..], 1, front, c);
    }

    /** scrypt_hash_finish: the blocks compressed are those of the padded message. */
    method Finish(ghost m: seq<Byte>) returns (hash: seq<Byte>)
      requires Holds(m)
      modifies h, buffer, this`bits
      ensures hash == Digest(m)
    {
      hide HashBlocks, BeBytes, LengthField, Pad, BlockCount, AllNum, WordBytes;
      ghost var c := |m| / BLOCK;
      ghost var front, rest := m[..BLOCK * c], m[BLOCK * c..];
      assert m == front + rest;
      HashBlocksPrefix(Init(), m, front, c);
      var t := (bits + 8 * leftover) % TWO64;
      BitCount(c, leftover);
      LengthFieldIs(|m|, t);
      if leftover <= 55 {
        PadShort(front, rest, c);
        Close(leftover, [0x80] + Zeros(55 - leftover), BeBytes(t, 8), front, c);
      } else {
        PadLong(front, rest, c);
        Close(leftover, [0x80] + Zeros(63 - leftover), [], front, c);
        ghost var full := front + (rest + ([0x80] + Zeros(63 - leftover)) + []);
        Close(0, Zeros(56), BeBytes(t, 8), full, c + 1);
        assert buffer[..0] == [];
      }
      hash := WordBytes(AllNum(h[..]));
    }
  }

  lemma BitCount(c: nat, left: nat)
    ensures (512 * c % TWO64 + 8 * left) % TWO64 == 8 * (BLOCK * c + left) % TWO64
  {
  }

  lemma LengthFieldIs(n: nat, t: nat)
    requires t == 8 * n % TWO64
    ensures LengthField(n) == BeBytes(t, 8)
  {
  }

  /** The padding fits into the block the message ends in. */
  lemma PadShort(front: seq<Byte>, rest: seq<Byte>, c: nat)
    requires |front| == BLOCK * c && |rest| <= 55
    ensures var m := front + rest;
            && BlockCount(|m|) == c + 1
            && Pad(m) == front + (rest + ([0x80] + Zeros(55 - |rest|)) + LengthField(|m|))
  {
  }

  /** The padding takes a block more. */
  lemma PadLong(front: seq<Byte>, rest: seq<Byte>, c: nat)
    requires |front| == BLOCK * c && 55 < |rest| < BLOCK
    ensures var m := front + rest;
            && BlockCount(|m|) == c + 2
            && Pad(m) == front + (rest + ([0x80] + Zeros(63 - |rest|)) + []) + ([] + Zeros(56) + LengthField(|m|))
  {
  }

  /** A message fed in pieces: the digest is that of FIPS 180-4 for the whole message. */
  method HashPieces(pieces: seq<seq<Byte>>) returns (hash: seq<Byte>)
    ensures hash == Digest(Concat(pieces))
  {
    hide Digest, HashBlocks, Init;
    var s := new State();
    var i := 0;
    assert pieces[..0] == [];
    while i < |pieces|
      invariant 0 <= i <= |pieces| && fresh(s) && fresh(s.h) && fresh(s.buffer)
      invariant s.Holds(Concat(pieces[..i]))
    {
      s.Update(pieces[i], Concat(pieces[..i]));
      assert pieces[..i + 1][..i] == pieces[..i];
      i := i + 1;
    }
    assert pieces[..i] == pieces;
    hash := s.Finish(Concat(pieces));
  }
}
