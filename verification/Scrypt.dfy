/**
  scrypt's BlockMix and ROMix: the definitions of sections 4 and 5 of RFC 7914, and the in-place
  ChunkMix and ROMix of scryptjane/scrypt-jane-romix-template.h, for any block mixing function.
 */
module Scrypt {
  import opened Words
  import Limbs
  import opened BitOps

  /** Four consecutive 32-bit words of a block; one SSE2 register. */
  datatype Row = Row(a: bv32, b: bv32, c: bv32, d: bv32)

  /** A 64-byte block: words 0..3, 4..7, 8..11 and 12..15. */
  datatype Block = Block(r0: Row, r1: Row, r2: Row, r3: Row)

  /** A chunk of 2 * r blocks. */
  type Chunk = seq<Block>

  function Xor32(x: bv32, y: bv32): bv32
  {
    x ^ y
  }

  function XorRow(x: Row, y: Row): Row
  {
    Row(Xor32(x.a, y.a), Xor32(x.b, y.b), Xor32(x.c, y.c), Xor32(x.d, y.d))
  }

  function Xor(x: Block, y: Block): Block
  {
    Block(XorRow(x.r0, y.r0), XorRow(x.r1, y.r1), XorRow(x.r2, y.r2), XorRow(x.r3, y.r3))
  }

  lemma Xor32Associates(x: bv32, y: bv32, z: bv32)
    ensures Xor32(Xor32(x, y), z) == Xor32(x, Xor32(y, z))
  {
  }

  lemma XorRowAssociates(x: Row, y: Row, z: Row)
    ensures XorRow(XorRow(x, y), z) == XorRow(x, XorRow(y, z))
  {
    hide Xor32;
    Xor32Associates(x.a, y.a, z.a);
    Xor32Associates(x.b, y.b, z.b);
    Xor32Associates(x.c, y.c, z.c);
    Xor32Associates(x.d, y.d, z.d);
  }

  lemma XorAssociates(x: Block, y: Block, z: Block)
    ensures Xor(Xor(x, y), z) == Xor(x, Xor(y, z))
  {
    hide XorRow;
    XorRowAssociates(x.r0, y.r0, z.r0);
    XorRowAssociates(x.r1, y.r1, z.r1);
    XorRowAssociates(x.r2, y.r2, z.r2);
    XorRowAssociates(x.r3, y.r3, z.r3);
  }

  function XorChunk(a: Chunk, b: Chunk): (c: Chunk)
    requires |a| == |b|
    ensures |c| == |a|
    ensures forall i :: 0 <= i < |a| ==> c[i] == Xor(a[i], b[i])
  {
    seq(|a|, i requires 0 <= i < |a| => Xor(a[i], b[i]))
  }

  // ---- RFC 7914, section 4: scryptBlockMix

  /** Y[i]: the running block X after step i. */
  function Y(mix: Block -> Block, b: Chunk, i: nat): Block
    requires i < |b|
  {
    mix(Xor(if i == 0 then b[|b| - 1] else Y(mix, b, i - 1), b[i]))
  }

  /** The even-numbered Y first, then the odd-numbered ones. */
  function BlockMix(mix: Block -> Block, b: Chunk): (r: Chunk)
    requires |b| % 2 == 0
    ensures |r| == |b|
    ensures forall k :: 0 <= k < |b| ==> r[k] == MixedBlock(mix, b, k)
  {
    seq(|b|, k requires 0 <= k < |b| => MixedBlock(mix, b, k))
  }

  function MixedBlock(mix: Block -> Block, b: Chunk, k: nat): Block
    requires |b| % 2 == 0 && k < |b|
  {
    if k < |b| / 2 then Y(mix, b, 2 * k) else Y(mix, b, 2 * (k - |b| / 2) + 1)
  }

  /** Section 4 of RFC 7914 without the intermediate Y: each output block, taken in the order even
      positions of the first half, odd ones of the second, comes from mixing the one before it (the
      last input block at the start) with the next input block. */
  lemma BlockMixChain(mix: Block -> Block, b: Chunk, r: nat, i: nat)
    requires |b| == 2 * r && i < 2 * r
    ensures var out := BlockMix(mix, b);
            var before := if i == 0 then b[2 * r - 1] else out[if i % 2 == 0 then r + i / 2 - 1 else i / 2];
            out[if i % 2 == 0 then i / 2 else r + i / 2] == mix(Xor(before, b[i]))
  {
    hide Xor;
  }

  // ---- RFC 7914, section 5: scryptROMix

  /** V[i]: i applications of BlockMix. */
  function V(mix: Block -> Block, b: Chunk, i: nat): (r: Chunk)
    requires |b| % 2 == 0
    ensures |r| == |b|
  {
    if i == 0 then b else BlockMix(mix, V(mix, b, i - 1))
  }

  function Limb(x: bv32): Word
  {
    x as int
  }

  function RowLimbs(r: Row): seq<Word>
  {
    [Limb(r.a), Limb(r.b), Limb(r.c), Limb(r.d)]
  }

  /** Word 0 of a block. */
  function FirstWord(b: Block): Word
  {
    Limb(b.r0.a)
  }

  function BlockLimbs(b: Block): (r: seq<Word>)
    ensures |r| == 16 && r[0] == FirstWord(b)
  {
    RowLimbs(b.r0) + RowLimbs(b.r1) + RowLimbs(b.r2) + RowLimbs(b.r3)
  }

  /** The last block of a chunk as a little-endian number. */
  function Integerify(x: Chunk): nat
    requires |x| > 0
  {
    Limbs.Value(BlockLimbs(x[|x| - 1]))
  }

  /** X after i steps of the second loop. */
  function Loop(mix: Block -> Block, b: Chunk, n: nat, i: nat): (r: Chunk)
    requires |b| % 2 == 0 && |b| > 0 && n > 0
    ensures |r| == |b|
    decreases i
  {
    if i == 0 then V(mix, b, n)
    else
      var x := Loop(mix, b, n, i - 1);
      BlockMix(mix, XorChunk(x, V(mix, b, Integerify(x) % n)))
  }

  function RoMix(mix: Block -> Block, b: Chunk, n: nat): (r: Chunk)
    requires |b| % 2 == 0 && |b| > 0 && n > 0
    ensures |r| == |b|
  {
    Loop(mix, b, n, n)
  }

  /** Section 5 of RFC 7914 as one sequence of chunks x: the first N steps apply BlockMix, the next
      N apply it to x[i] xor that chunk of the first N that Integerify selects. */
  ghost predicate IsTrace(mix: Block -> Block, b: Chunk, n: nat, x: seq<Chunk>)
  {
    && |b| % 2 == 0 && |b| > 0 && n > 0 && |x| == 2 * n + 1 && x[0] == b
    && (forall i :: 0 <= i <= 2 * n ==> |x[i]| == |b|)
    && (forall i :: 0 <= i < n ==> x[i + 1] == BlockMix(mix, x[i]))
    && (forall i :: n <= i < 2 * n ==> x[i + 1] == BlockMix(mix, XorChunk(x[i], x[Integerify(x[i]) % n])))
  }

  lemma {:induction false} TraceV(mix: Block -> Block, b: Chunk, n: nat, x: seq<Chunk>, i: nat)
    requires IsTrace(mix, b, n, x) && i <= n
    ensures x[i] == V(mix, b, i)
  {
    hide BlockMix, V, XorChunk, Integerify;
    VStep(mix, b, i);
    if i > 0 {
      TraceV(mix, b, n, x, i - 1);
      VStep(mix, b, i - 1);
      assert x[i - 1 + 1] == BlockMix(mix, x[i - 1]);
    }
  }

  lemma {:induction false} TraceLoop(mix: Block -> Block, b: Chunk, n: nat, x: seq<Chunk>, i: nat)
    requires IsTrace(mix, b, n, x) && i <= n
    ensures x[n + i] == Loop(mix, b, n, i)
  {
    hide BlockMix, V, XorChunk, Integerify, Loop;
    LoopStep(mix, b, n, 0);
    if i == 0 {
      TraceV(mix, b, n, x, n);
    } else {
      TraceLoop(mix, b, n, x, i - 1);
      LoopStep(mix, b, n, i - 1);
      TraceV(mix, b, n, x, Integerify(x[n + i - 1]) % n);
      assert x[n + i - 1 + 1] == BlockMix(mix, XorChunk(x[n + i - 1], x[Integerify(x[n + i - 1]) % n]));
    }
  }

  /** However such a sequence is obtained, it ends in scryptROMix. */
  lemma RoMixTrace(mix: Block -> Block, b: Chunk, n: nat, x: seq<Chunk>)
    requires IsTrace(mix, b, n, x)
    ensures x[2 * n] == RoMix(mix, b, n)
  {
    hide BlockMix, XorChunk, Integerify, Loop;
    TraceLoop(mix, b, n, x, n);
  }

  function Link(mix: Block -> Block, b: Chunk, n: nat, i: nat): (x: Chunk)
    requires |b| % 2 == 0 && |b| > 0 && n > 0
    ensures |x| == |b|
  {
    if i < n then V(mix, b, i) else Loop(mix, b, n, i - n)
  }

  function Trace(mix: Block -> Block, b: Chunk, n: nat): (x: seq<Chunk>)
    requires |b| % 2 == 0 && |b| > 0 && n > 0
    ensures |x| == 2 * n + 1 && forall i :: 0 <= i <= 2 * n ==> x[i] == Link(mix, b, n, i)
  {
    seq(2 * n + 1, i requires 0 <= i <= 2 * n => Link(mix, b, n, i))
  }

  lemma LinkStep(mix: Block -> Block, b: Chunk, n: nat, i: nat)
    requires |b| % 2 == 0 && |b| > 0 && n > 0
    ensures Link(mix, b, n, 0) == b
    ensures i < n ==> Link(mix, b, n, i + 1) == BlockMix(mix, Link(mix, b, n, i))
    ensures var x := Link(mix, b, n, i);
            i >= n ==> Link(mix, b, n, i + 1) == BlockMix(mix, XorChunk(x, Link(mix, b, n, Integerify(x) % n)))
  {
    hide BlockMix, V, XorChunk, Integerify, Loop;
    VStep(mix, b, i);
    LoopStep(mix, b, n, if i < n then 0 else i - n);
  }

  /** And there always is such a sequence. */
  lemma TraceExists(mix: Block -> Block, b: Chunk, n: nat)
    requires |b| % 2 == 0 && |b| > 0 && n > 0
    ensures IsTrace(mix, b, n, Trace(mix, b, n))
  {
    hide BlockMix, XorChunk, Integerify, Trace, Link;
    var x := Trace(mix, b, n);
    LinkStep(mix, b, n, 0);
    assert forall i :: 0 <= i <= 2 * n ==> |x[i]| == |b|;
    forall i | 0 <= i < n
      ensures x[i + 1] == BlockMix(mix, x[i])
    {
      LinkStep(mix, b, n, i);
    }
    forall i | n <= i < 2 * n
      ensures x[i + 1] == BlockMix(mix, XorChunk(x[i], x[Integerify(x[i]) % n]))
    {
      LinkStep(mix, b, n, i);
    }
  }

  /** Integerify modulo 2^32 is word 0 of the last block. */
  lemma IntegerifyLow(x: Chunk)
    requires |x| > 0
    ensures Integerify(x) % TWO32 == Limb(x[|x| - 1].r0.a)
  {
    hide BlockLimbs, Limb;
    LowLimb(BlockLimbs(x[|x| - 1]));
  }

  lemma LowLimb(s: seq<Word>)
    requires |s| > 0
    ensures Limbs.Value(s) % TWO32 == s[0]
  {
    BitOps.ModUnique(Limbs.Value(s), TWO32, Limbs.Value(s[1..]), s[0]);
  }

  // ---- Choosing the index

  lemma {:induction false} PowersOfTwoDivide(k: nat, m: nat)
    requires k <= m
    ensures exists q: nat :: Pow2(m) == q * Pow2(k)
    decreases m
  {
    if k == m {
      assert Pow2(m) == 1 * Pow2(k);
    } else {
      PowersOfTwoDivide(k, m - 1);
      var q: nat :| Pow2(m - 1) == q * Pow2(k);
      assert Pow2(m) == (2 * q) * Pow2(k);
    }
  }

  lemma ModOfMultiple(x: int, y: int, q: int, d: nat)
    requires d > 0
    ensures (x + (q * d) * y) % d == x % d
  {
    var m := x % d;
    assert x + (q * d) * y == (x / d + q * y) * d + m;
    ModUnique(x + (q * d) * y, d, x / d + q * y, m);
  }

  /** Masking the first word of the last block is Integerify modulo N, for every power of two. */
  lemma IndexByMask(x: Chunk, k: nat)
    requires |x| > 0 && k <= 32
    ensures And(FirstWord(x[|x| - 1]), Pow2(k) - 1) == Integerify(x) % Pow2(k)
  {
    hide Limb, RowLimbs, BlockLimbs, FirstWord;
    var limbs := BlockLimbs(x[|x| - 1]);
    AndMask(limbs[0], k);
    PowersOfTwoDivide(k, 32);
    Pow2Of32();
    var q: nat :| TWO32 == q * Pow2(k);
    ModOfMultiple(limbs[0], Limbs.Value(limbs[1..]), q, Pow2(k));
  }

  // ---- The in-place code

  /** Two ranges of blocks of which one is written do not overlap. */
  predicate Apart(a: array<Block>, i: nat, b: array<Block>, j: nat, len: nat)
  {
    a != b || i + len <= j || j + len <= i
  }

  /** Bin, or Bin xor Bxor when Bxor is not null. */
  function Input(bin: Chunk, bxor: Chunk): (r: Chunk)
    requires bxor == [] || |bxor| == |bin|
    ensures |r| == |bin|
  {
    if bxor == [] then bin else XorChunk(bin, bxor)
  }

  /** Where the output block of step i goes: even steps to the first half, odd ones to the second. */
  function Place(r: nat, i: nat): (p: nat)
    requires i < 2 * r
    ensures p < 2 * r
  {
    i / 2 + if i % 2 == 0 then 0 else r
  }

  /** The step whose output goes to position k. */
  function StepOf(r: nat, k: nat): (i: nat)
    requires k < 2 * r
    ensures i < 2 * r
  {
    if k < r then 2 * k else 2 * (k - r) + 1
  }

  lemma PlaceOfStep(mix: Block -> Block, b: Chunk, r: nat, k: nat)
    requires |b| == 2 * r && k < 2 * r
    ensures Place(r, StepOf(r, k)) == k
    ensures MixedBlock(mix, b, k) == Y(mix, b, StepOf(r, k))
  {
    hide Y;
  }

  /** Placing every Y[i] gives scryptBlockMix. */
  lemma AllPlaced(mix: Block -> Block, b: Chunk, r: nat, out: Chunk)
    requires |b| == |out| == 2 * r
    requires forall i :: 0 <= i < 2 * r ==> out[Place(r, i)] == Y(mix, b, i)
    ensures out == BlockMix(mix, b)
  {
    hide Y, Place, StepOf, MixedBlock;
    forall k | 0 <= k < 2 * r
      ensures out[k] == BlockMix(mix, b)[k]
    {
      PlaceOfStep(mix, b, r, k);
    }
  }

  /** The array holds chunk c at block o. */
  ghost predicate Holds(a: array<Block>, o: nat, c: Chunk)
    reads a
  {
    o + |c| <= a.Length && forall k {:trigger c[k]} :: 0 <= k < |c| ==> a[o + k] == c[k]
  }

  /** SCRYPT_CHUNKMIX_FN.  useXor says whether Bxor is given; `half ^= r` toggles half between
      0 and r. */
  method ChunkMix(mix: Block -> Block, bout: array<Block>, o: nat, bin: array<Block>, i0: nat,
                  useXor: bool, bxor: array<Block>, x0: nat, r: nat, ghost input: Chunk, ghost mask: Chunk)
    requires 0 < r && o + 2 * r <= bout.Length
    requires |input| == 2 * r && Holds(bin, i0, input) && Apart(bout, o, bin, i0, 2 * r)
    requires mask == [] <==> !useXor
    requires useXor ==> |mask| == 2 * r && Holds(bxor, x0, mask) && Apart(bout, o, bxor, x0, 2 * r)
    modifies bout
    ensures Holds(bout, o, BlockMix(mix, Input(input, mask)))
    ensures forall k :: 0 <= k < bout.Length && !(o <= k < o + 2 * r) ==> bout[k] == old(bout[k])
  {
    hide Y, Xor, Place, BlockMix, Input, XorChunk;
    ghost var b := Input(input, mask);
    var x := FetchXor(bin, i0, useXor, bxor, x0, 2 * r - 1, input, mask);
    var half := 0;
    var i := 0;
    while i < 2 * r
      invariant 0 <= i <= 2 * r
      invariant half == if i % 2 == 0 then 0 else r
      invariant x == if i == 0 then b[2 * r - 1] else Y(mix, b, i - 1)
      invariant Holds(bin, i0, input) && (useXor ==> Holds(bxor, x0, mask))
      invariant forall m {:trigger Place(r, m)} :: 0 <= m < i ==> bout[o + Place(r, m)] == Y(mix, b, m)
      invariant forall k :: 0 <= k < bout.Length && !(o <= k < o + 2 * r) ==> bout[k] == old(bout[k])
    {
      x := AbsorbXor(x, bin, i0, useXor, bxor, x0, i, input, mask);
      x := mix(x);
      YStep(mix, b, i);
      PutBlock(bout, o, r, i, half, x, bin, i0, useXor, bxor, x0, input, mask);
      half := if half == 0 then r else 0;
      i := i + 1;
    }
    AllPlaced(mix, b, r, bout[o..o + 2 * r]);
  }

  /** Y_i goes to its place; the blocks placed before it and the inputs are untouched. */
  method PutBlock(bout: array<Block>, o: nat, r: nat, i: nat, half: nat, x: Block,
                  ghost bin: array<Block>, ghost i0: nat, ghost useXor: bool, ghost bxor: array<Block>, ghost x0: nat,
                  ghost input: Chunk, ghost mask: Chunk)
    requires o + 2 * r <= bout.Length && i < 2 * r && half == if i % 2 == 0 then 0 else r
    requires |input| == 2 * r && Holds(bin, i0, input) && Apart(bout, o, bin, i0, 2 * r)
    requires useXor ==> |mask| == 2 * r && Holds(bxor, x0, mask) && Apart(bout, o, bxor, x0, 2 * r)
    modifies bout
    ensures bout[o + Place(r, i)] == x
    ensures forall m {:trigger Place(r, m)} :: 0 <= m < i ==> bout[o + Place(r, m)] == old(bout[o + Place(r, m)])
    ensures forall k :: 0 <= k < bout.Length && !(o <= k < o + 2 * r) ==> bout[k] == old(bout[k])
    ensures Holds(bin, i0, input) && (useXor ==> Holds(bxor, x0, mask))
  {
    hide Place;
    PlaceIs(r, i);
    bout[o + i / 2 + half] := x;
    PlacesDistinct(r, i);
  }

  lemma PlacesDistinct(r: nat, i: nat)
    requires i < 2 * r
    ensures forall m {:trigger Place(r, m)} :: 0 <= m < i ==> Place(r, m) != Place(r, i)
  {
  }

  lemma InputAt(bin: Chunk, bxor: Chunk, i: nat)
    requires (bxor == [] || |bxor| == |bin|) && i < |bin|
    ensures Input(bin, bxor)[i] == if bxor == [] then bin[i] else Xor(bin[i], bxor[i])
  {
  }

  /** X = B_k, or X = B_k xor Bxor_k. */
  method FetchXor(bin: array<Block>, i0: nat, useXor: bool, bxor: array<Block>, x0: nat, k: nat,
                  ghost input: Chunk, ghost mask: Chunk)
    returns (x: Block)
    requires k < |input| && Holds(bin, i0, input)
    requires mask == [] <==> !useXor
    requires useXor ==> |mask| == |input| && Holds(bxor, x0, mask)
    ensures x == Input(input, mask)[k]
  {
    hide Xor, Input;
    InputAt(input, mask, k);
    assert input[k] == bin[i0 + k];
    x := bin[i0 + k];
    if useXor {
      assert mask[k] == bxor[x0 + k];
      x := Xor(x, bxor[x0 + k]);
    }
  }

  /** X ^= B_k, then X ^= Bxor_k. */
  method AbsorbXor(x: Block, bin: array<Block>, i0: nat, useXor: bool, bxor: array<Block>, x0: nat, k: nat,
                   ghost input: Chunk, ghost mask: Chunk)
    returns (y: Block)
    requires k < |input| && Holds(bin, i0, input)
    requires mask == [] <==> !useXor
    requires useXor ==> |mask| == |input| && Holds(bxor, x0, mask)
    ensures y == Xor(x, Input(input, mask)[k])
  {
    hide Xor, Input;
    InputAt(input, mask, k);
    assert input[k] == bin[i0 + k];
    y := Xor(x, bin[i0 + k]);
    if useXor {
      assert mask[k] == bxor[x0 + k];
      XorAssociates(x, bin[i0 + k], bxor[x0 + k]);
      y := Xor(y, bxor[x0 + k]);
    }
  }

  lemma PlaceIs(r: nat, i: nat)
    requires i < 2 * r
    ensures Place(r, i) == i / 2 + if i % 2 == 0 then 0 else r
  {
  }

  lemma YStep(mix: Block -> Block, b: Chunk, i: nat)
    requires i < |b|
    ensures Y(mix, b, i) == mix(Xor(if i == 0 then b[|b| - 1] else Y(mix, b, i - 1), b[i]))
  {
  }

  // ---- ROMix

  /** Block offset of chunk i in V. */
  function Offset(i: nat, chunk: nat): nat
  {
    i * chunk
  }

  lemma OffsetStep(i: nat, chunk: nat)
    ensures Offset(i + 1, chunk) == Offset(i, chunk) + chunk
  {
  }

  lemma OffsetMonotone(i: nat, j: nat, chunk: nat)
    requires i < j
    ensures Offset(i, chunk) + chunk <= Offset(j, chunk)
  {
    assert (j - i - 1) * chunk >= 0;
    assert Offset(j, chunk) == Offset(i, chunk) + chunk + (j - i - 1) * chunk;
  }

  /** V holds the first `count` chunks of the table of section 5, step 2. */
  ghost predicate Table(mix: Block -> Block, b: Chunk, v: array<Block>, count: nat)
    requires |b| % 2 == 0
    reads v
  {
    forall m {:trigger V(mix, b, m)} :: 0 <= m < count ==> Holds(v, Offset(m, |b|), V(mix, b, m))
  }

  method CopyChunk(dst: array<Block>, src: array<Block>, len: nat)
    requires src != dst && len <= src.Length && len <= dst.Length
    modifies dst
    ensures Holds(dst, 0, src[..len])
  {
    var i := 0;
    while i < len
      invariant 0 <= i <= len
      invariant forall k :: 0 <= k < i ==> dst[k] == src[k]
    {
      dst[i] := src[i];
      i := i + 1;
    }
  }

  lemma VStep(mix: Block -> Block, b: Chunk, i: nat)
    requires |b| % 2 == 0
    ensures V(mix, b, i + 1) == BlockMix(mix, V(mix, b, i)) && V(mix, b, 0) == b
  {
  }

  /** Steps 1 and 2: V is filled in place, each chunk from the one before it. */
  method FillTable(mix: Block -> Block, x: array<Block>, v: array<Block>, n: nat, r: nat)
    requires 0 < r && 0 < n && x.Length == 2 * r && v.Length == Offset(n, 2 * r) && x != v
    modifies v
    ensures Table(mix, x[..], v, n)
  {
    hide BlockMix, V, Offset;
    ghost var b := x[..];
    var chunk := 2 * r;
    assert 0 == Offset(0, chunk) && chunk <= Offset(n, chunk) by {
      assert 0 == 0 * chunk == Offset(0, chunk) by { OffsetZero(chunk); }
      OffsetMonotone(0, n, chunk);
    }
    CopyChunk(v, x, chunk);
    assert x[..chunk] == b;
    VStep(mix, b, 0);
    var block := 0;
    var i := 0;
    while i < n - 1
      invariant 0 <= i <= n - 1 && block == Offset(i, chunk)
      invariant Table(mix, b, v, i + 1)
    {
      OffsetStep(i, chunk);
      OffsetMonotone(i + 1, n, chunk);
      VStep(mix, b, i);
      assert Holds(v, block, V(mix, b, i));
      ChunkMix(mix, v, block + chunk, v, block, false, v, 0, r, V(mix, b, i), []);
      assert Input(V(mix, b, i), []) == V(mix, b, i);
      forall m | 0 <= m < i + 1
        ensures Holds(v, Offset(m, chunk), V(mix, b, m))
      {
        OffsetMonotone(m, i + 1, chunk);
      }
      block := block + chunk;
      i := i + 1;
    }
  }

  lemma OffsetZero(chunk: nat)
    ensures Offset(0, chunk) == 0
  {
  }

  lemma LoopStep(mix: Block -> Block, b: Chunk, n: nat, i: nat)
    requires |b| % 2 == 0 && |b| > 0 && n > 0
    ensures var x := Loop(mix, b, n, i);
            Loop(mix, b, n, i + 1) == BlockMix(mix, XorChunk(x, V(mix, b, Integerify(x) % n)))
    ensures Loop(mix, b, n, 0) == V(mix, b, n)
  {
  }

  /** One step of the second loop: `to` gets H(from xor V_j), j taken by mask from `from`. */
  method LookupStep(mix: Block -> Block, to: array<Block>, from: array<Block>, v: array<Block>,
                    n: nat, k: nat, r: nat, ghost b: Chunk, ghost i: nat)
    requires 0 < r && |b| == 2 * r && to.Length == from.Length == 2 * r
    requires to != from && to != v && n == Pow2(k) && k <= 32 && v.Length == Offset(n, 2 * r)
    requires Table(mix, b, v, n) && from[..] == Loop(mix, b, n, i)
    modifies to
    ensures to[..] == Loop(mix, b, n, i + 1)
  {
    hide BlockMix, V, Offset, Loop, Integerify, FirstWord, And;
    ghost var x := from[..];
    var j := And(FirstWord(from[2 * r - 1]), n - 1);
    IndexByMask(x, k);
    assert j == Integerify(x) % n;
    OffsetMonotone(j, n, 2 * r);
    ghost var vj := V(mix, b, j);
    assert Holds(v, Offset(j, 2 * r), vj);
    ChunkMix(mix, to, 0, from, 0, true, v, Offset(j, 2 * r), r, x, vj);
    LoopStep(mix, b, n, i);
    assert to[..] == Loop(mix, b, n, i + 1);
  }

  /**
    SCRYPT_ROMIX_FN without the tangling: the table is filled in place, the second loop is
    unrolled by two with X and Y changing roles, and the index is taken by masking one word.
    For every r > 0 and every N = 2^k > 1 this is scryptROMix.
   */
  method RoMixInPlace(mix: Block -> Block, x: array<Block>, y: array<Block>, v: array<Block>,
                      n: nat, k: nat, r: nat)
    requires 0 < r && n == Pow2(k) && 1 <= k <= 32
    requires x.Length == y.Length == 2 * r && v.Length == Offset(n, 2 * r)
    requires x != y && x != v && y != v
    modifies x, y, v
    ensures x[..] == RoMix(mix, old(x[..]), n)
  {
    hide BlockMix, V, Offset, Loop, Table;
    ghost var b := x[..];
    FirstLoop(mix, x, v, n, r);
    LoopStep(mix, b, n, 0);
    ghost var pairs, done := Pow2(k - 1), 0;
    assert n == 2 * pairs;
    hide Pow2;
    var i := 0;
    while i < n
      invariant i == 2 * done && 0 <= done <= pairs
      invariant x[..] == Loop(mix, b, n, i) && Table(mix, b, v, n)
    {
      LookupStep(mix, y, x, v, n, k, r, b, i);
      LookupStep(mix, x, y, v, n, k, r, b, i + 1);
      i, done := i + 2, done + 1;
    }
  }

  /** Steps 1 to 5: the table, and X after N applications of BlockMix. */
  method FirstLoop(mix: Block -> Block, x: array<Block>, v: array<Block>, n: nat, r: nat)
    requires 0 < r && 0 < n && x.Length == 2 * r && v.Length == Offset(n, 2 * r) && x != v
    modifies x, v
    ensures x[..] == V(mix, old(x[..]), n) && Table(mix, old(x[..]), v, n)
  {
    hide BlockMix, V, Offset, Table;
    ghost var b := x[..];
    FillTable(mix, x, v, n, r);
    OffsetMonotone(n - 1, n, 2 * r);
    TableAt(mix, b, v, n, n - 1);
    ghost var last := V(mix, b, n - 1);
    assert Input(last, []) == last;
    ChunkMix(mix, x, 0, v, Offset(n - 1, 2 * r), false, v, 0, r, last, []);
    VStep(mix, b, n - 1);
    assert x[..] == BlockMix(mix, last);
  }

  lemma TableAt(mix: Block -> Block, b: Chunk, v: array<Block>, count: nat, m: nat)
    requires |b| % 2 == 0 && m < count && Table(mix, b, v, count)
    ensures Holds(v, Offset(m, |b|), V(mix, b, m))
  {
  }
}
