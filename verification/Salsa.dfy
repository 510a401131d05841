/**
  Salsa20/8 as scrypt uses it (section 3 of RFC 7914): the scalar core of scrypt-jane-mix_salsa.h,
  the SSE2 core of scrypt-jane-mix_salsa-sse2.h on a permuted ("tangled") layout, and the proof
  that ROMix on tangled data is ROMix.
 */
module Salsa {
  import opened BitOps
  import opened Scrypt

  // ---- Words

  function Rotl(t: bv32, k: bv32): bv32
    requires 0 < k < 32
  {
    (t << k) | (t >> (32 - k))
  }

  function Add32(x: bv32, y: bv32): bv32
  {
    x + y
  }

  lemma Add32Commutes(x: bv32, y: bv32)
    ensures Add32(x, y) == Add32(y, x)
  {
  }

  /** t = x + y; b ^= ROTL32(t, k) */
  function QStep(b: bv32, x: bv32, y: bv32, k: bv32): bv32
    requires 0 < k < 32
  {
    Xor32(b, Rotl(Add32(x, y), k))
  }

  // ---- The scalar core

  /** quarter(a, b, c, d) */
  function Quarter(a: bv32, b: bv32, c: bv32, d: bv32): Row
  {
    var b' := QStep(b, a, d, 7);
    var c' := QStep(c, b', a, 9);
    var d' := QStep(d, c', b', 13);
    var a' := QStep(a, d', c', 18);
    Row(a', b', c', d')
  }

  /** Four quarters down the columns, then four along the rows. */
  function DoubleRound(s: Block): Block
  {
    var q0 := Quarter(s.r0.a, s.r1.a, s.r2.a, s.r3.a);    // x0 x4 x8 x12
    var q1 := Quarter(s.r1.b, s.r2.b, s.r3.b, s.r0.b);    // x5 x9 x13 x1
    var q2 := Quarter(s.r2.c, s.r3.c, s.r0.c, s.r1.c);    // x10 x14 x2 x6
    var q3 := Quarter(s.r3.d, s.r0.d, s.r1.d, s.r2.d);    // x15 x3 x7 x11
    var p0 := Quarter(q0.a, q1.d, q2.c, q3.b);            // x0 x1 x2 x3
    var p1 := Quarter(q1.a, q2.d, q3.c, q0.b);            // x5 x6 x7 x4
    var p2 := Quarter(q2.a, q3.d, q0.c, q1.b);            // x10 x11 x8 x9
    var p3 := Quarter(q3.a, q0.d, q1.c, q2.b);            // x15 x12 x13 x14
    Block(Row(p0.a, p0.b, p0.c, p0.d),
          Row(p1.d, p1.a, p1.b, p1.c),
          Row(p2.c, p2.d, p2.a, p2.b),
          Row(p3.b, p3.c, p3.d, p3.a))
  }

  function DoubleRounds(s: Block, n: nat): Block
  {
    if n == 0 then s else DoubleRound(DoubleRounds(s, n - 1))
  }

  function AddRow(x: Row, y: Row): Row
  {
    Row(Add32(x.a, y.a), Add32(x.b, y.b), Add32(x.c, y.c), Add32(x.d, y.d))
  }

  function AddBlock(x: Block, y: Block): Block
  {
    Block(AddRow(x.r0, y.r0), AddRow(x.r1, y.r1), AddRow(x.r2, y.r2), AddRow(x.r3, y.r3))
  }

  /** salsa_core_basic */
  function Core(s: Block): Block
  {
    AddBlock(s, DoubleRounds(s, 4))
  }

  // ---- The SSE2 core

  function Shl32(x: bv32, k: bv32): bv32
    requires 0 < k < 32
  {
    x << k
  }

  function Shr32(x: bv32, k: bv32): bv32
    requires 0 < k < 32
  {
    x >> k
  }

  /** _mm_slli_epi32 and _mm_srli_epi32 */
  function Shl(x: Row, k: bv32): Row
    requires 0 < k < 32
  {
    Row(Shl32(x.a, k), Shl32(x.b, k), Shl32(x.c, k), Shl32(x.d, k))
  }

  function Shr(x: Row, k: bv32): Row
    requires 0 < k < 32
  {
    Row(Shr32(x.a, k), Shr32(x.b, k), Shr32(x.c, k), Shr32(x.d, k))
  }

  /** _mm_shuffle_epi32 with the three selectors used: lane i of the result is the selected lane. */
  function Shuffle93(x: Row): Row { Row(x.d, x.a, x.b, x.c) }
  function Shuffle4e(x: Row): Row { Row(x.c, x.d, x.a, x.b) }
  function Shuffle39(x: Row): Row { Row(x.b, x.c, x.d, x.a) }

  /** x ^= t << k; x ^= t >> (32 - k) */
  function XorRotated(x: Row, t: Row, k: bv32): Row
    requires 0 < k < 32
  {
    XorRow(XorRow(x, Shl(t, k)), Shr(t, 32 - k))
  }

  /** One pass of the rounds loop on registers x0..x3. */
  function SseDoubleRound(s: Block): Block
  {
    var (x0, x1, x2, x3) := (s.r0, s.r1, s.r2, s.r3);
    var x3 := XorRotated(x3, AddRow(x1, x0), 7);
    var x2 := XorRotated(x2, AddRow(x0, x3), 9);
    var x4 := x3;
    var x3 := Shuffle93(x3);
    var x1 := XorRotated(x1, AddRow(x4, x2), 13);
    var x4 := x2;
    var x2 := Shuffle4e(x2);
    var x0 := XorRotated(x0, AddRow(x4, x1), 18);
    var x1 := Shuffle39(x1);
    var x1 := XorRotated(x1, AddRow(x3, x0), 7);
    var x2 := XorRotated(x2, AddRow(x0, x1), 9);
    var x4 := x1;
    var x1 := Shuffle93(x1);
    var x3 := XorRotated(x3, AddRow(x4, x2), 13);
    var x4 := x2;
    var x2 := Shuffle4e(x2);
    var x0 := XorRotated(x0, AddRow(x4, x3), 18);
    var x3 := Shuffle39(x3);
    Block(x0, x1, x2, x3)
  }

  function SseDoubleRounds(s: Block, n: nat): Block
  {
    if n == 0 then s else SseDoubleRound(SseDoubleRounds(s, n - 1))
  }

  /** The body of scrypt_ChunkMix_sse2 between fetching X and storing it. */
  function SseCore(s: Block): Block
  {
    AddBlock(SseDoubleRounds(s, 4), s)
  }

  /** salsa_core_tangle_sse2 on one block: words 1-5, 2-10, 3-15, 4-12, 7-11 and 9-13 change places. */
  function Tangle(s: Block): Block
  {
    Block(Row(s.r0.a, s.r1.b, s.r2.c, s.r3.d),
          Row(s.r3.a, s.r0.b, s.r1.c, s.r2.d),
          Row(s.r2.a, s.r3.b, s.r0.c, s.r1.d),
          Row(s.r1.a, s.r2.b, s.r3.c, s.r0.d))
  }

  lemma TangleInvolution(s: Block)
    ensures Tangle(Tangle(s)) == s
  {
  }

  // ---- Lanes

  lemma DisjointShifts(b: bv32, t: bv32, k: bv32)
    requires k == 7 || k == 9 || k == 13 || k == 18
    ensures (b ^ (t << k)) ^ (t >> (32 - k)) == b ^ ((t << k) | (t >> (32 - k)))
  {
  }

  /** The two shifted halves do not overlap, so xoring them one after the other is a rotation. */
  lemma XorRotatedLane(b: bv32, t: bv32, k: bv32)
    requires k == 7 || k == 9 || k == 13 || k == 18
    ensures Xor32(Xor32(b, Shl32(t, k)), Shr32(t, 32 - k)) == Xor32(b, Rotl(t, k))
  {
    DisjointShifts(b, t, k);
  }

  /** Four scalar steps at once. */
  function QRow(b: Row, x: Row, y: Row, k: bv32): Row
    requires 0 < k < 32
  {
    Row(QStep(b.a, x.a, y.a, k), QStep(b.b, x.b, y.b, k), QStep(b.c, x.c, y.c, k), QStep(b.d, x.d, y.d, k))
  }

  lemma SimdStep(b: Row, x: Row, y: Row, k: bv32)
    requires k == 7 || k == 9 || k == 13 || k == 18
    ensures XorRotated(b, AddRow(y, x), k) == QRow(b, x, y, k)
  {
    hide Xor32, Rotl, Add32, Shl32, Shr32;
    Add32Commutes(x.a, y.a);
    Add32Commutes(x.b, y.b);
    Add32Commutes(x.c, y.c);
    Add32Commutes(x.d, y.d);
    XorRotatedLane(b.a, Add32(x.a, y.a), k);
    XorRotatedLane(b.b, Add32(x.b, y.b), k);
    XorRotatedLane(b.c, Add32(x.c, y.c), k);
    XorRotatedLane(b.d, Add32(x.d, y.d), k);
  }

  /** SseDoubleRound with each register step written as four scalar steps. */
  function LaneDoubleRound(s: Block): Block
  {
    var (x0, x1, x2, x3) := (s.r0, s.r1, s.r2, s.r3);
    var b := QRow(x3, x0, x1, 7);
    var c := QRow(x2, b, x0, 9);
    var d := QRow(x1, c, b, 13);
    var a := QRow(x0, d, c, 18);
    var (y1, y2, y3) := (Shuffle39(d), Shuffle4e(c), Shuffle93(b));
    var b' := QRow(y1, a, y3, 7);
    var c' := QRow(y2, b', a, 9);
    var d' := QRow(y3, c', b', 13);
    var a' := QRow(a, d', c', 18);
    Block(a', Shuffle93(b'), Shuffle4e(c'), Shuffle39(d'))
  }

  lemma SseIsLanes(s: Block)
    ensures SseDoubleRound(s) == LaneDoubleRound(s)
  {
    hide XorRotated, AddRow, QRow;
    var (x0, x1, x2, x3) := (s.r0, s.r1, s.r2, s.r3);
    var b := QRow(x3, x0, x1, 7);
    SimdStep(x3, x0, x1, 7);
    var c := QRow(x2, b, x0, 9);
    SimdStep(x2, b, x0, 9);
    var d := QRow(x1, c, b, 13);
    SimdStep(x1, c, b, 13);
    var a := QRow(x0, d, c, 18);
    SimdStep(x0, d, c, 18);
    var (y1, y2, y3) := (Shuffle39(d), Shuffle4e(c), Shuffle93(b));
    var b' := QRow(y1, a, y3, 7);
    SimdStep(y1, a, y3, 7);
    var c' := QRow(y2, b', a, 9);
    SimdStep(y2, b', a, 9);
    SimdStep(y3, c', b', 13);
    var d' := QRow(y3, c', b', 13);
    SimdStep(a, d', c', 18);
  }

  /** The lanes of the tangled layout run the same quarters as the scalar code. */
  lemma DoubleRoundConjugate(s: Block)
    ensures SseDoubleRound(Tangle(s)) == Tangle(DoubleRound(s))
  {
    hide QStep;
    SseIsLanes(Tangle(s));
    hide SseDoubleRound;
  }

  lemma {:induction false} DoubleRoundsConjugate(s: Block, n: nat)
    ensures SseDoubleRounds(Tangle(s), n) == Tangle(DoubleRounds(s, n))
  {
    hide SseDoubleRound, DoubleRound, Tangle;
    if n > 0 {
      DoubleRoundsConjugate(s, n - 1);
      DoubleRoundConjugate(DoubleRounds(s, n - 1));
    }
  }

  lemma AddBlockCommutes(x: Block, y: Block)
    ensures AddBlock(x, y) == AddBlock(y, x)
  {
  }

  lemma TangleOfAdd(x: Block, y: Block)
    ensures AddBlock(Tangle(x), Tangle(y)) == Tangle(AddBlock(x, y))
  {
  }

  lemma TangleOfXor(x: Block, y: Block)
    ensures Xor(Tangle(x), Tangle(y)) == Tangle(Xor(x, y))
  {
  }

  /** The SSE2 core is the scalar core conjugated by the tangling. */
  lemma CoreConjugate(s: Block)
    ensures SseCore(Tangle(s)) == Tangle(Core(s))
    ensures SseCore(s) == Tangle(Core(Tangle(s)))
  {
    hide SseDoubleRounds, DoubleRounds, AddBlock, Tangle;
    ConjugateAt(s);
    ConjugateAt(Tangle(s));
    TangleInvolution(s);
  }

  lemma ConjugateAt(s: Block)
    ensures SseCore(Tangle(s)) == Tangle(Core(s))
  {
    hide SseDoubleRounds, DoubleRounds, AddBlock, Tangle;
    DoubleRoundsConjugate(s, 4);
    TangleOfAdd(DoubleRounds(s, 4), s);
    AddBlockCommutes(DoubleRounds(s, 4), s);
  }

  // ---- Tangled ROMix

  function TangleAll(c: Chunk): (r: Chunk)
    ensures |r| == |c|
    ensures forall i :: 0 <= i < |c| ==> r[i] == Tangle(c[i])
  {
    seq(|c|, i requires 0 <= i < |c| => Tangle(c[i]))
  }

  lemma TangleAllInvolution(c: Chunk)
    ensures TangleAll(TangleAll(c)) == c
  {
  }

  lemma TangleAllOfXor(x: Chunk, y: Chunk)
    requires |x| == |y|
    ensures XorChunk(TangleAll(x), TangleAll(y)) == TangleAll(XorChunk(x, y))
  {
  }

  lemma {:induction false} TangledY(b: Chunk, i: nat)
    requires i < |b|
    ensures Y(SseCore, TangleAll(b), i) == Tangle(Y(Core, b, i))
  {
    hide Tangle, Xor, SseCore, Core, Y;
    var prev := if i == 0 then b[|b| - 1] else Y(Core, b, i - 1);
    YStep(SseCore, TangleAll(b), i);
    YStep(Core, b, i);
    if i > 0 {
      TangledY(b, i - 1);
    }
    TangleOfXor(prev, b[i]);
    CoreConjugate(Xor(prev, b[i]));
  }

  lemma TangledBlockMix(b: Chunk)
    requires |b| % 2 == 0
    ensures BlockMix(SseCore, TangleAll(b)) == TangleAll(BlockMix(Core, b))
  {
    hide Tangle, SseCore, Core, Y;
    forall k | 0 <= k < |b|
      ensures BlockMix(SseCore, TangleAll(b))[k] == TangleAll(BlockMix(Core, b))[k]
    {
      TangledY(b, if k < |b| / 2 then 2 * k else 2 * (k - |b| / 2) + 1);
    }
  }

  lemma {:induction false} TangledV(b: Chunk, i: nat)
    requires |b| % 2 == 0
    ensures V(SseCore, TangleAll(b), i) == TangleAll(V(Core, b, i))
  {
    hide BlockMix, SseCore, Core, TangleAll, V;
    if i == 0 {
      VStep(SseCore, TangleAll(b), 0);
      VStep(Core, b, 0);
    } else {
      VStep(SseCore, TangleAll(b), i - 1);
      VStep(Core, b, i - 1);
      TangledV(b, i - 1);
      TangledBlockMix(V(Core, b, i - 1));
    }
  }

  /** The tangling keeps word 0, so it keeps the index taken from a chunk. */
  lemma TangledIndex(x: Chunk, k: nat)
    requires |x| > 0 && k <= 32
    ensures Integerify(TangleAll(x)) % Pow2(k) == Integerify(x) % Pow2(k)
  {
    hide Integerify, And;
    IndexByMask(x, k);
    IndexByMask(TangleAll(x), k);
  }

  lemma {:induction false} TangledLoop(b: Chunk, n: nat, k: nat, i: nat)
    requires |b| % 2 == 0 && |b| > 0 && n == Pow2(k) && k <= 32
    ensures Loop(SseCore, TangleAll(b), n, i) == TangleAll(Loop(Core, b, n, i))
    decreases i
  {
    hide BlockMix, SseCore, Core, TangleAll, V, Integerify, XorChunk, Loop, Pow2;
    if i == 0 {
      LoopStep(SseCore, TangleAll(b), n, 0);
      LoopStep(Core, b, n, 0);
      TangledV(b, n);
    } else {
      var x := Loop(Core, b, n, i - 1);
      TangledLoop(b, n, k, i - 1);
      LoopStep(SseCore, TangleAll(b), n, i - 1);
      LoopStep(Core, b, n, i - 1);
      TangledIndex(x, k);
      var j := Integerify(x) % n;
      TangledV(b, j);
      TangleAllOfXor(x, V(Core, b, j));
      TangledBlockMix(XorChunk(x, V(Core, b, j)));
    }
  }

  /** ROMix with the SSE2 core on a tangled chunk is the tangled ROMix with the scalar core,
      for every chunk and every power of two N. */
  lemma TangledRoMix(b: Chunk, n: nat, k: nat)
    requires |b| % 2 == 0 && |b| > 0 && n == Pow2(k) && k <= 32
    ensures TangleAll(RoMix(SseCore, TangleAll(b), n)) == RoMix(Core, b, n)
  {
    hide Loop, TangleAll;
    TangledLoop(b, n, k, n);
    TangleAllInvolution(Loop(Core, b, n, n));
  }

  /** salsa_core_tangle_sse2 */
  method TangleInPlace(x: array<Block>)
    modifies x
    ensures x[..] == TangleAll(old(x[..]))
  {
    hide Tangle;
    var i := 0;
    while i < x.Length
      invariant 0 <= i <= x.Length
      invariant forall m :: 0 <= m < i ==> x[m] == Tangle(old(x[m]))
      invariant forall m :: i <= m < x.Length ==> x[m] == old(x[m])
    {
      x[i] := Tangle(x[i]);
      i := i + 1;
    }
  }

  /** SCRYPT_ROMIX_FN with the SSE2 ChunkMix: tangle, mix, untangle.  It computes scryptROMix. */
  method RoMixSse2(x: array<Block>, y: array<Block>, v: array<Block>, n: nat, k: nat, r: nat)
    requires 0 < r && n == Pow2(k) && 1 <= k <= 32
    requires x.Length == y.Length == 2 * r && v.Length == Offset(n, 2 * r)
    requires x != y && x != v && y != v
    modifies x, y, v
    ensures x[..] == RoMix(Core, old(x[..]), n)
  {
    hide Tangle, TangleAll, RoMix, SseCore, Core, Offset;
    TangledRoMix(x[..], n, k);
    TangleInPlace(x);
    RoMixInPlace(SseCore, x, y, v, n, k, r);
    TangleInPlace(x);
  }
}
