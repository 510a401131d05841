/**
  SHA-256: the specification of FIPS 180-4 (sections 4.1.2, 5.3.3 and 6.2.2) and the
  block compression of algo/sha2.c, which keeps the eight working variables in place
  and renames them by rotating indices instead of moving them.
 */
module Sha256 {
  import opened WordBits

  // ---- FIPS 180-4, section 4.1.2

  function RotR(x: bv32, n: bv32): bv32
    requires 0 < n < 32
  {
    (x >> n) | (x << (32 - n))
  }

  function ChBits(x: bv32, y: bv32, z: bv32): bv32
  {
    (x & y) ^ (!x & z)
  }

  function Ch(x: Word32, y: Word32, z: Word32): Word32
  {
    W(ChBits(x.bits, y.bits, z.bits))
  }

  function MajBits(x: bv32, y: bv32, z: bv32): bv32
  {
    (x & y) ^ (x & z) ^ (y & z)
  }

  function Maj(x: Word32, y: Word32, z: Word32): Word32
  {
    W(MajBits(x.bits, y.bits, z.bits))
  }

  function BigSigma0(x: Word32): Word32
  {
    W(RotR(x.bits, 2) ^ RotR(x.bits, 13) ^ RotR(x.bits, 22))
  }

  function BigSigma1(x: Word32): Word32
  {
    W(RotR(x.bits, 6) ^ RotR(x.bits, 11) ^ RotR(x.bits, 25))
  }

  function SmallSigma0(x: Word32): Word32
  {
    W(RotR(x.bits, 7) ^ RotR(x.bits, 18) ^ (x.bits >> 3))
  }

  function SmallSigma1(x: Word32): Word32
  {
    W(RotR(x.bits, 17) ^ RotR(x.bits, 19) ^ (x.bits >> 10))
  }

  lemma SigmaOfZero()
    ensures SmallSigma0(W(0)) == W(0)
    ensures SmallSigma1(W(0)) == W(0)
  {
  }

  // ---- The shorter boolean forms the source's macros use

  function ChCodeBits(x: bv32, y: bv32, z: bv32): bv32
  {
    (x & (y ^ z)) ^ z
  }

  function ChCode(x: Word32, y: Word32, z: Word32): Word32
  {
    W(ChCodeBits(x.bits, y.bits, z.bits))
  }

  function MajCodeBits(x: bv32, y: bv32, z: bv32): bv32
  {
    (x & (y | z)) | (y & z)
  }

  function MajCode(x: Word32, y: Word32, z: Word32): Word32
  {
    W(MajCodeBits(x.bits, y.bits, z.bits))
  }

  function MajStreamBits(x: bv32, y: bv32, z: bv32): bv32
  {
    ((x | y) & z) | (x & y)
  }

  function MajStream(x: Word32, y: Word32, z: Word32): Word32
  {
    W(MajStreamBits(x.bits, y.bits, z.bits))
  }

  lemma ChIdentity(x: bv32, y: bv32, z: bv32)
    ensures ChCodeBits(x, y, z) == ChBits(x, y, z)
  {
    assert (x & (y ^ z)) ^ z == (x & y) ^ (!x & z);
  }

  lemma MajIdentity(x: bv32, y: bv32, z: bv32)
    ensures MajCodeBits(x, y, z) == MajBits(x, y, z)
  {
    assert (x & (y | z)) | (y & z) == (x & y) ^ (x & z) ^ (y & z);
  }

  lemma MajStreamIdentity(x: bv32, y: bv32, z: bv32)
    ensures MajStreamBits(x, y, z) == MajBits(x, y, z)
  {
    assert ((x | y) & z) | (x & y) == (x & y) ^ (x & z) ^ (y & z);
  }

  /** The macros' boolean forms are the standard's functions. */
  lemma BooleanForms(x: Word32, y: Word32, z: Word32)
    ensures ChCode(x, y, z) == Ch(x, y, z)
    ensures MajCode(x, y, z) == Maj(x, y, z)
    ensures MajStream(x, y, z) == Maj(x, y, z)
  {
    hide ChBits, ChCodeBits, MajBits, MajCodeBits, MajStreamBits;
    ChIdentity(x.bits, y.bits, z.bits);
    MajIdentity(x.bits, y.bits, z.bits);
    MajStreamIdentity(x.bits, y.bits, z.bits);
  }

  // ---- Constants

  /** Section 4.2.2: the round constants, in order. */
  function K(t: nat): Word32
    requires t < 64
  {
    if t < 32 then
      if t < 16 then
        if t < 8 then
          if t < 4 then (if t < 2 then (if t < 1 then W(0x428a2f98) else W(0x71374491)) else (if t < 3 then W(0xb5c0fbcf) else W(0xe9b5dba5)))
          else (if t < 6 then (if t < 5 then W(0x3956c25b) else W(0x59f111f1)) else (if t < 7 then W(0x923f82a4) else W(0xab1c5ed5)))
        else
          if t < 12 then (if t < 10 then (if t < 9 then W(0xd807aa98) else W(0x12835b01)) else (if t < 11 then W(0x243185be) else W(0x550c7dc3)))
          else (if t < 14 then (if t < 13 then W(0x72be5d74) else W(0x80deb1fe)) else (if t < 15 then W(0x9bdc06a7) else W(0xc19bf174)))
      else
        if t < 24 then
          if t < 20 then (if t < 18 then (if t < 17 then W(0xe49b69c1) else W(0xefbe4786)) else (if t < 19 then W(0x0fc19dc6) else W(0x240ca1cc)))
          else (if t < 22 then (if t < 21 then W(0x2de92c6f) else W(0x4a7484aa)) else (if t < 23 then W(0x5cb0a9dc) else W(0x76f988da)))
        else
          if t < 28 then (if t < 26 then (if t < 25 then W(0x983e5152) else W(0xa831c66d)) else (if t < 27 then W(0xb00327c8) else W(0xbf597fc7)))
          else (if t < 30 then (if t < 29 then W(0xc6e00bf3) else W(0xd5a79147)) else (if t < 31 then W(0x06ca6351) else W(0x14292967)))
    else
      if t < 48 then
        if t < 40 then
          if t < 36 then (if t < 34 then (if t < 33 then W(0x27b70a85) else W(0x2e1b2138)) else (if t < 35 then W(0x4d2c6dfc) else W(0x53380d13)))
          else (if t < 38 then (if t < 37 then W(0x650a7354) else W(0x766a0abb)) else (if t < 39 then W(0x81c2c92e) else W(0x92722c85)))
        else
          if t < 44 then (if t < 42 then (if t < 41 then W(0xa2bfe8a1) else W(0xa81a664b)) else (if t < 43 then W(0xc24b8b70) else W(0xc76c51a3)))
          else (if t < 46 then (if t < 45 then W(0xd192e819) else W(0xd6990624)) else (if t < 47 then W(0xf40e3585) else W(0x106aa070)))
      else
        if t < 56 then
          if t < 52 then (if t < 50 then (if t < 49 then W(0x19a4c116) else W(0x1e376c08)) else (if t < 51 then W(0x2748774c) else W(0x34b0bcb5)))
          else (if t < 54 then (if t < 53 then W(0x391c0cb3) else W(0x4ed8aa4a)) else (if t < 55 then W(0x5b9cca4f) else W(0x682e6ff3)))
        else
          if t < 60 then (if t < 58 then (if t < 57 then W(0x748f82ee) else W(0x78a5636f)) else (if t < 59 then W(0x84c87814) else W(0x8cc70208)))
          else (if t < 62 then (if t < 61 then W(0x90befffa) else W(0xa4506ceb)) else (if t < 63 then W(0xbef9a3f7) else W(0xc67178f2)))
  }

  /** Section 5.3.3: the initial hash value. */
  function Init(): (h: seq<Word32>)
    ensures |h| == 8
  {
    [W(0x6a09e667), W(0xbb67ae85), W(0x3c6ef372), W(0xa54ff53a),
     W(0x510e527f), W(0x9b05688c), W(0x1f83d9ab), W(0x5be0cd19)]
  }

  // ---- FIPS 180-4, section 6.2.2

  /** Word32 t of the message schedule of a 16-word block (step 1). */
  function Schedule(block: seq<Word32>, t: nat): Word32
    requires |block| == 16
  {
    if t < 16 then block[t]
    else Plus(Plus(Plus(SmallSigma1(Schedule(block, t - 2)), Schedule(block, t - 7)),
                 SmallSigma0(Schedule(block, t - 15))), Schedule(block, t - 16))
  }

  lemma ScheduleStep(m: seq<Word32>, t: nat)
    requires |m| == 16 && t >= 16
    ensures Schedule(m, t)
         == Plus(Plus(Plus(SmallSigma1(Schedule(m, t - 2)), Schedule(m, t - 7)),
                    SmallSigma0(Schedule(m, t - 15))), Schedule(m, t - 16))
  {
  }

  lemma ScheduleBase(m: seq<Word32>)
    requires |m| == 16
    ensures forall t :: 0 <= t < 16 ==> Schedule(m, t) == m[t]
  {
  }

  function T1(v: seq<Word32>, k: Word32, w: Word32): Word32
    requires |v| == 8
  {
    Plus(Plus(Plus(Plus(v[7], BigSigma1(v[4])), Ch(v[4], v[5], v[6])), k), w)
  }

  function T2(v: seq<Word32>): Word32
    requires |v| == 8
  {
    Plus(BigSigma0(v[0]), Maj(v[0], v[1], v[2]))
  }

  /** One round on the working variables a..h (step 3): a shift register. */
  function Round(v: seq<Word32>, k: Word32, w: Word32): (r: seq<Word32>)
    requires |v| == 8
    ensures |r| == 8
  {
    [Plus(T1(v, k, w), T2(v)), v[0], v[1], v[2], Plus(v[3], T1(v, k, w)), v[4], v[5], v[6]]
  }

  lemma MajorityBits(x: bv32, y: bv32)
    ensures MajBits(x, y, y) == y && MajBits(y, x, y) == y && MajBits(y, y, x) == y
  {
    assert (x & y) ^ (x & y) ^ (y & y) == y;
    assert (y & x) ^ (y & y) ^ (x & y) == y;
    assert (y & y) ^ (y & x) ^ (y & x) == y;
  }

  /** Where two of a, b and c agree, the round adds their common value to the rotations of a. */
  lemma MajorityRound(v: seq<Word32>, k: Word32, w: Word32, i: nat, j: nat)
    requires |v| == 8 && i < j < 3 && v[i] == v[j]
    ensures Round(v, k, w)[0] == Plus(T1(v, k, w), Plus(BigSigma0(v[0]), v[i]))
  {
    hide MajBits, BigSigma0, T1, Plus;
    MajorityBits(v[0].bits, v[i].bits);
    MajorityBits(v[1].bits, v[i].bits);
    MajorityBits(v[2].bits, v[i].bits);
  }

  /** Rounds lo..hi-1 with the given schedule words. */
  function Rounds(v: seq<Word32>, w: seq<Word32>, lo: nat, hi: nat): (r: seq<Word32>)
    requires |v| == 8
    requires lo <= hi <= 64 && hi <= |w|
    ensures |r| == 8
    decreases hi
  {
    if lo == hi then v else Round(Rounds(v, w, lo, hi - 1), K(hi - 1), w[hi - 1])
  }

  lemma {:induction false} RoundsSplit(v: seq<Word32>, w: seq<Word32>, lo: nat, mid: nat, hi: nat)
    requires |v| == 8
    requires lo <= mid <= hi <= 64 && hi <= |w|
    ensures Rounds(Rounds(v, w, lo, mid), w, mid, hi) == Rounds(v, w, lo, hi)
    decreases hi
  {
    hide Round, K;
    if mid < hi {
      RoundsSplit(v, w, lo, mid, hi - 1);
    }
  }

  /** Rounds read only the schedule words in their range. */
  lemma {:induction false} RoundsFrame(v: seq<Word32>, w: seq<Word32>, w': seq<Word32>, lo: nat, hi: nat)
    requires |v| == 8
    requires lo <= hi <= 64 && hi <= |w| && hi <= |w'|
    requires forall t :: lo <= t < hi ==> w[t] == w'[t]
    ensures Rounds(v, w, lo, hi) == Rounds(v, w', lo, hi)
    decreases hi
  {
    hide Round, K;
    if lo < hi {
      RoundsFrame(v, w, w', lo, hi - 1);
    }
  }

  function FullSchedule(block: seq<Word32>): (w: seq<Word32>)
    requires |block| == 16
    ensures |w| == 64
    ensures forall t :: 0 <= t < 64 ==> w[t] == Schedule(block, t)
  {
    seq(64, t requires 0 <= t => Schedule(block, t))
  }

  /** Pointwise sum of two chaining values (step 4). */
  function AddState(x: seq<Word32>, y: seq<Word32>): (r: seq<Word32>)
    requires |x| == |y| == 8
    ensures |r| == 8
    ensures forall i :: 0 <= i < 8 ==> r[i] == Plus(x[i], y[i])
  {
    seq(8, i requires 0 <= i < 8 => Plus(x[i], y[i]))
  }

  /** The SHA-256 compression function. */
  function Compress(h: seq<Word32>, block: seq<Word32>): (r: seq<Word32>)
    requires |h| == 8 && |block| == 16
    ensures |r| == 8
  {
    AddState(h, Rounds(h, FullSchedule(block), 0, 64))
  }

  // ---- Rotating indices

  /** Where the source keeps working variable k (0 for a, ..., 7 for h) before round i. */
  function Slot(i: nat, k: nat): (p: nat)
    requires i <= 64 && k < 8
    ensures p < 8
  {
    (64 - i + k) % 8
  }

  lemma SlotShifts(i: nat, k: nat)
    requires i < 64 && k < 7
    ensures Slot(i + 1, k + 1) == Slot(i, k)
    ensures Slot(i + 1, 0) == Slot(i, 7)
  {
    assert 64 - (i + 1) + (k + 1) == 64 - i + k && 64 - i + 7 == (64 - (i + 1)) + 8;
  }

  lemma SlotsDistinct(i: nat, j: nat, k: nat)
    requires i <= 64 && j < k < 8
    ensures Slot(i, j) != Slot(i, k)
  {
  }

  /** The working variables a..h as stored before round i. */
  function Unrotate(s: seq<Word32>, i: nat): (v: seq<Word32>)
    requires |s| >= 8 && i <= 64
    ensures |v| == 8
    ensures forall k :: 0 <= k < 8 ==> v[k] == s[Slot(i, k)]
  {
    seq(8, k requires 0 <= k < 8 => s[Slot(i, k)])
  }

  lemma UnrotateAligned(s: seq<Word32>, i: nat)
    requires |s| >= 8 && i <= 64 && i % 8 == 0
    ensures Unrotate(s, i) == s[..8]
  {
  }

  lemma UnrotateFrame(s: seq<Word32>, s': seq<Word32>, i: nat)
    requires |s| >= 8 && |s'| >= 8 && i <= 64
    requires s[..8] == s'[..8]
    ensures Unrotate(s, i) == Unrotate(s', i)
  {
  }

  /** Writing d + t0 over d and t0 + t1 over h is one step of the shift register. */
  lemma RotatedRound(s: seq<Word32>, i: nat, x: Word32, y: Word32, s': seq<Word32>)
    requires |s| >= 8 && i < 64
    requires |s'| == |s| && s'[Slot(i, 3)] == x && s'[Slot(i, 7)] == y
    requires forall p :: 0 <= p < |s| && p != Slot(i, 3) && p != Slot(i, 7) ==> s'[p] == s[p]
    ensures var v := Unrotate(s, i);
            Unrotate(s', i + 1) == [y, v[0], v[1], v[2], x, v[4], v[5], v[6]]
  {
    hide Slot;
    forall k: nat | k < 7 && k != 3
      ensures Unrotate(s', i + 1)[k + 1] == Unrotate(s, i)[k]
    {
      SlotShifts(i, k);
      if k < 3 { SlotsDistinct(i, k, 3); } else { SlotsDistinct(i, 3, k); }
      SlotsDistinct(i, k, 7);
    }
    SlotShifts(i, 3);
    var v, v' := Unrotate(s, i), Unrotate(s', i + 1);
    assert v'[0] == y && v'[0 + 1] == v[0] && v'[1 + 1] == v[1] && v'[2 + 1] == v[2];
    assert v'[4] == x && v'[4 + 1] == v[4] && v'[5 + 1] == v[5] && v'[6 + 1] == v[6];
  }

  /** RNDr(S, W, i) for i = lo .. hi-1: the rounds on the rotating in-place state. */
  method Mix(s: array<Word32>, w: array<Word32>, lo: nat, hi: nat)
    requires s.Length >= 8 && s != w
    requires lo <= hi <= 64 && hi <= w.Length
    modifies s
    ensures Unrotate(s[..], hi) == Rounds(old(Unrotate(s[..], lo)), old(w[..]), lo, hi)
    ensures s[8..] == old(s[8..])
  {
    hide Plus, Ch, Maj, ChCode, MajCode, BigSigma0, BigSigma1, K, RotR, T1, T2, Round;
    ghost var v0 := Unrotate(s[..], lo);
    var i := lo;
    while i < hi
      invariant lo <= i <= hi
      invariant Unrotate(s[..], i) == Rounds(v0, w[..], lo, i)
      invariant w[..] == old(w[..]) && s[8..] == old(s[8..])
    {
      RoundInPlace(s, i, w[i]);
      i := i + 1;
    }
  }

  /** The macro RND at rotated positions. */
  method RoundInPlace(s: array<Word32>, i: nat, w: Word32)
    requires s.Length >= 8 && i < 64
    modifies s
    ensures Unrotate(s[..], i + 1) == Round(old(Unrotate(s[..], i)), K(i), w)
    ensures s[8..] == old(s[8..])
  {
    hide Plus, Ch, Maj, ChCode, MajCode, BigSigma0, BigSigma1, K, RotR, Slot, Unrotate;
    ghost var v := Unrotate(s[..], i);
    ghost var before := s[..];
    var a, b, c, d := s[Slot(i, 0)], s[Slot(i, 1)], s[Slot(i, 2)], s[Slot(i, 3)];
    var e, f, g, h := s[Slot(i, 4)], s[Slot(i, 5)], s[Slot(i, 6)], s[Slot(i, 7)];
    var t0 := Plus(Plus(Plus(Plus(h, BigSigma1(e)), ChCode(e, f, g)), w), K(i));
    var t1 := Plus(BigSigma0(a), MajCode(a, b, c));
    SlotsDistinct(i, 3, 7);
    s[Slot(i, 3)] := Plus(d, t0);
    s[Slot(i, 7)] := Plus(t0, t1);
    assert t0 == T1(v, K(i), w) && t1 == T2(v) by {
      BooleanForms(e, f, g);
      BooleanForms(a, b, c);
      PlusSwapLast(Plus(Plus(h, BigSigma1(e)), Ch(e, f, g)), w, K(i));
    }
    RotatedRound(before, i, Plus(d, t0), Plus(t0, t1), s[..]);
  }

  /** sha256_transform: compresses one block into the chaining value, in place. */
  method Transform(state: array<Word32>, block: seq<Word32>, swap: bool)
    requires state.Length >= 8 && |block| == 16
    modifies state
    ensures state[..8] == Compress(old(state[..8]),
                                   if swap then seq(16, i requires 0 <= i < 16 => Reversed(block[i])) else block)
    ensures state[8..] == old(state[8..])
  {
    hide Plus, Reversed, Rounds, Unrotate, SmallSigma0, SmallSigma1;
    ghost var m := if swap then seq(16, i requires 0 <= i < 16 => Reversed(block[i])) else block;
    var w := new Word32[64];
    var i := 0;
    while i < 16
      invariant 0 <= i <= 16
      invariant forall t :: 0 <= t < i ==> w[t] == m[t]
      modifies w
    {
      w[i] := if swap then Reversed(block[i]) else block[i];
      i := i + 1;
    }
    Extend(w, 16, 64, m);
    var s := new Word32[8](k requires 0 <= k < 8 reads state => state[k]);
    assert state[..] == old(state[..]);
    assert forall k :: 0 <= k < 8 ==> s[k] == state[k];
    assert s[..] == s[..8] == state[..8] == old(state[..8]);
    UnrotateAligned(s[..], 0);
    Mix(s, w, 0, 64);
    assert state[..] == old(state[..]);
    assert w[..] == FullSchedule(m);
    UnrotateAligned(s[..], 64);
    AddInto(state, s);
  }

  /** Step 4: mixes the working variables into the chaining value. */
  method AddInto(state: array<Word32>, s: array<Word32>)
    requires state.Length >= 8 && s.Length >= 8 && s != state
    modifies state
    ensures state[..8] == AddState(old(state[..8]), s[..8])
    ensures state[8..] == old(state[8..])
  {
    hide Plus;
    var i := 0;
    while i < 8
      invariant 0 <= i <= 8
      invariant forall t :: 0 <= t < i ==> state[t] == Plus(old(state[t]), s[t])
      invariant forall t :: i <= t < state.Length ==> state[t] == old(state[t])
    {
      state[i] := Plus(state[i], s[i]);
      i := i + 1;
    }
  }

  /** The schedule loop, two words an iteration. */
  method Extend(w: array<Word32>, lo: nat, hi: nat, ghost m: seq<Word32>)
    requires 16 <= lo <= hi <= w.Length && (hi - lo) % 2 == 0
    requires |m| == 16 && forall t :: 0 <= t < lo ==> w[t] == Schedule(m, t)
    modifies w
    ensures forall t :: 0 <= t < hi ==> w[t] == Schedule(m, t)
    ensures forall t :: hi <= t < w.Length ==> w[t] == old(w[t])
  {
    hide Plus, SmallSigma0, SmallSigma1, Schedule;
    var i := lo;
    while i < hi
      invariant lo <= i <= hi && (hi - i) % 2 == 0
      invariant forall t :: 0 <= t < i ==> w[t] == Schedule(m, t)
      invariant forall t :: i <= t < w.Length ==> w[t] == old(w[t])
    {
      ScheduleStep(m, i);
      ScheduleStep(m, i + 1);
      w[i] := Plus(Plus(Plus(SmallSigma1(w[i - 2]), w[i - 7]), SmallSigma0(w[i - 15])), w[i - 16]);
      w[i + 1] := Plus(Plus(Plus(SmallSigma1(w[i - 1]), w[i - 6]), SmallSigma0(w[i - 14])), w[i - 15]);
      i := i + 2;
    }
  }
}
