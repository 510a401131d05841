/**
  The nonce loop's kernel of algo/sha2.c: sha256d_preextend, sha256d_prehash and sha256d_ms.
  Work that does not depend on the nonce (word 3 of the second header block) is hoisted out of
  the loop, schedule terms that the padding makes zero are dropped, and the second hash stops
  as soon as its word 7 is known.
 */
module MiningKernel {
  import opened WordBits
  import opened Sha256

  /** The second 16-word block of a padded 80-byte header; words 0..3 are free. */
  predicate HeaderTail(m: seq<Word32>)
  {
    && |m| == 16
    && m[4] == W(0x8000_0000)
    && (forall t :: 5 <= t < 15 ==> m[t] == W(0))
    && m[15] == W(0x280)
  }

  /** Words 8..15 of the second hash's block: the padding of a 32-byte message. */
  const DIGEST_PADDING: seq<Word32> := [W(0x8000_0000), W(0), W(0), W(0), W(0), W(0), W(0), W(0x100)]

  /** What sha256d_ms reads of the schedule buffer beyond its first 16 words m: words 16 and 17
      of the schedule, and of the other words the part that does not depend on the nonce m[3]. */
  ghost predicate PreExtended(w: seq<Word32>, m: seq<Word32>)
  {
    && |w| >= 64 && |m| == 16
    && w[16] == Schedule(m, 16)
    && w[17] == Schedule(m, 17)
    && w[18] == Plus(Plus(SmallSigma1(Schedule(m, 16)), m[11]), m[2])
    && w[19] == Plus(Plus(SmallSigma1(Schedule(m, 17)), m[12]), SmallSigma0(m[4]))
    && w[20] == Plus(Plus(m[13], SmallSigma0(m[5])), m[4])
    && w[22] == Plus(Plus(m[15], SmallSigma0(m[7])), m[6])
    && w[23] == Plus(Plus(Schedule(m, 16), SmallSigma0(m[8])), m[7])
    && w[24] == Plus(Plus(Schedule(m, 17), SmallSigma0(m[9])), m[8])
    && w[30] == Plus(SmallSigma0(m[15]), m[14])
    && w[31] == Plus(SmallSigma0(Schedule(m, 16)), m[15])
  }

  /** The hoisted words stay valid when the nonce word is overwritten. */
  lemma PreExtendedIgnoresNonce(w: seq<Word32>, m: seq<Word32>, n: Word32)
    requires PreExtended(w, m)
    ensures PreExtended(w, m[3 := n])
  {
    hide Plus, SmallSigma0, SmallSigma1, Schedule;
    var m' := m[3 := n];
    ScheduleBase(m);
    ScheduleBase(m');
    ScheduleStep(m, 16);
    ScheduleStep(m', 16);
    ScheduleStep(m, 17);
    ScheduleStep(m', 17);
  }

  /** sha256d_preextend */
  method PreExtend(w: array<Word32>)
    requires w.Length >= 64
    modifies w
    ensures w[..16] == old(w[..16])
    ensures PreExtended(w[..], w[..16])
  {
    hide Plus, SmallSigma0, SmallSigma1, Schedule;
    ghost var m := w[..16];
    PreExtendLow(w);
    w[25] := Plus(SmallSigma0(w[10]), w[9]);
    w[26] := Plus(SmallSigma0(w[11]), w[10]);
    w[27] := Plus(SmallSigma0(w[12]), w[11]);
    w[28] := Plus(SmallSigma0(w[13]), w[12]);
    w[29] := Plus(SmallSigma0(w[14]), w[13]);
    w[30] := Plus(SmallSigma0(w[15]), w[14]);
    w[31] := Plus(SmallSigma0(w[16]), w[15]);
    assert w[..16] == m;
  }

  /** Words 16..24 of sha256d_preextend. */
  method PreExtendLow(w: array<Word32>)
    requires w.Length >= 64
    modifies w
    ensures w[..16] == old(w[..16])
    ensures var m := w[..16];
            && w[16] == Schedule(m, 16)
            && w[17] == Schedule(m, 17)
            && w[18] == Plus(Plus(SmallSigma1(Schedule(m, 16)), m[11]), m[2])
            && w[19] == Plus(Plus(SmallSigma1(Schedule(m, 17)), m[12]), SmallSigma0(m[4]))
            && w[20] == Plus(Plus(m[13], SmallSigma0(m[5])), m[4])
            && w[22] == Plus(Plus(m[15], SmallSigma0(m[7])), m[6])
            && w[23] == Plus(Plus(Schedule(m, 16), SmallSigma0(m[8])), m[7])
            && w[24] == Plus(Plus(Schedule(m, 17), SmallSigma0(m[9])), m[8])
  {
    hide Plus, SmallSigma0, SmallSigma1, Schedule;
    ghost var m := w[..16];
    ScheduleBase(m);
    ScheduleStep(m, 16);
    ScheduleStep(m, 17);
    w[16] := Plus(Plus(Plus(SmallSigma1(w[14]), w[9]), SmallSigma0(w[1])), w[0]);
    w[17] := Plus(Plus(Plus(SmallSigma1(w[15]), w[10]), SmallSigma0(w[2])), w[1]);
    w[18] := Plus(Plus(SmallSigma1(w[16]), w[11]), w[2]);
    w[19] := Plus(Plus(SmallSigma1(w[17]), w[12]), SmallSigma0(w[4]));
    w[20] := Plus(Plus(w[13], SmallSigma0(w[5])), w[4]);
    w[21] := Plus(Plus(w[14], SmallSigma0(w[6])), w[5]);
    w[22] := Plus(Plus(w[15], SmallSigma0(w[7])), w[6]);
    w[23] := Plus(Plus(w[16], SmallSigma0(w[8])), w[7]);
    w[24] := Plus(Plus(w[17], SmallSigma0(w[9])), w[8]);
    assert w[..16] == m;
  }

  /** The relation of sha256d_prehash's output to the midstate: three rounds, rotated. */
  predicate PreHashed(prehash: seq<Word32>, midstate: seq<Word32>, m: seq<Word32>)
  {
    |prehash| == |midstate| == 8 && |m| == 16 && Unrotate(prehash, 3) == Rounds(midstate, m, 0, 3)
  }

  /** The hoisted rounds stay valid when the nonce word is overwritten. */
  lemma PreHashedIgnoresNonce(prehash: seq<Word32>, midstate: seq<Word32>, m: seq<Word32>, n: Word32)
    requires PreHashed(prehash, midstate, m)
    ensures PreHashed(prehash, midstate, m[3 := n])
  {
  }

  /** sha256d_prehash */
  method PreHash(s: array<Word32>, w: array<Word32>)
    requires s.Length == 8 && w.Length == 16 && s != w
    modifies s
    ensures PreHashed(s[..], old(s[..]), old(w[..]))
  {
    hide Rounds;
    UnrotateAligned(s[..], 0);
    assert s[..] == s[..8];
    Mix(s, w, 0, 3);
  }

  // ---- Schedule algebra

  lemma FirstTermLast(a: Word32, b: Word32, c: Word32, d: Word32)
    ensures Plus(Plus(Plus(a, b), c), d) == Plus(Plus(Plus(b, c), d), a)
  {
    hide Plus;
    PlusCommutes(a, b);
    PlusSwapLast(b, a, c);
    PlusSwapLast(Plus(b, c), a, d);
  }

  lemma FirstPairLast(a: Word32, b: Word32, c: Word32, d: Word32)
    ensures Plus(Plus(Plus(a, b), c), d) == Plus(Plus(c, d), Plus(a, b))
  {
    hide Plus;
    PlusAssociates(Plus(a, b), c, d);
    PlusCommutes(Plus(a, b), Plus(c, d));
  }

  /** Schedule words 18..24 are the hoisted parts plus the nonce-dependent term;
      word 21 keeps only that term. */
  lemma PatchedLow(w: seq<Word32>, m: seq<Word32>)
    requires HeaderTail(m) && PreExtended(w, m)
    ensures Schedule(m, 16) == w[16] && Schedule(m, 17) == w[17]
    ensures Schedule(m, 18) == Plus(w[18], SmallSigma0(m[3]))
    ensures Schedule(m, 19) == Plus(w[19], m[3])
    ensures Schedule(m, 20) == Plus(w[20], SmallSigma1(Schedule(m, 18)))
    ensures Schedule(m, 21) == SmallSigma1(Schedule(m, 19))
    ensures Schedule(m, 22) == Plus(w[22], SmallSigma1(Schedule(m, 20)))
    ensures Schedule(m, 23) == Plus(w[23], SmallSigma1(Schedule(m, 21)))
    ensures Schedule(m, 24) == Plus(w[24], SmallSigma1(Schedule(m, 22)))
  {
    hide Plus, SmallSigma0, SmallSigma1, Schedule;
    ScheduleBase(m);
    SigmaOfZero();
    ScheduleStep(m, 18);
    PlusSwapLast(Plus(SmallSigma1(Schedule(m, 16)), m[11]), SmallSigma0(m[3]), m[2]);
    ScheduleStep(m, 19);
    ScheduleStep(m, 20);
    FirstTermLast(SmallSigma1(Schedule(m, 18)), m[13], SmallSigma0(m[5]), m[4]);
    ScheduleStep(m, 21);
    PlusZero(SmallSigma1(Schedule(m, 19)));
    ScheduleStep(m, 22);
    FirstTermLast(SmallSigma1(Schedule(m, 20)), m[15], SmallSigma0(m[7]), m[6]);
    ScheduleStep(m, 23);
    FirstTermLast(SmallSigma1(Schedule(m, 21)), Schedule(m, 16), SmallSigma0(m[8]), m[7]);
    ScheduleStep(m, 24);
    FirstTermLast(SmallSigma1(Schedule(m, 22)), Schedule(m, 17), SmallSigma0(m[9]), m[8]);
  }

  /** Schedule words 25..29 lose the two terms that the padding makes zero. */
  lemma PatchedMiddle(m: seq<Word32>, t: nat)
    requires HeaderTail(m) && 25 <= t < 30
    ensures Schedule(m, t) == Plus(SmallSigma1(Schedule(m, t - 2)), Schedule(m, t - 7))
  {
    hide Plus, SmallSigma0, SmallSigma1, Schedule;
    ScheduleBase(m);
    SigmaOfZero();
    ScheduleStep(m, t);
    PlusZero(Plus(SmallSigma1(Schedule(m, t - 2)), Schedule(m, t - 7)));
  }

  lemma PatchedHigh(w: seq<Word32>, m: seq<Word32>, t: nat)
    requires PreExtended(w, m) && 30 <= t < 32
    ensures Schedule(m, t) == Plus(w[t], Plus(SmallSigma1(Schedule(m, t - 2)), Schedule(m, t - 7)))
  {
    hide Plus, SmallSigma0, SmallSigma1, Schedule;
    ScheduleBase(m);
    ScheduleStep(m, t);
    FirstPairLast(SmallSigma1(Schedule(m, t - 2)), Schedule(m, t - 7),
                  SmallSigma0(Schedule(m, t - 15)), Schedule(m, t - 16));
  }

  /** The first schedule of sha256d_ms: patches the hoisted words in place and extends to 64. */
  method PatchSchedule(w: array<Word32>)
    requires w.Length >= 64 && HeaderTail(w[..16]) && PreExtended(w[..], w[..16])
    modifies w
    ensures w[..18] == old(w[..18])
    ensures w[..64] == FullSchedule(old(w[..16]))
  {
    hide Plus, SmallSigma0, SmallSigma1, Schedule, PreExtended, HeaderTail;
    ghost var m := w[..16];
    PatchedMiddle(m, 25);
    PatchedMiddle(m, 26);
    PatchedMiddle(m, 27);
    PatchedMiddle(m, 28);
    PatchedMiddle(m, 29);
    PatchedHigh(w[..], m, 30);
    PatchedHigh(w[..], m, 31);
    PatchLow(w);
    w[25] := Plus(SmallSigma1(w[23]), w[18]);
    w[26] := Plus(SmallSigma1(w[24]), w[19]);
    w[27] := Plus(SmallSigma1(w[25]), w[20]);
    w[28] := Plus(SmallSigma1(w[26]), w[21]);
    w[29] := Plus(SmallSigma1(w[27]), w[22]);
    w[30] := Plus(w[30], Plus(SmallSigma1(w[28]), w[23]));
    w[31] := Plus(w[31], Plus(SmallSigma1(w[29]), w[24]));
    Extend(w, 32, 64, m);
    ScheduleBase(m);
  }

  /** Words 18..24. */
  method PatchLow(w: array<Word32>)
    requires w.Length >= 64 && HeaderTail(w[..16]) && PreExtended(w[..], w[..16])
    modifies w
    ensures forall t :: 0 <= t < 25 ==> w[t] == Schedule(old(w[..16]), t)
    ensures forall t :: 0 <= t < w.Length && !(18 <= t < 25) ==> w[t] == old(w[t])
  {
    hide Plus, SmallSigma0, SmallSigma1, Schedule, PreExtended, HeaderTail, RotR;
    ghost var m := w[..16];
    PatchedLow(w[..], m);
    w[18] := Plus(w[18], SmallSigma0(w[3]));
    w[19] := Plus(w[19], w[3]);
    w[20] := Plus(w[20], SmallSigma1(w[18]));
    w[21] := SmallSigma1(w[19]);
    w[22] := Plus(w[22], SmallSigma1(w[20]));
    w[23] := Plus(w[23], SmallSigma1(w[21]));
    w[24] := Plus(w[24], SmallSigma1(w[22]));
    ScheduleBase(m);
  }

  // ---- The first hash

  /** Rounds 3..63 from the hoisted state, then the midstate: S[0..7] becomes the first digest. */
  method FirstHash(s: array<Word32>, w: array<Word32>, midstate: seq<Word32>, prehash: seq<Word32>, ghost m: seq<Word32>)
    requires s.Length == 64 && w.Length >= 64 && s != w
    requires |m| == 16 && w[..64] == FullSchedule(m)
    requires PreHashed(prehash, midstate, m)
    modifies s
    ensures s[..8] == Compress(midstate, m)
    ensures s[8..] == old(s[8..])
  {
    hide Plus, Rounds, Schedule, Unrotate, FullSchedule;
    var i := 0;
    while i < 8
      invariant 0 <= i <= 8
      invariant s[..i] == prehash[..i] && s[8..] == old(s[8..])
    {
      s[i] := prehash[i];
      i := i + 1;
    }
    UnrotateFrame(s[..], prehash, 3);
    assert s[..8] == prehash;
    Mix(s, w, 3, 64);
    ghost var full := FullSchedule(m);
    assert Unrotate(s[..], 64) == Rounds(midstate, full, 0, 64) by {
      ScheduleBase(m);
      RoundsFrame(midstate, m, full, 0, 3);
      RoundsFrame(Rounds(midstate, full, 0, 3), w[..], full, 3, 64);
      RoundsSplit(midstate, full, 0, 3, 64);
    }
    UnrotateAligned(s[..], 64);
    AddMidstate(s, midstate);
  }

  method AddMidstate(s: array<Word32>, midstate: seq<Word32>)
    requires s.Length == 64 && |midstate| == 8
    modifies s
    ensures s[..8] == AddState(midstate, old(s[..8]))
    ensures s[8..] == old(s[8..])
  {
    hide Plus;
    var i := 0;
    while i < 8
      invariant 0 <= i <= 8
      invariant forall t :: 0 <= t < i ==> s[t] == Plus(midstate[t], old(s[t]))
      invariant forall t :: i <= t < 64 ==> s[t] == old(s[t])
    {
      PlusCommutes(s[i], midstate[i]);
      s[i] := Plus(s[i], midstate[i]);
      i := i + 1;
    }
  }

  // ---- The second hash

  /** The block of the second hash, words 0..60 of whose schedule are needed. */
  method DigestSchedule(s: array<Word32>)
    requires s.Length == 64
    modifies s
    ensures forall t :: 0 <= t < 61 ==> s[t] == Schedule(old(s[..8]) + DIGEST_PADDING, t)
  {
    hide Plus, SmallSigma0, SmallSigma1, Schedule;
    ghost var m := s[..8] + DIGEST_PADDING;
    var i := 0;
    while i < 8
      invariant 0 <= i <= 8
      invariant forall t :: 0 <= t < 8 + i ==> s[t] == m[t]
    {
      s[8 + i] := DIGEST_PADDING[i];
      i := i + 1;
    }
    ScheduleBase(m);
    Extend(s, 16, 60, m);
    s[60] := Plus(Plus(Plus(SmallSigma1(s[58]), s[53]), SmallSigma0(s[45])), s[44]);
    ScheduleStep(m, 60);
  }

  /** The new e of a round: d + T1. */
  function NextE(d: Word32, e: Word32, f: Word32, g: Word32, h: Word32, k: Word32, w: Word32): Word32
  {
    Plus(d, Plus(Plus(Plus(Plus(h, BigSigma1(e)), Ch(e, f, g)), k), w))
  }

  /** Word h after round 63 is the e of round 60: rounds 57..60 need only their d + T1 half,
      and rounds 61..63 only move it. */
  lemma LastWord(v: seq<Word32>, w: seq<Word32>)
    requires |v| == 8 && |w| == 64
    ensures var e58 := NextE(v[3], v[4], v[5], v[6], v[7], K(57), w[57]);
            var e59 := NextE(v[2], e58, v[4], v[5], v[6], K(58), w[58]);
            var e60 := NextE(v[1], e59, e58, v[4], v[5], K(59), w[59]);
            Rounds(v, w, 57, 64)[7] == NextE(v[0], e60, e59, e58, v[4], K(60), w[60])
  {
  }

  /** `d += h + S1(e) + Ch(e, f, g) + w + k`, as the source writes the last four rounds. */
  function HalfRound(d: Word32, e: Word32, f: Word32, g: Word32, h: Word32, k: Word32, w: Word32): (r: Word32)
    ensures r == NextE(d, e, f, g, h, k, w)
  {
    hide Plus, Ch, ChCode, BigSigma1;
    BooleanForms(e, f, g);
    PlusSwapLast(Plus(Plus(h, BigSigma1(e)), Ch(e, f, g)), w, k);
    Plus(d, Plus(Plus(Plus(Plus(h, BigSigma1(e)), ChCode(e, f, g)), w), k))
  }

  /** The four half rounds that close sha256d_ms; only word 7 is meaningful afterwards. */
  method HalfRounds(hash: array<Word32>, s: array<Word32>, ghost w: seq<Word32>, ghost h0: seq<Word32>)
    requires hash.Length == 8 && s.Length == 64 && hash != s
    requires |w| == 64 && forall t :: 57 <= t < 61 ==> s[t] == w[t]
    requires |h0| == 8 && Unrotate(hash[..], 57) == Rounds(h0, w, 0, 57)
    modifies hash
    ensures hash[7] == Plus(Init()[7], Rounds(h0, w, 0, 64)[7])
  {
    hide Plus, Ch, ChCode, BigSigma1, NextE, HalfRound, Rounds, Init, K, Unrotate;
    ghost var v := Unrotate(hash[..], 57);
    assert hash[7] == v[0] && hash[0] == v[1] && hash[1] == v[2] && hash[2] == v[3];
    assert hash[3] == v[4] && hash[4] == v[5] && hash[5] == v[6] && hash[6] == v[7];
    LastWord(v, w);
    RoundsSplit(h0, w, 0, 57, 64);
    hash[2] := HalfRound(hash[2], hash[3], hash[4], hash[5], hash[6], K(57), s[57]);
    hash[1] := HalfRound(hash[1], hash[2], hash[3], hash[4], hash[5], K(58), s[58]);
    hash[0] := HalfRound(hash[0], hash[1], hash[2], hash[3], hash[4], K(59), s[59]);
    LastHalfRound(hash[7], hash[0], hash[1], hash[2], hash[3], K(60), s[60], Init()[7]);
    hash[7] := Plus(hash[7], Plus(Plus(Plus(Plus(Plus(hash[3], BigSigma1(hash[0])),
                   ChCode(hash[0], hash[1], hash[2])), s[60]), K(60)), Init()[7]));
  }

  lemma LastHalfRound(d: Word32, e: Word32, f: Word32, g: Word32, h: Word32, k: Word32, w: Word32, x: Word32)
    ensures Plus(d, Plus(Plus(Plus(Plus(Plus(h, BigSigma1(e)), ChCode(e, f, g)), w), k), x))
         == Plus(x, NextE(d, e, f, g, h, k, w))
  {
    hide Plus, Ch, ChCode, BigSigma1;
    var t := Plus(Plus(Plus(Plus(h, BigSigma1(e)), ChCode(e, f, g)), w), k);
    BooleanForms(e, f, g);
    PlusSwapLast(Plus(Plus(h, BigSigma1(e)), Ch(e, f, g)), w, k);
    PlusAssociates(d, t, x);
    PlusCommutes(Plus(d, t), x);
  }

  /** The digest whose word 7 the kernel computes: the second hash of a first-hash digest. */
  function Rehash(digest: seq<Word32>): (r: seq<Word32>)
    requires |digest| == 8
    ensures |r| == 8
  {
    Compress(Init(), digest + DIGEST_PADDING)
  }

  method SecondHash(hash: array<Word32>, s: array<Word32>)
    requires hash.Length == 8 && s.Length == 64 && hash != s
    modifies hash, s
    ensures hash[7] == Rehash(old(s[..8]))[7]
  {
    hide Plus, Rounds, Schedule, Unrotate;
    ghost var m := s[..8] + DIGEST_PADDING;
    DigestSchedule(s);
    var i := 0;
    var init := Init();
    while i < 8
      invariant 0 <= i <= 8
      invariant hash[..i] == init[..i]
      modifies hash
    {
      hash[i] := init[i];
      i := i + 1;
    }
    assert hash[..] == hash[..8] == init;
    UnrotateAligned(hash[..], 0);
    Mix(hash, s, 0, 57);
    ghost var full := FullSchedule(m);
    RoundsFrame(init, s[..], full, 0, 57);
    HalfRounds(hash, s, full, init);
  }

  /**
    sha256d_ms.  On a pre-extended schedule buffer and a pre-hashed midstate, word 7 of hash is
    word 7 of the double hash of midstate and the block w[0..15]; the buffer is again
    pre-extended, so the next call, with another nonce in w[3], is as good as this one.
   */
  method DoubleHashWord7(hash: array<Word32>, w: array<Word32>, midstate: seq<Word32>, prehash: seq<Word32>)
    requires hash.Length == 8 && w.Length == 64 && hash != w
    requires HeaderTail(w[..16]) && PreExtended(w[..], w[..16])
    requires PreHashed(prehash, midstate, w[..16])
    modifies hash, w
    ensures hash[7] == Rehash(Compress(midstate, old(w[..16])))[7]
    ensures w[..16] == old(w[..16])
    ensures PreExtended(w[..], w[..16])
  {
    hide Rehash, Compress, HeaderTail, PreHashed, FullSchedule, PreExtended;
    ghost var m, before := w[..16], w[..];
    var s := new Word32[64];
    Save(s, w);
    ghost var saved := s[..];
    PatchSchedule(w);
    FirstHash(s, w, midstate, prehash, m);
    assert forall t :: 8 <= t < 64 ==> s[..][t] == s[8..][t - 8] == saved[8..][t - 8] == saved[t];
    assert w[..16] == w[..18][..16] == m;
    Restore(w, s);
    assert w[..18] == before[..18];
    assert w[..][16] == w[..18][16] && before[16] == before[..18][16];
    assert w[..][17] == w[..18][17] && before[17] == before[..18][17];
    PreExtendedFrame(before, w[..], m);
    SecondHash(hash, s);
  }

  /** The hoisted words that the patching overwrites. */
  ghost predicate SameHoisted(x: seq<Word32>, y: seq<Word32>)
    requires |x| >= 64 && |y| >= 64
  {
    && x[18] == y[18] && x[19] == y[19] && x[20] == y[20] && x[22] == y[22]
    && x[23] == y[23] && x[24] == y[24] && x[30] == y[30] && x[31] == y[31]
  }

  method Save(s: array<Word32>, w: array<Word32>)
    requires s.Length == 64 && w.Length == 64 && s != w
    modifies s
    ensures SameHoisted(s[..], w[..])
  {
    s[18] := w[18];
    s[19] := w[19];
    s[20] := w[20];
    s[22] := w[22];
    s[23] := w[23];
    s[24] := w[24];
    s[30] := w[30];
    s[31] := w[31];
  }

  method Restore(w: array<Word32>, s: array<Word32>)
    requires s.Length == 64 && w.Length == 64 && s != w
    modifies w
    ensures SameHoisted(w[..], s[..])
    ensures w[..18] == old(w[..18])
    ensures w[..16] == old(w[..16])
  {
    w[18] := s[18];
    w[19] := s[19];
    w[20] := s[20];
    w[22] := s[22];
    w[23] := s[23];
    w[24] := s[24];
    w[30] := s[30];
    w[31] := s[31];
  }

  lemma PreExtendedFrame(w: seq<Word32>, w': seq<Word32>, m: seq<Word32>)
    requires PreExtended(w, m) && |w'| >= 64
    requires w'[16] == w[16] && w'[17] == w[17] && SameHoisted(w', w)
    ensures PreExtended(w', m)
  {
  }
}
