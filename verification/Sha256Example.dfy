/**
  SHA-256 of "abc", the first example published with FIPS 180-4: the message schedule, the working
  variables after every eighth round and the digest, as the definitions of Sha256 give them.
 */
module Sha256Example {
  import opened Words
  import opened Bytes
  import opened WordBits
  import opened Sha256
  import opened Sha256Message

  /** The block the message is padded to. */
  function AbcBlock(): (m: seq<Word32>)
    ensures |m| == 16
  {
    [W(0x61626380), W(0), W(0), W(0), W(0), W(0), W(0), W(0), W(0), W(0), W(0), W(0), W(0), W(0), W(0), W(0x18)]
  }

  // The working variables a..h after 0, 8, ..., 64 rounds

  function State0(): seq<Word32> {
    [W(0x6a09e667), W(0xbb67ae85), W(0x3c6ef372), W(0xa54ff53a), W(0x510e527f), W(0x9b05688c), W(0x1f83d9ab), W(0x5be0cd19)]
  }
  function State8(): seq<Word32> {
    [W(0x85a07b5f), W(0xe5030380), W(0x2b4209f5), W(0x04409a6a), W(0x0c657a79), W(0x9b27a401), W(0x714260ad), W(0x43ada245)]
  }
  function State16(): seq<Word32> {
    [W(0xb0fa238e), W(0xc0645fde), W(0xd932eb16), W(0x87912990), W(0x07590dcd), W(0x0b92f20c), W(0x745a48de), W(0x1e578218)]
  }
  function State24(): seq<Word32> {
    [W(0xc5d53d8d), W(0xa7a3623f), W(0xc2606d6d), W(0x9dc68b63), W(0xaa47c347), W(0x49f5114a), W(0xe1257970), W(0x8ada8930)]
  }
  function State32(): seq<Word32> {
    [W(0x73b33bf5), W(0xea992a22), W(0xa0060b30), W(0x363482c9), W(0xba591112), W(0x0109ab3a), W(0xade79437), W(0x6112a3b7)]
  }
  function State40(): seq<Word32> {
    [W(0x79ea687a), W(0x6dc57a8a), W(0x34df1604), W(0x41a65cb1), W(0x1efbc0a0), W(0xf0781bc8), W(0xa507a53d), W(0x0772a26b)]
  }
  function State48(): seq<Word32> {
    [W(0x4172328d), W(0xa14c14b0), W(0x72ab4b91), W(0x26628815), W(0xfecf0bc6), W(0xd57b94a9), W(0xb7755da1), W(0xa80f11f0)]
  }
  function State56(): seq<Word32> {
    [W(0x38cc9913), W(0x3ec45cdb), W(0xf5702fdb), W(0x101fd28f), W(0x54cb266b), W(0xe50e1b4f), W(0x9f4787c3), W(0x529e7d00)]
  }
  function State64(): seq<Word32> {
    [W(0x506e3058), W(0xd39a2165), W(0x04d24d6c), W(0xb85e2ce9), W(0x5ef50f24), W(0xfb121210), W(0x948d25b6), W(0x961f4894)]
  }

  // The message schedule, eight words each

  function Words0(): seq<Word32> {
    [W(0x61626380), W(0x00000000), W(0x00000000), W(0x00000000), W(0x00000000), W(0x00000000), W(0x00000000), W(0x00000000)]
  }
  function Words8(): seq<Word32> {
    [W(0x00000000), W(0x00000000), W(0x00000000), W(0x00000000), W(0x00000000), W(0x00000000), W(0x00000000), W(0x00000018)]
  }
  function Words16(): seq<Word32> {
    [W(0x61626380), W(0x000f0000), W(0x7da86405), W(0x600003c6), W(0x3e9d7b78), W(0x0183fc00), W(0x12dcbfdb), W(0xe2e2c38e)]
  }
  function Words24(): seq<Word32> {
    [W(0xc8215c1a), W(0xb73679a2), W(0xe5bc3909), W(0x32663c5b), W(0x9d209d67), W(0xec8726cb), W(0x702138a4), W(0xd3b7973b)]
  }
  function Words32(): seq<Word32> {
    [W(0x93f5997f), W(0x3b68ba73), W(0xaff4ffc1), W(0xf10a5c62), W(0x0a8b3996), W(0x72af830a), W(0x9409e33e), W(0x24641522)]
  }
  function Words40(): seq<Word32> {
    [W(0x9f47bf94), W(0xf0a64f5a), W(0x3e246a79), W(0x27333ba3), W(0x0c4763f2), W(0x840abf27), W(0x7a290d5d), W(0x065c43da)]
  }
  function Words48(): seq<Word32> {
    [W(0xfb3e89cb), W(0xcc7617db), W(0xb9e66c34), W(0xa9993667), W(0x84badedd), W(0xc21462bc), W(0x1487472c), W(0xb20f7a99)]
  }
  function Words56(): seq<Word32> {
    [W(0xef57b9cd), W(0xebe6b238), W(0x9fe3095e), W(0x78bc8d4b), W(0xa43fcf15), W(0x668b2ff8), W(0xeeaba2cc), W(0x12b1edeb)]
  }

  // ---- Schedule

  ghost predicate EightWords(lo: nat, w0: bv32, w1: bv32, w2: bv32, w3: bv32, w4: bv32, w5: bv32, w6: bv32, w7: bv32)
  {
    var m := AbcBlock();
    && Schedule(m, lo) == W(w0) && Schedule(m, lo + 1) == W(w1) && Schedule(m, lo + 2) == W(w2)
    && Schedule(m, lo + 3) == W(w3) && Schedule(m, lo + 4) == W(w4) && Schedule(m, lo + 5) == W(w5)
    && Schedule(m, lo + 6) == W(w6) && Schedule(m, lo + 7) == W(w7)
  }

  lemma Schedule0()
    ensures EightWords(0, 0x61626380, 0x00000000, 0x00000000, 0x00000000, 0x00000000, 0x00000000, 0x00000000, 0x00000000)
  {
  }

  lemma Schedule8()
    ensures EightWords(8, 0x00000000, 0x00000000, 0x00000000, 0x00000000, 0x00000000, 0x00000000, 0x00000000, 0x00000018)
  {
  }

  lemma Schedule16()
    ensures EightWords(16, 0x61626380, 0x000f0000, 0x7da86405, 0x600003c6, 0x3e9d7b78, 0x0183fc00, 0x12dcbfdb, 0xe2e2c38e)
  {
    Schedule0();
    Schedule8();
    hide Schedule;
    ScheduleStep(AbcBlock(), 16);
    ScheduleStep(AbcBlock(), 17);
    ScheduleStep(AbcBlock(), 18);
    ScheduleStep(AbcBlock(), 19);
    ScheduleStep(AbcBlock(), 20);
    ScheduleStep(AbcBlock(), 21);
    ScheduleStep(AbcBlock(), 22);
    ScheduleStep(AbcBlock(), 23);
  }

  lemma Schedule24()
    ensures EightWords(24, 0xc8215c1a, 0xb73679a2, 0xe5bc3909, 0x32663c5b, 0x9d209d67, 0xec8726cb, 0x702138a4, 0xd3b7973b)
  {
    Schedule8();
    Schedule16();
    hide Schedule;
    ScheduleStep(AbcBlock(), 24);
    ScheduleStep(AbcBlock(), 25);
    ScheduleStep(AbcBlock(), 26);
    ScheduleStep(AbcBlock(), 27);
    ScheduleStep(AbcBlock(), 28);
    ScheduleStep(AbcBlock(), 29);
    ScheduleStep(AbcBlock(), 30);
    ScheduleStep(AbcBlock(), 31);
  }

  lemma Schedule32()
    ensures EightWords(32, 0x93f5997f, 0x3b68ba73, 0xaff4ffc1, 0xf10a5c62, 0x0a8b3996, 0x72af830a, 0x9409e33e, 0x24641522)
  {
    Schedule16();
    Schedule24();
    hide Schedule;
    ScheduleStep(AbcBlock(), 32);
    ScheduleStep(AbcBlock(), 33);
    ScheduleStep(AbcBlock(), 34);
    ScheduleStep(AbcBlock(), 35);
    ScheduleStep(AbcBlock(), 36);
    ScheduleStep(AbcBlock(), 37);
    ScheduleStep(AbcBlock(), 38);
    ScheduleStep(AbcBlock(), 39);
  }

  lemma Schedule40()
    ensures EightWords(40, 0x9f47bf94, 0xf0a64f5a, 0x3e246a79, 0x27333ba3, 0x0c4763f2, 0x840abf27, 0x7a290d5d, 0x065c43da)
  {
    Schedule24();
    Schedule32();
    hide Schedule;
    ScheduleStep(AbcBlock(), 40);
    ScheduleStep(AbcBlock(), 41);
    ScheduleStep(AbcBlock(), 42);
    ScheduleStep(AbcBlock(), 43);
    ScheduleStep(AbcBlock(), 44);
    ScheduleStep(AbcBlock(), 45);
    ScheduleStep(AbcBlock(), 46);
    ScheduleStep(AbcBlock(), 47);
  }

  lemma Schedule48()
    ensures EightWords(48, 0xfb3e89cb, 0xcc7617db, 0xb9e66c34, 0xa9993667, 0x84badedd, 0xc21462bc, 0x1487472c, 0xb20f7a99)
  {
    Schedule32();
    Schedule40();
    hide Schedule;
    ScheduleStep(AbcBlock(), 48);
    ScheduleStep(AbcBlock(), 49);
    ScheduleStep(AbcBlock(), 50);
    ScheduleStep(AbcBlock(), 51);
    ScheduleStep(AbcBlock(), 52);
    ScheduleStep(AbcBlock(), 53);
    ScheduleStep(AbcBlock(), 54);
    ScheduleStep(AbcBlock(), 55);
  }

  lemma Schedule56()
    ensures EightWords(56, 0xef57b9cd, 0xebe6b238, 0x9fe3095e, 0x78bc8d4b, 0xa43fcf15, 0x668b2ff8, 0xeeaba2cc, 0x12b1edeb)
  {
    Schedule40();
    Schedule48();
    hide Schedule;
    ScheduleStep(AbcBlock(), 56);
    ScheduleStep(AbcBlock(), 57);
    ScheduleStep(AbcBlock(), 58);
    ScheduleStep(AbcBlock(), 59);
    ScheduleStep(AbcBlock(), 60);
    ScheduleStep(AbcBlock(), 61);
    ScheduleStep(AbcBlock(), 62);
    ScheduleStep(AbcBlock(), 63);
  }

  /** Eight words of the full schedule. */
  lemma Loaded(w: seq<Word32>, lo: nat, row: seq<Word32>)
    requires w == FullSchedule(AbcBlock()) && lo + 8 <= 64 && |row| == 8
    requires EightWords(lo, row[0].bits, row[1].bits, row[2].bits, row[3].bits, row[4].bits, row[5].bits, row[6].bits, row[7].bits)
    ensures w[lo..lo + 8] == row
  {
    hide Schedule, AbcBlock;
  }

  lemma AbcFirstRows(w: seq<Word32>)
    requires w == FullSchedule(AbcBlock())
    ensures w[0..8] == Words0()
    ensures w[8..16] == Words8()
    ensures w[16..24] == Words16()
  {
    hide EightWords, FullSchedule, AbcBlock;
    Schedule0();
    Loaded(w, 0, Words0());
    Schedule8();
    Loaded(w, 8, Words8());
    Schedule16();
    Loaded(w, 16, Words16());
  }

  lemma AbcMiddleRows(w: seq<Word32>)
    requires w == FullSchedule(AbcBlock())
    ensures w[24..32] == Words24()
    ensures w[32..40] == Words32()
    ensures w[40..48] == Words40()
  {
    hide EightWords, FullSchedule, AbcBlock;
    Schedule24();
    Loaded(w, 24, Words24());
    Schedule32();
    Loaded(w, 32, Words32());
    Schedule40();
    Loaded(w, 40, Words40());
  }

  lemma AbcLastRows(w: seq<Word32>)
    requires w == FullSchedule(AbcBlock())
    ensures w[48..56] == Words48()
    ensures w[56..64] == Words56()
  {
    hide EightWords, FullSchedule, AbcBlock;
    Schedule48();
    Loaded(w, 48, Words48());
    Schedule56();
    Loaded(w, 56, Words56());
  }

  // ---- Rounds

  /** Eight rounds from round lo on. */
  function Eight(v: seq<Word32>, w: seq<Word32>, lo: nat): (r: seq<Word32>)
    requires |v| == |w| == 8 && lo + 8 <= 64
    ensures |r| == 8
  {
    var v1 := Round(v, K(lo), w[0]);
    var v2 := Round(v1, K(lo + 1), w[1]);
    var v3 := Round(v2, K(lo + 2), w[2]);
    var v4 := Round(v3, K(lo + 3), w[3]);
    var v5 := Round(v4, K(lo + 4), w[4]);
    var v6 := Round(v5, K(lo + 5), w[5]);
    var v7 := Round(v6, K(lo + 6), w[6]);
    Round(v7, K(lo + 7), w[7])
  }

  lemma EightRounds(v: seq<Word32>, w: seq<Word32>, lo: nat)
    requires |v| == 8 && |w| == 64 && lo + 8 <= 64
    ensures Rounds(v, w, lo, lo + 8) == Eight(v, w[lo..lo + 8], lo)
  {
    hide Round, K;
    RoundsStep(v, w, lo, lo + 8);
    RoundsStep(v, w, lo, lo + 7);
    RoundsStep(v, w, lo, lo + 6);
    RoundsStep(v, w, lo, lo + 5);
    RoundsStep(v, w, lo, lo + 4);
    RoundsStep(v, w, lo, lo + 3);
    RoundsStep(v, w, lo, lo + 2);
    RoundsStep(v, w, lo, lo + 1);
  }

  lemma RoundsStep(v: seq<Word32>, w: seq<Word32>, lo: nat, hi: nat)
    requires |v| == 8 && lo < hi <= 64 && hi <= |w|
    ensures Rounds(v, w, lo, hi) == Round(Rounds(v, w, lo, hi - 1), K(hi - 1), w[hi - 1])
    ensures hi == lo + 1 ==> Rounds(v, w, lo, hi - 1) == v
  {
    hide Round, K;
  }


  lemma EightIs(v: seq<Word32>, w: seq<Word32>, lo: nat, v1: seq<Word32>, v2: seq<Word32>, v3: seq<Word32>,
                v4: seq<Word32>, v5: seq<Word32>, v6: seq<Word32>, v7: seq<Word32>)
    requires |v| == |w| == |v1| == |v2| == |v3| == |v4| == |v5| == |v6| == |v7| == 8 && lo + 8 <= 64
    requires v1 == Round(v, K(lo), w[0]) && v2 == Round(v1, K(lo + 1), w[1]) && v3 == Round(v2, K(lo + 2), w[2])
    requires v4 == Round(v3, K(lo + 3), w[3]) && v5 == Round(v4, K(lo + 4), w[4]) && v6 == Round(v5, K(lo + 5), w[5])
    requires v7 == Round(v6, K(lo + 6), w[6])
    ensures Eight(v, w, lo) == Round(v7, K(lo + 7), w[7])
  {
    hide Round, K;
  }

  lemma Rounds0()
    ensures Eight(State0(), Words0(), 0) == State8()
  {
    hide Eight;
    var v, w := State0(), Words0();
    var v1 := Round(v, K(0), w[0]);
    var v2 := Round(v1, K(1), w[1]);
    var v3 := Round(v2, K(2), w[2]);
    var v4 := Round(v3, K(3), w[3]);
    var v5 := Round(v4, K(4), w[4]);
    var v6 := Round(v5, K(5), w[5]);
    var v7 := Round(v6, K(6), w[6]);
    EightIs(v, w, 0, v1, v2, v3, v4, v5, v6, v7);
  }

  lemma Rounds8()
    ensures Eight(State8(), Words8(), 8) == State16()
  {
    hide Eight;
    var v, w := State8(), Words8();
    var v1 := Round(v, K(8), w[0]);
    var v2 := Round(v1, K(9), w[1]);
    var v3 := Round(v2, K(10), w[2]);
    var v4 := Round(v3, K(11), w[3]);
    var v5 := Round(v4, K(12), w[4]);
    var v6 := Round(v5, K(13), w[5]);
    var v7 := Round(v6, K(14), w[6]);
    EightIs(v, w, 8, v1, v2, v3, v4, v5, v6, v7);
  }

  lemma Rounds16()
    ensures Eight(State16(), Words16(), 16) == State24()
  {
    hide Eight;
    var v, w := State16(), Words16();
    var v1 := Round(v, K(16), w[0]);
    var v2 := Round(v1, K(17), w[1]);
    var v3 := Round(v2, K(18), w[2]);
    var v4 := Round(v3, K(19), w[3]);
    var v5 := Round(v4, K(20), w[4]);
    var v6 := Round(v5, K(21), w[5]);
    var v7 := Round(v6, K(22), w[6]);
    EightIs(v, w, 16, v1, v2, v3, v4, v5, v6, v7);
  }

  lemma Rounds24()
    ensures Eight(State24(), Words24(), 24) == State32()
  {
    hide Eight;
    var v, w := State24(), Words24();
    var v1 := Round(v, K(24), w[0]);
    var v2 := Round(v1, K(25), w[1]);
    var v3 := Round(v2, K(26), w[2]);
    var v4 := Round(v3, K(27), w[3]);
    var v5 := Round(v4, K(28), w[4]);
    var v6 := Round(v5, K(29), w[5]);
    var v7 := Round(v6, K(30), w[6]);
    EightIs(v, w, 24, v1, v2, v3, v4, v5, v6, v7);
  }

  lemma Rounds32()
    ensures Eight(State32(), Words32(), 32) == State40()
  {
    hide Eight;
    var v, w := State32(), Words32();
    var v1 := Round(v, K(32), w[0]);
    var v2 := Round(v1, K(33), w[1]);
    var v3 := Round(v2, K(34), w[2]);
    var v4 := Round(v3, K(35), w[3]);
    var v5 := Round(v4, K(36), w[4]);
    var v6 := Round(v5, K(37), w[5]);
    var v7 := Round(v6, K(38), w[6]);
    EightIs(v, w, 32, v1, v2, v3, v4, v5, v6, v7);
  }

  lemma Rounds40()
    ensures Eight(State40(), Words40(), 40) == State48()
  {
    hide Eight;
    var v, w := State40(), Words40();
    var v1 := Round(v, K(40), w[0]);
    var v2 := Round(v1, K(41), w[1]);
    var v3 := Round(v2, K(42), w[2]);
    var v4 := Round(v3, K(43), w[3]);
    var v5 := Round(v4, K(44), w[4]);
    var v6 := Round(v5, K(45), w[5]);
    var v7 := Round(v6, K(46), w[6]);
    EightIs(v, w, 40, v1, v2, v3, v4, v5, v6, v7);
  }

  lemma Rounds48()
    ensures Eight(State48(), Words48(), 48) == State56()
  {
    hide Eight;
    var v, w := State48(), Words48();
    var v1 := Round(v, K(48), w[0]);
    var v2 := Round(v1, K(49), w[1]);
    var v3 := Round(v2, K(50), w[2]);
    var v4 := Round(v3, K(51), w[3]);
    var v5 := Round(v4, K(52), w[4]);
    var v6 := Round(v5, K(53), w[5]);
    var v7 := Round(v6, K(54), w[6]);
    EightIs(v, w, 48, v1, v2, v3, v4, v5, v6, v7);
  }

  lemma Rounds56()
    ensures Eight(State56(), Words56(), 56) == State64()
  {
    hide Eight;
    var v, w := State56(), Words56();
    var v1 := Round(v, K(56), w[0]);
    var v2 := Round(v1, K(57), w[1]);
    var v3 := Round(v2, K(58), w[2]);
    var v4 := Round(v3, K(59), w[3]);
    var v5 := Round(v4, K(60), w[4]);
    var v6 := Round(v5, K(61), w[5]);
    var v7 := Round(v6, K(62), w[6]);
    EightIs(v, w, 56, v1, v2, v3, v4, v5, v6, v7);
  }

  lemma StatesHaveEight()
    ensures |State0()| == |State8()| == |State16()| == |State24()| == |State32()| == |State40()| == |State48()| == |State56()| == |State64()| == 8
  {
  }

  lemma AbcRounds(w: seq<Word32>)
    requires w == FullSchedule(AbcBlock())
    ensures Rounds(State0(), w, 0, 64) == State64()
  {
    StatesHaveEight();
    hide *;
    AbcFirstRows(w);
    AbcMiddleRows(w);
    AbcLastRows(w);
    Rounds0();
    EightRounds(State0(), w, 0);
    Rounds8();
    EightRounds(State8(), w, 8);
    Rounds16();
    EightRounds(State16(), w, 16);
    Rounds24();
    EightRounds(State24(), w, 24);
    Rounds32();
    EightRounds(State32(), w, 32);
    Rounds40();
    EightRounds(State40(), w, 40);
    Rounds48();
    EightRounds(State48(), w, 48);
    Rounds56();
    EightRounds(State56(), w, 56);
    RoundsSplit(State0(), w, 0, 8, 16);
    RoundsSplit(State0(), w, 0, 16, 24);
    RoundsSplit(State0(), w, 0, 24, 32);
    RoundsSplit(State0(), w, 0, 32, 40);
    RoundsSplit(State0(), w, 0, 40, 48);
    RoundsSplit(State0(), w, 0, 48, 56);
    RoundsSplit(State0(), w, 0, 56, 64);
  }

  /** The published digest of "abc". */
  function AbcDigest(): (h: seq<Word32>)
  {
    [W(0xba7816bf), W(0x8f01cfea), W(0x414140de), W(0x5dae2223), W(0xb00361a3), W(0x96177a9c), W(0xb410ff61), W(0xf20015ad)]
  }

  lemma AbcSum()
    ensures AddState(State0(), State64()) == AbcDigest()
    ensures Init() == State0()
  {
  }

  lemma AbcCompressed()
    ensures Compress(Init(), AbcBlock()) == AbcDigest()
  {
    hide AbcBlock, State0, State64, AbcDigest, Rounds, Init, Schedule;
    AbcRounds(FullSchedule(AbcBlock()));
    AbcSum();
  }

  // ---- The message

  const ABC: seq<Byte> := [0x61, 0x62, 0x63]

  lemma AbcBits()
    ensures Bits(0x61626380) == W(0x61626380) && Bits(0) == W(0) && Bits(0x18) == W(0x18)
  {
    hide Bits, Num, Digit;
    assert Digit(0) == 0 && Digit(1) == 1 && Digit(2) == 2 && Digit(3) == 3 && Digit(6) == 6 && Digit(8) == 8 by {
      AbcDigits();
    }
    NumAt(0x61626380);
    NumAt(0x18);
    BitsOfNum(W(0x61626380));
    BitsOfNum(W(0x18));
    PaddingBits();
  }

  lemma AbcDigits()
    ensures Digit(0) == 0 && Digit(1) == 1 && Digit(2) == 2 && Digit(3) == 3 && Digit(6) == 6 && Digit(8) == 8
  {
  }

  /** The words of the padded message. */
  lemma AbcMessageWords(p: seq<Byte>)
    requires p == Pad(ABC)
    ensures |p| == 64 && BeWord(p, 0) == 0x61626380 && BeWord(p, 60) == 0x18
    ensures forall i :: 1 <= i < 15 ==> BeWord(p, 4 * i) == 0
  {
    PadLayout(ABC);
    ShortLength(3);
    assert BlockCount(3) == 1;
    hide Pad, LengthField, BlockCount;
    var len := LengthField(3);
    assert forall k :: 0 <= k < 8 ==> p[56 + k] == p[|p| - 8..][k] == len[k];
  }

  lemma AbcBlockFrom(p: seq<Byte>)
    requires |p| == 64 && BeWord(p, 0) == 0x61626380 && BeWord(p, 60) == 0x18
    requires forall i :: 1 <= i < 15 ==> BeWord(p, 4 * i) == 0
    requires Bits(0x61626380) == W(0x61626380) && Bits(0) == W(0) && Bits(0x18) == W(0x18)
    ensures BlockWords(p, 0) == AbcBlock()
  {
    hide Bits, BeWord;
    forall i | 0 <= i < 16 ensures BlockWords(p, 0)[i] == AbcBlock()[i] {
      assert BlockWords(p, 0)[i] == Bits(BeWord(p, BLOCK * 0 + 4 * i));
    }
  }

  lemma AbcPadded()
    ensures BlockCount(3) == 1 && BlockWords(Pad(ABC), 0) == AbcBlock()
  {
    assert BlockCount(3) == 1;
    hide Bits, BeWord, Pad, BlockCount, BlockWords, AbcBlock;
    var p := Pad(ABC);
    AbcMessageWords(p);
    AbcBits();
    AbcBlockFrom(p);
  }

  /** The digest of "abc" is the published one. */
  lemma AbcHash()
    ensures Hash(ABC) == AbcDigest()
  {
    AbcPadded();
    AbcCompressed();
    hide Compress, AbcDigest, AbcBlock, Pad, Init;
    assert HashBlocks(Init(), Pad(ABC), 0) == Init();
  }
}
