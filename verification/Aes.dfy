/** AES block encryption and decryption as in crypto/oaes_lib.c (sections 5.1 and 5.3 of FIPS 197). */
module Aes {
  import opened AesTables

  /** A column of the state: bytes 4c .. 4c+3 of the block. */
  datatype Column = Column(a: bv8, b: bv8, c: bv8, d: bv8)

  /** A 16-byte block. */
  datatype State = State(c0: Column, c1: Column, c2: Column, c3: Column)

  // ---- The transformations and their inverses

  function SubColumn(w: Column): Column { Column(Sub(w.a), Sub(w.b), Sub(w.c), Sub(w.d)) }
  function InvSubColumn(w: Column): Column { Column(InvSub(w.a), InvSub(w.b), InvSub(w.c), InvSub(w.d)) }

  function SubBytes(s: State): State
  {
    State(SubColumn(s.c0), SubColumn(s.c1), SubColumn(s.c2), SubColumn(s.c3))
  }

  function InvSubBytes(s: State): State
  {
    State(InvSubColumn(s.c0), InvSubColumn(s.c1), InvSubColumn(s.c2), InvSubColumn(s.c3))
  }

  /** oaes_shift_rows: row i moves i columns to the left. */
  function ShiftRows(s: State): State
  {
    State(Column(s.c0.a, s.c1.b, s.c2.c, s.c3.d),
          Column(s.c1.a, s.c2.b, s.c3.c, s.c0.d),
          Column(s.c2.a, s.c3.b, s.c0.c, s.c1.d),
          Column(s.c3.a, s.c0.b, s.c1.c, s.c2.d))
  }

  /** oaes_inv_shift_rows */
  function InvShiftRows(s: State): State
  {
    State(Column(s.c0.a, s.c3.b, s.c2.c, s.c1.d),
          Column(s.c1.a, s.c0.b, s.c3.c, s.c2.d),
          Column(s.c2.a, s.c1.b, s.c0.c, s.c3.d),
          Column(s.c3.a, s.c2.b, s.c1.c, s.c0.d))
  }

  /** oaes_mix_cols */
  function MixColumn(w: Column): Column
  {
    Column(Sum4(GfMul(w.a, 0x02), GfMul(w.b, 0x03), w.c, w.d),
           Sum4(w.a, GfMul(w.b, 0x02), GfMul(w.c, 0x03), w.d),
           Sum4(w.a, w.b, GfMul(w.c, 0x02), GfMul(w.d, 0x03)),
           Sum4(GfMul(w.a, 0x03), w.b, w.c, GfMul(w.d, 0x02)))
  }

  /** oaes_inv_mix_cols */
  function InvMixColumn(w: Column): Column
  {
    Column(Sum4(GfMul(w.a, 0x0e), GfMul(w.b, 0x0b), GfMul(w.c, 0x0d), GfMul(w.d, 0x09)),
           Sum4(GfMul(w.a, 0x09), GfMul(w.b, 0x0e), GfMul(w.c, 0x0b), GfMul(w.d, 0x0d)),
           Sum4(GfMul(w.a, 0x0d), GfMul(w.b, 0x09), GfMul(w.c, 0x0e), GfMul(w.d, 0x0b)),
           Sum4(GfMul(w.a, 0x0b), GfMul(w.b, 0x0d), GfMul(w.c, 0x09), GfMul(w.d, 0x0e)))
  }

  function MixColumns(s: State): State
  {
    State(MixColumn(s.c0), MixColumn(s.c1), MixColumn(s.c2), MixColumn(s.c3))
  }

  function InvMixColumns(s: State): State
  {
    State(InvMixColumn(s.c0), InvMixColumn(s.c1), InvMixColumn(s.c2), InvMixColumn(s.c3))
  }

  function XorColumn(x: Column, y: Column): Column
  {
    Column(Xor8(x.a, y.a), Xor8(x.b, y.b), Xor8(x.c, y.c), Xor8(x.d, y.d))
  }

  /** AddRoundKey, and the CBC chaining. */
  function XorState(x: State, y: State): State
  {
    State(XorColumn(x.c0, y.c0), XorColumn(x.c1, y.c1), XorColumn(x.c2, y.c2), XorColumn(x.c3, y.c3))
  }

  lemma XorStateCancels(x: State, y: State)
    ensures XorState(XorState(x, y), y) == x
  {
    hide Xor8;
    forall p: bv8, q: bv8
      ensures Xor8(Xor8(p, q), q) == p
    {
      Xor8Cancels(p, q);
    }
  }

  lemma SubColumnInverse(w: Column)
    ensures InvSubColumn(SubColumn(w)) == w
  {
    hide Sub, InvSub;
    SubInverse(w.a);
    SubInverse(w.b);
    SubInverse(w.c);
    SubInverse(w.d);
  }

  lemma SubShiftInverse(s: State)
    ensures InvSubBytes(InvShiftRows(ShiftRows(SubBytes(s)))) == s
  {
    hide SubColumn, InvSubColumn;
    assert InvShiftRows(ShiftRows(SubBytes(s))) == SubBytes(s);
    SubColumnInverse(s.c0);
    SubColumnInverse(s.c1);
    SubColumnInverse(s.c2);
    SubColumnInverse(s.c3);
  }

  /** The four rows of the inverse matrix are rotations of the first. */
  lemma MixColumnInverse(w: Column)
    ensures InvMixColumn(MixColumn(w)) == w
  {
    hide Sum4, GfMul;
    var Column(a, b, c, d) := w;
    var Column(p, q, r, s) := MixColumn(w);
    var (a2, a3, b2, b3) := (GfMul(a, 0x02), GfMul(a, 0x03), GfMul(b, 0x02), GfMul(b, 0x03));
    var (c2, c3, d2, d3) := (GfMul(c, 0x02), GfMul(c, 0x03), GfMul(d, 0x02), GfMul(d, 0x03));
    InverseRow(a, b, c, d);
    assert p == Sum4(b3, c, d, a2) == Sum4(c, d, a2, b3) == Sum4(d, a2, b3, c) by { AllRotations(a2, b3, c, d); }
    assert q == Sum4(b2, c3, d, a) == Sum4(c3, d, a, b2) == Sum4(d, a, b2, c3) by { AllRotations(a, b2, c3, d); }
    assert r == Sum4(b, c2, d3, a) == Sum4(c2, d3, a, b) == Sum4(d3, a, b, c2) by { AllRotations(a, b, c2, d3); }
    assert s == Sum4(b, c, d2, a3) == Sum4(c, d2, a3, b) == Sum4(d2, a3, b, c) by { AllRotations(a3, b, c, d2); }
    InverseRow(b, c, d, a);
    AllRotations(GfMul(q, 0x0e), GfMul(r, 0x0b), GfMul(s, 0x0d), GfMul(p, 0x09));
    InverseRow(c, d, a, b);
    AllRotations(GfMul(r, 0x0e), GfMul(s, 0x0b), GfMul(p, 0x0d), GfMul(q, 0x09));
    InverseRow(d, a, b, c);
    AllRotations(GfMul(s, 0x0e), GfMul(p, 0x0b), GfMul(q, 0x0d), GfMul(r, 0x09));
  }

  lemma AllRotations(a: bv8, b: bv8, c: bv8, d: bv8)
    ensures Sum4(a, b, c, d) == Sum4(b, c, d, a) == Sum4(c, d, a, b) == Sum4(d, a, b, c)
  {
    hide Sum4;
    Sum4Rotates(a, b, c, d);
    Sum4Rotates(b, c, d, a);
    Sum4Rotates(c, d, a, b);
  }

  lemma MixColumnsInverse(s: State)
    ensures InvMixColumns(MixColumns(s)) == s
  {
    hide MixColumn, InvMixColumn;
    MixColumnInverse(s.c0);
    MixColumnInverse(s.c1);
    MixColumnInverse(s.c2);
    MixColumnInverse(s.c3);
  }

  // ---- Blocks

  /** One round, as oaes_encryption_round also runs it on its own. */
  function EncRound(s: State, k: State): State
  {
    XorState(MixColumns(ShiftRows(SubBytes(s))), k)
  }

  function DecRound(s: State, k: State): State
  {
    InvMixColumns(XorState(InvSubBytes(InvShiftRows(s)), k))
  }

  /** The state after rounds 1 .. i. */
  function EncRounds(keys: seq<State>, s: State, i: nat): State
    requires i < |keys|
  {
    if i == 0 then s else EncRound(EncRounds(keys, s, i - 1), keys[i])
  }

  /** Rounds i, i-1, .. 1 of decryption. */
  function DecRounds(keys: seq<State>, s: State, i: nat): State
    requires i < |keys|
    decreases i
  {
    if i == 0 then s else DecRounds(keys, DecRound(s, keys[i]), i - 1)
  }

  function Cipher(keys: seq<State>, s: State): State
    requires |keys| >= 2
  {
    var n := |keys|;
    XorState(ShiftRows(SubBytes(EncRounds(keys, XorState(s, keys[0]), n - 2))), keys[n - 1])
  }

  function InvCipher(keys: seq<State>, c: State): State
    requires |keys| >= 2
  {
    var n := |keys|;
    XorState(InvSubBytes(InvShiftRows(DecRounds(keys, XorState(c, keys[n - 1]), n - 2))), keys[0])
  }

  /** oaes_encrypt_block; keys are the num_keys round keys of the expanded key. */
  method EncryptBlock(keys: seq<State>, block: State) returns (c: State)
    requires |keys| >= 2
    ensures c == Cipher(keys, block)
  {
    hide XorState, SubBytes, ShiftRows, MixColumns;
    c := XorState(block, keys[0]);
    var i := 1;
    while i < |keys| - 1
      invariant 1 <= i <= |keys| - 1
      invariant c == EncRounds(keys, XorState(block, keys[0]), i - 1)
    {
      c := SubBytes(c);
      c := ShiftRows(c);
      c := MixColumns(c);
      c := XorState(c, keys[i]);
      i := i + 1;
    }
    c := SubBytes(c);
    c := ShiftRows(c);
    c := XorState(c, keys[|keys| - 1]);
  }

  /** oaes_decrypt_block */
  method DecryptBlock(keys: seq<State>, block: State) returns (m: State)
    requires |keys| >= 2
    ensures m == InvCipher(keys, block)
  {
    hide XorState, InvSubBytes, InvShiftRows, InvMixColumns;
    m := XorState(block, keys[|keys| - 1]);
    var i := |keys| - 2;
    while i > 0
      invariant 0 <= i <= |keys| - 2
      invariant DecRounds(keys, m, i) == DecRounds(keys, XorState(block, keys[|keys| - 1]), |keys| - 2)
    {
      m := InvShiftRows(m);
      m := InvSubBytes(m);
      m := XorState(m, keys[i]);
      m := InvMixColumns(m);
      i := i - 1;
    }
    m := InvShiftRows(m);
    m := InvSubBytes(m);
    m := XorState(m, keys[0]);
  }

  /** Decryption rounds i .. 1 undo encryption rounds 1 .. i, seen between ShiftRows and AddRoundKey. */
  lemma {:induction false} RoundsInverse(keys: seq<State>, s: State, i: nat)
    requires i < |keys|
    ensures DecRounds(keys, ShiftRows(SubBytes(EncRounds(keys, s, i))), i) == ShiftRows(SubBytes(s))
    decreases i
  {
    hide XorState, SubBytes, ShiftRows, MixColumns, InvSubBytes, InvShiftRows, InvMixColumns;
    if i > 0 {
      var r := EncRounds(keys, s, i - 1);
      var x := ShiftRows(SubBytes(r));
      SubShiftInverse(EncRounds(keys, s, i));
      XorStateCancels(MixColumns(x), keys[i]);
      MixColumnsInverse(x);
      assert DecRound(ShiftRows(SubBytes(EncRounds(keys, s, i))), keys[i]) == x;
      RoundsInverse(keys, s, i - 1);
    }
  }

  /** Decrypting an encrypted block gives it back, for every expanded key of at least two rounds. */
  lemma CipherInverse(keys: seq<State>, s: State)
    requires |keys| >= 2
    ensures InvCipher(keys, Cipher(keys, s)) == s
  {
    hide XorState, SubBytes, ShiftRows, InvSubBytes, InvShiftRows, EncRounds, DecRounds;
    var n := |keys|;
    var s0 := XorState(s, keys[0]);
    XorStateCancels(ShiftRows(SubBytes(EncRounds(keys, s0, n - 2))), keys[n - 1]);
    RoundsInverse(keys, s0, n - 2);
    SubShiftInverse(s0);
    XorStateCancels(s, keys[0]);
  }

  // ---- The other way round

  lemma SubShiftForward(s: State)
    ensures ShiftRows(SubBytes(InvSubBytes(InvShiftRows(s)))) == s
  {
    hide Sub, InvSub;
    forall x
      ensures Sub(InvSub(x)) == x
    {
      InvSubInverse(x);
    }
    assert SubBytes(InvSubBytes(InvShiftRows(s))) == InvShiftRows(s);
  }

  lemma MixColumnForward(w: Column)
    ensures MixColumn(InvMixColumn(w)) == w
  {
    hide Sum4, GfMul;
    var Column(a, b, c, d) := w;
    var Column(p, q, r, s) := InvMixColumn(w);
    var (ae, ab, ad, a9) := (GfMul(a, 0x0e), GfMul(a, 0x0b), GfMul(a, 0x0d), GfMul(a, 0x09));
    var (be, bb, bd, b9) := (GfMul(b, 0x0e), GfMul(b, 0x0b), GfMul(b, 0x0d), GfMul(b, 0x09));
    var (ce, cb, cd, c9) := (GfMul(c, 0x0e), GfMul(c, 0x0b), GfMul(c, 0x0d), GfMul(c, 0x09));
    var (de, db, dd, d9) := (GfMul(d, 0x0e), GfMul(d, 0x0b), GfMul(d, 0x0d), GfMul(d, 0x09));
    ForwardRow(a, b, c, d);
    assert p == Sum4(bb, cd, d9, ae) == Sum4(cd, d9, ae, bb) == Sum4(d9, ae, bb, cd) by { AllRotations(ae, bb, cd, d9); }
    assert q == Sum4(be, cb, dd, a9) == Sum4(cb, dd, a9, be) == Sum4(dd, a9, be, cb) by { AllRotations(a9, be, cb, dd); }
    assert r == Sum4(b9, ce, db, ad) == Sum4(ce, db, ad, b9) == Sum4(db, ad, b9, ce) by { AllRotations(ad, b9, ce, db); }
    assert s == Sum4(bd, c9, de, ab) == Sum4(c9, de, ab, bd) == Sum4(de, ab, bd, c9) by { AllRotations(ab, bd, c9, de); }
    ForwardRow(b, c, d, a);
    AllRotations(GfMul(q, 0x02), GfMul(r, 0x03), s, p);
    ForwardRow(c, d, a, b);
    AllRotations(GfMul(r, 0x02), GfMul(s, 0x03), p, q);
    ForwardRow(d, a, b, c);
    AllRotations(GfMul(s, 0x02), GfMul(p, 0x03), q, r);
  }

  lemma MixColumnsForward(s: State)
    ensures MixColumns(InvMixColumns(s)) == s
  {
    hide MixColumn, InvMixColumn;
    MixColumnForward(s.c0);
    MixColumnForward(s.c1);
    MixColumnForward(s.c2);
    MixColumnForward(s.c3);
  }

  /** Encryption rounds 1 .. i undo decryption rounds i .. 1. */
  lemma {:induction false} RoundsForward(keys: seq<State>, y: State, i: nat)
    requires i < |keys|
    ensures ShiftRows(SubBytes(EncRounds(keys, InvSubBytes(InvShiftRows(DecRounds(keys, y, i))), i))) == y
    decreases i
  {
    hide XorState, SubBytes, ShiftRows, MixColumns, InvSubBytes, InvShiftRows, InvMixColumns;
    if i == 0 {
      SubShiftForward(y);
    } else {
      var x := InvSubBytes(InvShiftRows(y));
      RoundsForward(keys, DecRound(y, keys[i]), i - 1);
      MixColumnsForward(XorState(x, keys[i]));
      XorStateCancels(x, keys[i]);
      SubShiftForward(y);
    }
  }

  /** Encrypting a decrypted block gives it back: for every expanded key the two are inverse
      permutations of the blocks. */
  lemma CipherForward(keys: seq<State>, c: State)
    requires |keys| >= 2
    ensures Cipher(keys, InvCipher(keys, c)) == c
  {
    hide XorState, SubBytes, ShiftRows, InvSubBytes, InvShiftRows, EncRounds, DecRounds;
    var n := |keys|;
    var y := XorState(c, keys[n - 1]);
    RoundsForward(keys, y, n - 2);
    XorStateCancels(InvSubBytes(InvShiftRows(DecRounds(keys, y, n - 2))), keys[0]);
    XorStateCancels(c, keys[n - 1]);
  }
}
