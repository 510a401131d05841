/**
  The table-driven AES round of crypto/aesb.c: four 256-entry tables of 32-bit words replace
  SubBytes, ShiftRows and MixColumns.
 */
module AesRounds {
  import opened AesTables
  import opened Aes

  // ---- 32-bit words of four bytes, lowest byte first

  /** bytes2word */
  function Pack(c: Column): bv32
  {
    ((c.d as bv32) << 24) | ((c.c as bv32) << 16) | ((c.b as bv32) << 8) | (c.a as bv32)
  }

  function Byte0(w: bv32): bv8 { (w & 0xff) as bv8 }
  function Byte1(w: bv32): bv8 { ((w >> 8) & 0xff) as bv8 }
  function Byte2(w: bv32): bv8 { ((w >> 16) & 0xff) as bv8 }
  function Byte3(w: bv32): bv8 { (w >> 24) as bv8 }

  function XorWord(x: bv32, y: bv32): bv32 { x ^ y }

  lemma XorWordCommutes(x: bv32, y: bv32)
    ensures XorWord(x, y) == XorWord(y, x)
  {
  }

  lemma PackBytes(c: Column)
    ensures Byte0(Pack(c)) == c.a && Byte1(Pack(c)) == c.b && Byte2(Pack(c)) == c.c && Byte3(Pack(c)) == c.d
  {
  }

  lemma PackXor(x: Column, y: Column)
    ensures Pack(XorColumn(x, y)) == XorWord(Pack(x), Pack(y))
  {
  }

  // ---- The tables

  /** f2: doubling in the field, computed on a wider integer with the full modulus 0x11b. */
  function F2(p: bv8): bv8
  {
    var x := p as bv16;
    (((x << 1) ^ (((x >> 7) & 1) * 0x11b)) & 0xff) as bv8
  }

  lemma F2Doubles(p: bv8)
    ensures F2(p) == XTime(p)
  {
  }

  /** f3(x) is f2(x) ^ x */
  function F3(p: bv8): bv8
  {
    Xor8(F2(p), p)
  }

  /** t_fn[0..3]: the S-box output times a column of the MixColumns matrix. */
  function T0(x: bv8): bv32 { var p := Sub(x); Pack(Column(F2(p), p, p, F3(p))) }
  function T1(x: bv8): bv32 { var p := Sub(x); Pack(Column(F3(p), F2(p), p, p)) }
  function T2(x: bv8): bv32 { var p := Sub(x); Pack(Column(p, F3(p), F2(p), p)) }
  function T3(x: bv8): bv32 { var p := Sub(x); Pack(Column(p, p, F3(p), F2(p))) }

  /** One output word of the macro `round`. */
  function TableWord(k: bv32, x0: bv32, x1: bv32, x2: bv32, x3: bv32): bv32
  {
    XorWord(k, XorWord(XorWord(XorWord(T0(Byte0(x0)), T1(Byte1(x1))), T2(Byte2(x2))), T3(Byte3(x3))))
  }

  datatype Words = Words(w0: bv32, w1: bv32, w2: bv32, w3: bv32)

  /** round(y, x, k) */
  function TableRound(x: Words, k: Words): Words
  {
    Words(TableWord(k.w0, x.w0, x.w1, x.w2, x.w3),
          TableWord(k.w1, x.w1, x.w2, x.w3, x.w0),
          TableWord(k.w2, x.w2, x.w3, x.w0, x.w1),
          TableWord(k.w3, x.w3, x.w0, x.w1, x.w2))
  }

  function PackState(s: State): Words
  {
    Words(Pack(s.c0), Pack(s.c1), Pack(s.c2), Pack(s.c3))
  }

  // ---- Equivalence

  /** The table entries add up to the mixed column. */
  lemma TableColumn(a: bv8, b: bv8, c: bv8, d: bv8)
    ensures XorWord(XorWord(XorWord(T0(a), T1(b)), T2(c)), T3(d))
         == Pack(MixColumn(SubColumn(Column(a, b, c, d))))
  {
    hide Pack, XorWord, Sub, F2, XTime, Xor8;
    var (p, q, r, s) := (Sub(a), Sub(b), Sub(c), Sub(d));
    F2Doubles(p);
    F2Doubles(q);
    F2Doubles(r);
    F2Doubles(s);
    var x := Column(F2(p), p, p, F3(p));
    var y := Column(F3(q), F2(q), q, q);
    var z := Column(r, F3(r), F2(r), r);
    var w := Column(s, s, F3(s), F2(s));
    PackXor(x, y);
    PackXor(XorColumn(x, y), z);
    PackXor(XorColumn(XorColumn(x, y), z), w);
    assert XorColumn(XorColumn(XorColumn(x, y), z), w) == MixColumn(Column(p, q, r, s));
  }

  lemma TableWordIsColumn(k: Column, x0: Column, x1: Column, x2: Column, x3: Column)
    ensures TableWord(Pack(k), Pack(x0), Pack(x1), Pack(x2), Pack(x3))
         == Pack(XorColumn(MixColumn(SubColumn(Column(x0.a, x1.b, x2.c, x3.d))), k))
  {
    hide Pack, XorWord, Byte0, Byte1, Byte2, Byte3, T0, T1, T2, T3, MixColumn, SubColumn, XorColumn;
    PackBytes(x0);
    PackBytes(x1);
    PackBytes(x2);
    PackBytes(x3);
    TableColumn(x0.a, x1.b, x2.c, x3.d);
    var m := MixColumn(SubColumn(Column(x0.a, x1.b, x2.c, x3.d)));
    PackXor(m, k);
    XorWordCommutes(Pack(k), Pack(m));
  }

  /** The table round is SubBytes, ShiftRows, MixColumns and AddRoundKey, for every state and key. */
  lemma TableRoundIsRound(s: State, k: State)
    ensures TableRound(PackState(s), PackState(k)) == PackState(EncRound(s, k))
  {
    hide Pack, TableWord, MixColumn, SubColumn, XorColumn;
    TableWordIsColumn(k.c0, s.c0, s.c1, s.c2, s.c3);
    TableWordIsColumn(k.c1, s.c1, s.c2, s.c3, s.c0);
    TableWordIsColumn(k.c2, s.c2, s.c3, s.c0, s.c1);
    TableWordIsColumn(k.c3, s.c3, s.c0, s.c1, s.c2);
    RoundColumns(s, k);
  }

  lemma RoundColumns(s: State, k: State)
    ensures EncRound(s, k) == State(
      XorColumn(MixColumn(SubColumn(Column(s.c0.a, s.c1.b, s.c2.c, s.c3.d))), k.c0),
      XorColumn(MixColumn(SubColumn(Column(s.c1.a, s.c2.b, s.c3.c, s.c0.d))), k.c1),
      XorColumn(MixColumn(SubColumn(Column(s.c2.a, s.c3.b, s.c0.c, s.c1.d))), k.c2),
      XorColumn(MixColumn(SubColumn(Column(s.c3.a, s.c0.b, s.c1.c, s.c2.d))), k.c3))
  {
  }

  // ---- Ten rounds

  /** Rounds 0 .. n-1 with the given keys, each a full round. */
  function FullRounds(keys: seq<State>, s: State, n: nat): State
    requires n <= |keys|
  {
    if n == 0 then s else EncRound(FullRounds(keys, s, n - 1), keys[n - 1])
  }

  /** oaes_pseudo_encrypt_ecb */
  method PseudoEncrypt(keys: seq<State>, block: State) returns (c: State)
    requires |keys| >= 10
    ensures c == FullRounds(keys, block, 10)
  {
    hide EncRound;
    c := block;
    var i := 0;
    while i < 10
      invariant 0 <= i <= 10 && c == FullRounds(keys, block, i)
    {
      c := EncRound(c, keys[i]);
      i := i + 1;
    }
  }

  /** aesb_pseudo_round_mut: ten table rounds, alternating between val and the buffer b1. */
  method PseudoRoundMut(val0: Words, keys: seq<Words>, ghost s: State, ghost ks: seq<State>) returns (val: Words)
    requires |keys| == |ks| == 10 && val0 == PackState(s)
    requires forall i :: 0 <= i < 10 ==> keys[i] == PackState(ks[i])
    ensures val == PackState(FullRounds(ks, s, 10))
  {
    hide TableRound, PackState, EncRound;
    val := val0;
    var i := 0;
    while i < 10
      invariant 0 <= i <= 10 && i % 2 == 0
      invariant val == PackState(FullRounds(ks, s, i))
    {
      TableRoundIsRound(FullRounds(ks, s, i), ks[i]);
      TableRoundIsRound(FullRounds(ks, s, i + 1), ks[i + 1]);
      var b1 := TableRound(val, keys[i]);
      val := TableRound(b1, keys[i + 1]);
      i := i + 2;
    }
  }
}
