/**
  What ties the AES definitions to FIPS 197: the S-box is the affine image of the inverse in
  GF(2^8), the products are those of the field, ShiftRows turns row r by r columns, a cipher is the
  chain of its rounds, and the first and the last round of the example of appendix B come out as
  published.
 */
module AesExample {
  import opened AesTables
  import opened Aes
  import opened AesRounds

  // ---- The field (section 4.2) and the S-box (section 5.1.1)

  /** x if bit i of y is set, and 0 otherwise. */
  function Part(x: bv8, y: bv8, i: bv8): bv8
    requires i < 8
  {
    x & (0 - ((y >> i) & 1))
  }

  /** The product in GF(2^8): the sum of the x * 2^i for the bits i of y. */
  function Product(x: bv8, y: bv8): bv8
  {
    var x1 := XTime(x);
    var x2 := XTime(x1);
    var x3 := XTime(x2);
    var x4 := XTime(x3);
    var x5 := XTime(x4);
    var x6 := XTime(x5);
    var x7 := XTime(x6);
    Part(x, y, 0) ^ Part(x1, y, 1) ^ Part(x2, y, 2) ^ Part(x3, y, 3)
    ^ Part(x4, y, 4) ^ Part(x5, y, 5) ^ Part(x6, y, 6) ^ Part(x7, y, 7)
  }

  lemma Times02(x: bv8)
    ensures GfMul(x, 0x02) == Product(x, 0x02)
  {
    hide XTime;
  }

  lemma Times03(x: bv8)
    ensures GfMul(x, 0x03) == Product(x, 0x03)
  {
    hide XTime;
  }

  lemma Times09(x: bv8)
    ensures GfMul(x, 0x09) == Product(x, 0x09)
  {
    hide XTime;
  }

  lemma Times0b(x: bv8)
    ensures GfMul(x, 0x0b) == Product(x, 0x0b)
  {
    hide XTime;
  }

  lemma Times0d(x: bv8)
    ensures GfMul(x, 0x0d) == Product(x, 0x0d)
  {
    hide XTime;
  }

  lemma Times0e(x: bv8)
    ensures GfMul(x, 0x0e) == Product(x, 0x0e)
  {
    hide XTime;
  }

  /** The tables of oaes_gf_mul hold products of the field. */
  lemma GfMulIsProduct(x: bv8)
    ensures forall k :: k in {0x02, 0x03, 0x09, 0x0b, 0x0d, 0x0e} ==> GfMul(x, k) == Product(x, k)
  {
    hide GfMul, Product;
    Times02(x);
    Times03(x);
    Times09(x);
    Times0b(x);
    Times0d(x);
    Times0e(x);
  }

  function RotL(x: bv8, k: bv8): bv8
    requires 0 < k < 8
  {
    (x << k) | (x >> (8 - k))
  }

  /** The affine transformation of the S-box. */
  function Affine(x: bv8): bv8
  {
    x ^ RotL(x, 1) ^ RotL(x, 2) ^ RotL(x, 3) ^ RotL(x, 4) ^ 0x63
  }

  function Unaffine(s: bv8): bv8
  {
    RotL(s, 1) ^ RotL(s, 3) ^ RotL(s, 6) ^ 0x05
  }

  lemma AffineOfUnaffine(s: bv8)
    ensures Affine(Unaffine(s)) == s
  {
  }

  lemma SubTimes(x: bv8)
    requires x != 0
    ensures Product(x, Unaffine(Sub(x))) == 1
  {
    if x & 4 == 0 {
      if x & 2 == 0 {
        if x & 1 == 0 {
        } else {
        }
      } else {
        if x & 1 == 0 {
        } else {
        }
      }
    } else {
      if x & 2 == 0 {
        if x & 1 == 0 {
        } else {
        }
      } else {
        if x & 1 == 0 {
        } else {
        }
      }
    }
  }

  /** Every entry of the S-box is the affine image of the inverse, and the entry at 0 that of 0. */
  lemma SubIsInverse(x: bv8)
    ensures Sub(0) == Affine(0)
    ensures x != 0 ==> exists y: bv8 :: Product(x, y) == 1 && Sub(x) == Affine(y)
  {
    hide Product;
    if x != 0 {
      SubTimes(x);
      AffineOfUnaffine(Sub(x));
    }
  }

  // ---- The transformations (sections 5.1.2 and 5.1.4)

  /** Column c of the state, and entry r of a column. */
  function ColumnOf(s: State, c: nat): Column
  {
    if c == 0 then s.c0 else if c == 1 then s.c1 else if c == 2 then s.c2 else s.c3
  }

  function Entry(w: Column, r: nat): bv8
  {
    if r == 0 then w.a else if r == 1 then w.b else if r == 2 then w.c else w.d
  }

  /** ShiftRows turns row r to the left by r columns. */
  lemma ShiftRowsTurns(s: State, r: nat, c: nat)
    requires r < 4 && c < 4
    ensures Entry(ColumnOf(ShiftRows(s), c), r) == Entry(ColumnOf(s, (c + r) % 4), r)
  {
  }

  // ---- The cipher (section 5.1)

  /** However the states between the rounds are obtained, if each follows from the one before it by
      a round with the next key, the last one gives the ciphertext. */
  lemma CipherTrace(keys: seq<State>, s: State, x: seq<State>)
    requires |keys| >= 2 && |x| == |keys| - 1 && x[0] == XorState(s, keys[0])
    requires forall i :: 0 < i < |x| ==> x[i] == EncRound(x[i - 1], keys[i])
    ensures Cipher(keys, s) == XorState(ShiftRows(SubBytes(x[|x| - 1])), keys[|keys| - 1])
  {
    hide XorState, EncRound, SubBytes, ShiftRows;
    TraceRounds(keys, x, |x| - 1);
  }

  lemma {:induction false} TraceRounds(keys: seq<State>, x: seq<State>, i: nat)
    requires |x| <= |keys| && i < |x|
    requires forall k :: 0 < k < |x| ==> x[k] == EncRound(x[k - 1], keys[k])
    ensures EncRounds(keys, x[0], i) == x[i]
  {
    hide EncRound;
    if i > 0 {
      TraceRounds(keys, x, i - 1);
    }
  }

  /** The full rounds of the pseudo-encryptions use their keys in the cipher's order. */
  lemma {:induction false} FullRoundsAreRounds(keys: seq<State>, s: State, n: nat)
    requires n < |keys|
    ensures FullRounds(keys[1..], s, n) == EncRounds(keys, s, n)
  {
    hide EncRound;
    if n > 0 {
      FullRoundsAreRounds(keys, s, n - 1);
    }
  }

  // ---- The example of appendix B

  lemma FirstColumn0()
    ensures XorColumn(MixColumn(SubColumn(Column(0x19, 0xf4, 0x8d, 0x08))), Column(0xa0, 0xfa, 0xfe, 0x17)) == Column(0xa4, 0x9c, 0x7f, 0xf2)
  {
    assert SubColumn(Column(0x19, 0xf4, 0x8d, 0x08)) == Column(0xd4, 0xbf, 0x5d, 0x30);
    hide SubColumn, Sub;
    assert MixColumn(Column(0xd4, 0xbf, 0x5d, 0x30)) == Column(0x04, 0x66, 0x81, 0xe5);
  }

  lemma FirstColumn1()
    ensures XorColumn(MixColumn(SubColumn(Column(0xa0, 0xc6, 0x48, 0xbe))), Column(0x88, 0x54, 0x2c, 0xb1)) == Column(0x68, 0x9f, 0x35, 0x2b)
  {
    assert SubColumn(Column(0xa0, 0xc6, 0x48, 0xbe)) == Column(0xe0, 0xb4, 0x52, 0xae);
    hide SubColumn, Sub;
    assert MixColumn(Column(0xe0, 0xb4, 0x52, 0xae)) == Column(0xe0, 0xcb, 0x19, 0x9a);
  }

  lemma FirstColumn2()
    ensures XorColumn(MixColumn(SubColumn(Column(0x9a, 0xf8, 0xe3, 0x2b))), Column(0x23, 0xa3, 0x39, 0x39)) == Column(0x6b, 0x5b, 0xea, 0x43)
  {
    assert SubColumn(Column(0x9a, 0xf8, 0xe3, 0x2b)) == Column(0xb8, 0x41, 0x11, 0xf1);
    hide SubColumn, Sub;
    assert MixColumn(Column(0xb8, 0x41, 0x11, 0xf1)) == Column(0x48, 0xf8, 0xd3, 0x7a);
  }

  lemma FirstColumn3()
    ensures XorColumn(MixColumn(SubColumn(Column(0xe9, 0x3d, 0xe2, 0x2a))), Column(0x2a, 0x6c, 0x76, 0x05)) == Column(0x02, 0x6a, 0x50, 0x49)
  {
    assert SubColumn(Column(0xe9, 0x3d, 0xe2, 0x2a)) == Column(0x1e, 0x27, 0x98, 0xe5);
    hide SubColumn, Sub;
    assert MixColumn(Column(0x1e, 0x27, 0x98, 0xe5)) == Column(0x28, 0x06, 0x26, 0x4c);
  }

  /** The first round of the example. */
  lemma FirstRound()
    ensures EncRound(State(Column(0x19, 0x3d, 0xe3, 0xbe), Column(0xa0, 0xf4, 0xe2, 0x2b), Column(0x9a, 0xc6, 0x8d, 0x2a), Column(0xe9, 0xf8, 0x48, 0x08)),
                     State(Column(0xa0, 0xfa, 0xfe, 0x17), Column(0x88, 0x54, 0x2c, 0xb1), Column(0x23, 0xa3, 0x39, 0x39), Column(0x2a, 0x6c, 0x76, 0x05)))
         == State(Column(0xa4, 0x9c, 0x7f, 0xf2), Column(0x68, 0x9f, 0x35, 0x2b), Column(0x6b, 0x5b, 0xea, 0x43), Column(0x02, 0x6a, 0x50, 0x49))
  {
    hide XorColumn, MixColumn, SubColumn, EncRound;
    FirstColumn0();
    FirstColumn1();
    FirstColumn2();
    FirstColumn3();
    RoundColumns(State(Column(0x19, 0x3d, 0xe3, 0xbe), Column(0xa0, 0xf4, 0xe2, 0x2b), Column(0x9a, 0xc6, 0x8d, 0x2a), Column(0xe9, 0xf8, 0x48, 0x08)),
                 State(Column(0xa0, 0xfa, 0xfe, 0x17), Column(0x88, 0x54, 0x2c, 0xb1), Column(0x23, 0xa3, 0x39, 0x39), Column(0x2a, 0x6c, 0x76, 0x05)));
  }

  lemma LastColumn0()
    ensures XorColumn(SubColumn(Column(0xeb, 0x2e, 0x13, 0xd2)), Column(0xd0, 0x14, 0xf9, 0xa8)) == Column(0x39, 0x25, 0x84, 0x1d)
  {
  }

  lemma LastColumn1()
    ensures XorColumn(SubColumn(Column(0x59, 0xa1, 0x42, 0x1e)), Column(0xc9, 0xee, 0x25, 0x89)) == Column(0x02, 0xdc, 0x09, 0xfb)
  {
  }

  lemma LastColumn2()
    ensures XorColumn(SubColumn(Column(0x8b, 0xc3, 0xf2, 0x84)), Column(0xe1, 0x3f, 0x0c, 0xc8)) == Column(0xdc, 0x11, 0x85, 0x97)
  {
  }

  lemma LastColumn3()
    ensures XorColumn(SubColumn(Column(0x1b, 0x40, 0x38, 0xe7)), Column(0xb6, 0x63, 0x0c, 0xa6)) == Column(0x19, 0x6a, 0x0b, 0x32)
  {
  }

  lemma LastRoundColumns(s: State, k: State)
    ensures XorState(ShiftRows(SubBytes(s)), k) == State(
      XorColumn(SubColumn(Column(s.c0.a, s.c1.b, s.c2.c, s.c3.d)), k.c0),
      XorColumn(SubColumn(Column(s.c1.a, s.c2.b, s.c3.c, s.c0.d)), k.c1),
      XorColumn(SubColumn(Column(s.c2.a, s.c3.b, s.c0.c, s.c1.d)), k.c2),
      XorColumn(SubColumn(Column(s.c3.a, s.c0.b, s.c1.c, s.c2.d)), k.c3))
  {
    hide Sub, XorColumn;
  }

  /** The last round of the example, which ends in the published ciphertext. */
  lemma LastRound()
    ensures XorState(ShiftRows(SubBytes(State(Column(0xeb, 0x40, 0xf2, 0x1e), Column(0x59, 0x2e, 0x38, 0x84), Column(0x8b, 0xa1, 0x13, 0xe7), Column(0x1b, 0xc3, 0x42, 0xd2)))),
                     State(Column(0xd0, 0x14, 0xf9, 0xa8), Column(0xc9, 0xee, 0x25, 0x89), Column(0xe1, 0x3f, 0x0c, 0xc8), Column(0xb6, 0x63, 0x0c, 0xa6)))
         == State(Column(0x39, 0x25, 0x84, 0x1d), Column(0x02, 0xdc, 0x09, 0xfb), Column(0xdc, 0x11, 0x85, 0x97), Column(0x19, 0x6a, 0x0b, 0x32))
  {
    hide XorColumn, SubColumn, XorState, ShiftRows, SubBytes;
    LastColumn0();
    LastColumn1();
    LastColumn2();
    LastColumn3();
    LastRoundColumns(State(Column(0xeb, 0x40, 0xf2, 0x1e), Column(0x59, 0x2e, 0x38, 0x84), Column(0x8b, 0xa1, 0x13, 0xe7), Column(0x1b, 0xc3, 0x42, 0xd2)),
                     State(Column(0xd0, 0x14, 0xf9, 0xa8), Column(0xc9, 0xee, 0x25, 0x89), Column(0xe1, 0x3f, 0x0c, 0xc8), Column(0xb6, 0x63, 0x0c, 0xa6)));
  }
}
