/**
  The bits of a 32-bit word, as a bit pattern and as the number it stands for, converted one
  hexadecimal digit at a time.
 */
module WordBits {
  import opened Words
  import BitOps

  /** A uint32_t as the 32 bits it is made of. */
  datatype Word32 = W(bits: bv32)

  // ---- Arithmetic

  function Sum(x: bv32, y: bv32): bv32
  {
    x + y
  }

  /** C's `+` on uint32_t. */
  function Plus(x: Word32, y: Word32): Word32
  {
    W(Sum(x.bits, y.bits))
  }

  lemma PlusCommutes(x: Word32, y: Word32)
    ensures Plus(x, y) == Plus(y, x)
  {
  }

  lemma SumAssociates(x: bv32, y: bv32, z: bv32)
    ensures Sum(Sum(x, y), z) == Sum(x, Sum(y, z))
  {
    assert Sum(x, y) == x + y && Sum(y, z) == y + z;
    assert Sum(x + y, z) == x + y + z && Sum(x, y + z) == x + (y + z);
  }

  lemma PlusAssociates(x: Word32, y: Word32, z: Word32)
    ensures Plus(Plus(x, y), z) == Plus(x, Plus(y, z))
  {
    hide Sum;
    SumAssociates(x.bits, y.bits, z.bits);
  }

  lemma PlusZero(x: Word32)
    ensures Plus(x, W(0)) == x == Plus(W(0), x)
  {
  }

  /** Moves the last summand in front of the one before it. */
  lemma PlusSwapLast(x: Word32, y: Word32, z: Word32)
    ensures Plus(Plus(x, y), z) == Plus(Plus(x, z), y)
  {
    hide Plus;
    PlusAssociates(x, y, z);
    PlusAssociates(x, z, y);
    PlusCommutes(y, z);
  }

  // ---- Digits

  function Last(b: bv32): bv32 { b & 15 }
  function Rest(b: bv32): bv32 { b >> 4 }
  function Push(b: bv32, s: bv32): bv32 { 16 * b + s }
  function Mask(b: bv32, m: bv32): bv32 { b & m }

  predicate IsDigit(s: bv32) { s < 16 }

  function Pow16(n: nat): (p: nat)
    ensures p > 0
  {
    if n == 0 then 1 else 16 * Pow16(n - 1)
  }

  /** The number the four lowest bits stand for. */
  function Digit(s: bv32): (d: nat)
    ensures d < 16
  {
    (if s & 8 == 0 then 0 else 8) + (if s & 4 == 0 then 0 else 4) + (if s & 2 == 0 then 0 else 2) + (if s & 1 == 0 then 0 else 1)
  }

  /** The four bits of a digit. */
  function Nibble(d: nat): (s: bv32)
    requires d < 16
    ensures IsDigit(s) && Digit(s) == d
  {
    (if d < 8 then 0 else 8) + (if d % 8 < 4 then 0 else 4) + (if d % 4 < 2 then 0 else 2) + (if d % 2 < 1 then 0 else 1)
  }

  /** The number in the n lowest digits. */
  function Low(b: bv32, n: nat): (x: nat)
    ensures x < Pow16(n)
    decreases n
  {
    if n == 0 then 0 else Digit(Last(b)) + 16 * Low(Rest(b), n - 1)
  }

  /** The n lowest digits of a number. */
  function Spread(x: nat, n: nat): bv32
    decreases n
  {
    if n == 0 then 0 else Push(Spread(x / 16, n - 1), Nibble(x % 16))
  }

  /** The number a bit pattern stands for. */
  function Num(w: Word32): Word
  {
    Pow16Of8();
    Low(w.bits, 8)
  }

  /** The bit pattern of a word. */
  function Bits(x: Word): Word32
  {
    W(Spread(x, 8))
  }

  lemma Pow16Of8()
    ensures Pow16(8) == TWO32
  {
  }

  // ---- Facts about bit patterns

  lemma RestOfPush(p: bv32, s: bv32)
    requires IsDigit(s)
    ensures Last(Push(p, s)) == s
    ensures Rest(Push(p, s)) == Mask(p, 0x0fff_ffff)
  {
  }

  lemma PushOfRest(b: bv32)
    ensures Push(Rest(b), Last(b)) == b && IsDigit(Last(b))
  {
  }

  lemma RestMasked(b: bv32, m: bv32)
    ensures Rest(Mask(b, m)) == Mask(Rest(b), Rest(m))
    ensures Last(m) == 15 ==> Last(Mask(b, m)) == Last(b)
  {
  }

  lemma AllMasked(b: bv32)
    ensures Mask(b, 0xffff_ffff) == b
  {
  }

  // ---- Masks

  /** The n lowest digits of m are all ones. */
  predicate Ones(m: bv32, n: nat)
    decreases n
  {
    n == 0 || (Last(m) == 15 && Ones(Rest(m), n - 1))
  }

  /** m has no digits but the n lowest. */
  predicate Fits(m: bv32, n: nat)
    decreases n
  {
    if n == 0 then m == 0 else Fits(Rest(m), n - 1)
  }

  lemma {:induction false} OnesBelow(m: bv32, n: nat, k: nat)
    requires Ones(m, n) && k <= n
    ensures Ones(m, k)
    decreases n
  {
    hide Rest, Last;
    if k > 0 {
      OnesBelow(Rest(m), n - 1, k - 1);
    }
  }

  lemma {:induction false} LowMasked(b: bv32, m: bv32, n: nat)
    requires Ones(m, n)
    ensures Low(Mask(b, m), n) == Low(b, n)
    decreases n
  {
    hide Rest, Last, Mask, Digit;
    if n > 0 {
      RestMasked(b, m);
      LowMasked(Rest(b), Rest(m), n - 1);
    }
  }

  lemma {:induction false} FitsBelow(b: bv32, m: bv32, n: nat)
    requires Fits(m, n) && Mask(b, m) == b
    ensures Fits(b, n)
    decreases n
  {
    if n > 0 {
      RestMasked(b, m);
      FitsBelow(Rest(b), Rest(m), n - 1);
    }
  }

  lemma Masks()
    ensures Ones(0x0fff_ffff, 7)
    ensures Fits(0xffff_ffff, 8)
  {
  }

  // ---- Bit patterns and numbers

  lemma LowPush(p: bv32, s: bv32, n: nat)
    requires IsDigit(s) && 0 < n <= 8
    ensures Low(Push(p, s), n) == Digit(s) + 16 * Low(p, n - 1)
  {
    hide Rest, Last, Mask, Push, Ones, Fits, Digit, IsDigit;
    RestOfPush(p, s);
    Masks();
    OnesBelow(0x0fff_ffff, 7, n - 1);
    LowMasked(p, 0x0fff_ffff, n - 1);
  }

  lemma {:induction false} LowSpread(x: nat, n: nat)
    requires x < Pow16(n) && n <= 8
    ensures Low(Spread(x, n), n) == x
    decreases n
  {
    hide Rest, Last, Push, Nibble, Digit, IsDigit;
    if n > 0 {
      LowSpread(x / 16, n - 1);
      LowPush(Spread(x / 16, n - 1), Nibble(x % 16), n);
    }
  }

  lemma {:induction false} SpreadLow(b: bv32, n: nat)
    requires Fits(b, n)
    ensures Spread(Low(b, n), n) == b
    decreases n
  {
    hide Rest, Last, Push, Nibble, Digit, IsDigit;
    if n > 0 {
      SpreadLow(Rest(b), n - 1);
      var x := Low(b, n);
      assert x % 16 == Digit(Last(b)) && x / 16 == Low(Rest(b), n - 1);
      PushOfRest(b);
      NibbleOfDigit(Last(b));
    }
  }

  lemma NibbleOfDigit(s: bv32)
    requires IsDigit(s)
    ensures Nibble(Digit(s)) == s
  {
  }

  /** Every bit pattern is that of the number it stands for, and every word the number of its
      bits. */
  lemma BitsOfNum(w: Word32)
    ensures Bits(Num(w)) == w
  {
    hide Mask, Fits, Low, Spread;
    Masks();
    AllMasked(w.bits);
    FitsBelow(w.bits, 0xffff_ffff, 8);
    SpreadLow(w.bits, 8);
  }

  lemma NumOfBits(x: Word)
    ensures Num(Bits(x)) == x
  {
    hide Low, Spread;
    Pow16Of8();
    LowSpread(x, 8);
  }

  // ---- Byte order

  /** bswap_32: the four bytes in the opposite order. */
  function Reversed(w: Word32): Word32
  {
    W((w.bits << 24) | ((w.bits & 0xff00) << 8) | ((w.bits >> 8) & 0xff00) | (w.bits >> 24))
  }

  /** Digit i of a bit pattern. */
  function At(b: bv32, i: bv32): bv32
    requires i < 32
  {
    (b >> i) & 15
  }

  lemma NumAt(b: bv32)
    ensures Num(W(b)) == Digit(At(b, 0)) + 0x10 * Digit(At(b, 4)) + 0x100 * Digit(At(b, 8)) + 0x1000 * Digit(At(b, 12))
                    + 0x1_0000 * Digit(At(b, 16)) + 0x10_0000 * Digit(At(b, 20)) + 0x100_0000 * Digit(At(b, 24))
                    + 0x1000_0000 * Digit(At(b, 28))
  {
    AtIs(b);
    NumIs(b);
    hide *;
    var h := Rest(Rest(Rest(Rest(b))));
    LowFour(b, 4);
    LowFour(h, 0);
    LowNone(Rest(Rest(Rest(Rest(h)))));
  }

  lemma LowFour(b: bv32, n: nat)
    ensures Low(b, n + 4) == Digit(Last(b)) + 0x10 * Digit(Last(Rest(b))) + 0x100 * Digit(Last(Rest(Rest(b))))
                           + 0x1000 * Digit(Last(Rest(Rest(Rest(b))))) + 0x1_0000 * Low(Rest(Rest(Rest(Rest(b)))), n)
  {
    hide *;
    LowStep(b, n + 4);
    LowStep(Rest(b), n + 3);
    LowStep(Rest(Rest(b)), n + 2);
    LowStep(Rest(Rest(Rest(b))), n + 1);
  }

  lemma LowNone(b: bv32)
    ensures Low(b, 0) == 0
  {
  }

  lemma LowStep(b: bv32, n: nat)
    requires n > 0
    ensures Low(b, n) == Digit(Last(b)) + 16 * Low(Rest(b), n - 1)
  {
  }

  lemma NumIs(b: bv32)
    ensures Num(W(b)) == Low(b, 8)
  {
    hide Low;
  }

  lemma AtIs(b: bv32)
    ensures && Last(b) == At(b, 0) && Last(Rest(b)) == At(b, 4) && Last(Rest(Rest(b))) == At(b, 8)
            && Last(Rest(Rest(Rest(b)))) == At(b, 12) && Last(Rest(Rest(Rest(Rest(b))))) == At(b, 16)
            && Last(Rest(Rest(Rest(Rest(Rest(b)))))) == At(b, 20)
            && Last(Rest(Rest(Rest(Rest(Rest(Rest(b))))))) == At(b, 24)
            && Last(Rest(Rest(Rest(Rest(Rest(Rest(Rest(b)))))))) == At(b, 28)
  {
  }

  lemma ReversedAt(b: bv32)
    ensures var r := Reversed(W(b)).bits;
            && At(r, 0) == At(b, 24) && At(r, 4) == At(b, 28) && At(r, 8) == At(b, 16) && At(r, 12) == At(b, 20)
            && At(r, 16) == At(b, 8) && At(r, 20) == At(b, 12) && At(r, 24) == At(b, 0) && At(r, 28) == At(b, 4)
  {
  }

  lemma SwabDigits(a: nat, b: nat, c: nat, d: nat, e: nat, f: nat, g: nat, h: nat)
    requires a < 16 && b < 16 && c < 16 && d < 16 && e < 16 && f < 16 && g < 16 && h < 16
    ensures Swab32(a + 0x10 * b + 0x100 * c + 0x1000 * d + 0x1_0000 * e + 0x10_0000 * f + 0x100_0000 * g + 0x1000_0000 * h)
         == g + 0x10 * h + 0x100 * e + 0x1000 * f + 0x1_0000 * c + 0x10_0000 * d + 0x100_0000 * a + 0x1000_0000 * b
  {
    SwabBytes(a + 16 * b, c + 16 * d, e + 16 * f, g + 16 * h);
  }

  lemma SwabBytes(p: nat, q: nat, r: nat, s: nat)
    requires p < 256 && q < 256 && r < 256 && s < 256
    ensures Swab32(p + 0x100 * q + 0x1_0000 * r + 0x100_0000 * s) == s + 0x100 * r + 0x1_0000 * q + 0x100_0000 * p
  {
    var x: Word := p + 0x100 * q + 0x1_0000 * r + 0x100_0000 * s;
    assert Swab32(x) == 0x100_0000 * (x % 256) + 0x1_0000 * (x / 256 % 256) + 0x100 * (x / 0x1_0000 % 256) + x / 0x100_0000;
    hide Swab32;
    Split(x, 256, p, q + 0x100 * r + 0x1_0000 * s);
    Split(x, 0x1_0000, p + 0x100 * q, r + 0x100 * s);
    Split(x, 0x100_0000, p + 0x100 * q + 0x1_0000 * r, s);
    Split(q + 0x100 * r + 0x1_0000 * s, 256, q, r + 0x100 * s);
    Split(r + 0x100 * s, 256, r, s);
  }

  lemma Split(x: nat, m: nat, low: nat, high: nat)
    requires low < m && x == low + m * high
    ensures x % m == low && x / m == high
  {
    BitOps.ModUnique(x, m, high, low);
  }

  /** Reversing the bytes of the bit pattern is swapping those of the number. */
  lemma NumOfReversed(w: Word32)
    ensures Num(Reversed(w)) == Swab32(Num(w))
  {
    hide Digit, At, Reversed, Num, Swab32;
    var b := w.bits;
    NumAt(b);
    NumAt(Reversed(w).bits);
    ReversedAt(b);
    SwabDigits(Digit(At(b, 0)), Digit(At(b, 4)), Digit(At(b, 8)), Digit(At(b, 12)),
               Digit(At(b, 16)), Digit(At(b, 20)), Digit(At(b, 24)), Digit(At(b, 28)));
  }

  // ---- Sequences of words

  function AllBits(s: seq<Word>): (r: seq<Word32>)
    ensures |r| == |s|
    ensures forall i :: 0 <= i < |s| ==> r[i] == Bits(s[i])
  {
    seq(|s|, i requires 0 <= i < |s| => Bits(s[i]))
  }

  function AllNum(s: seq<Word32>): (r: seq<Word>)
    ensures |r| == |s|
    ensures forall i :: 0 <= i < |s| ==> r[i] == Num(s[i])
  {
    seq(|s|, i requires 0 <= i < |s| => Num(s[i]))
  }

  lemma AllBitsOfNum(s: seq<Word32>)
    ensures AllBits(AllNum(s)) == s
  {
    hide Bits, Num;
    forall i | 0 <= i < |s|
      ensures AllBits(AllNum(s))[i] == s[i]
    {
      BitsOfNum(s[i]);
    }
  }

  /** The words of the padding. */
  lemma PaddingBits()
    ensures Bits(0) == W(0) && Bits(0x8000_0000) == W(0x8000_0000)
    ensures Bits(0x100) == W(0x100) && Bits(0x280) == W(0x280)
  {
    hide Bits, Num;
    PaddingNums();
    BitsOfNum(W(0));
    BitsOfNum(W(0x8000_0000));
    BitsOfNum(W(0x100));
    BitsOfNum(W(0x280));
  }

  lemma PaddingNums()
    ensures Num(W(0)) == 0 && Num(W(0x8000_0000)) == 0x8000_0000 && Num(W(0x100)) == 0x100 && Num(W(0x280)) == 0x280
  {
    hide Num, Digit;
    assert Digit(0) == 0 && Digit(1) == 1 && Digit(2) == 2 && Digit(8) == 8 by { DigitValues(); }
    NumAt(0);
    NumAt(0x8000_0000);
    NumAt(0x100);
    NumAt(0x280);
  }

  lemma DigitValues()
    ensures Digit(0) == 0 && Digit(1) == 1 && Digit(2) == 2 && Digit(8) == 8
  {
  }
}
