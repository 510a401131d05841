/** C's bitwise and with a mask, on integers of any sign in two's complement. */
module BitOps {

  function Pow2(k: nat): (p: nat)
    ensures p > 0
  {
    if k == 0 then 1 else 2 * Pow2(k - 1)
  }

  lemma Pow2Of32()
    ensures Pow2(32) == 0x1_0000_0000
  {
    assert Pow2(8) == 0x100;
    assert Pow2(16) == 0x1_0000;
    assert Pow2(24) == 0x100_0000;
  }

  /** x & y for y >= 0, bit by bit from the lowest; x / 2 is the arithmetic shift. */
  function And(x: int, y: nat): (r: nat)
    decreases y
  {
    if y == 0 then 0 else (x % 2) * (y % 2) + 2 * And(x / 2, y / 2)
  }

  /** x & (2^k - 1) is x modulo 2^k, for negative x too. */
  lemma {:induction false} AndMask(x: int, k: nat)
    ensures And(x, Pow2(k) - 1) == x % Pow2(k)
    decreases k
  {
    if k > 0 {
      var p := Pow2(k - 1);
      assert (2 * p - 1) % 2 == 1 && (2 * p - 1) / 2 == p - 1;
      AndMask(x / 2, k - 1);
      assert And(x, 2 * p - 1) == x % 2 + 2 * ((x / 2) % p);
      ModDouble(x, p);
    }
  }

  lemma ModDouble(x: int, p: nat)
    requires p > 0
    ensures x % (2 * p) == x % 2 + 2 * ((x / 2) % p)
  {
    var h := x / 2;
    var q, m := h / p, h % p;
    assert x == q * (2 * p) + (x % 2 + 2 * m);
    ModUnique(x, 2 * p, q, x % 2 + 2 * m);
  }

  lemma ModUnique(x: int, d: nat, q: int, m: nat)
    requires d > 0 && m < d && x == q * d + m
    ensures x % d == m && x / d == q
  {
    var k := q - x / d;
    assert x == (x / d) * d + x % d;
    assert k * d == q * d - (x / d) * d;
    SmallMultiple(k, d);
  }

  lemma SmallMultiple(k: int, d: int)
    requires 0 < d && -d < k * d < d
    ensures k == 0
  {
  }

  lemma MulGrows(k: int, d: nat)
    ensures k >= 1 ==> k * d >= d
  {
  }

  lemma MulLe(x: nat, y: nat, z: nat)
    requires x <= y
    ensures x * z <= y * z && z * x <= z * y
  {
  }

  /** x | y, bit by bit from the lowest. */
  function Or(x: nat, y: nat): (r: nat)
  {
    if x == 0 then y
    else if y == 0 then x
    else (if x % 2 == 1 || y % 2 == 1 then 1 else 0) + 2 * Or(x / 2, y / 2)
  }

  /** Or-ing numbers without common bits adds them: x has its lowest k bits clear, y has no others. */
  lemma {:induction false} OrDisjoint(x: nat, y: nat, k: nat)
    requires x % Pow2(k) == 0 && y < Pow2(k)
    ensures Or(x, y) == x + y && Or(y, x) == x + y
    decreases k
  {
    if k > 0 && x > 0 && y > 0 {
      ModDouble(x, Pow2(k - 1));
      OrDisjoint(x / 2, y / 2, k - 1);
    }
  }
}
