/** The shift operators of base_uint (uint256.h): multiplication and division by powers of two. */
module BaseUintShift {
  import opened Words
  import opened Limbs
  import opened BitOps

  // ---- Powers

  lemma {:induction false} Pow2Sum(i: nat, j: nat)
    ensures Pow2(i + j) == Pow2(i) * Pow2(j)
  {
    if i > 0 {
      Pow2Sum(i - 1, j);
    }
  }

  /** The two halves into which a shift by s < 32 bits splits a word: R * Q = 2^32. */
  lemma SplitWord(s: nat)
    requires s < 32
    ensures Pow2(s) * Pow2(32 - s) == TWO32
  {
    Pow2Sum(s, 32 - s);
    Pow2Of32();
  }

  lemma {:induction false} Pow2OfLimbs(k: nat, s: nat)
    ensures Pow2(32 * k + s) == Modulus(k) * Pow2(s)
  {
    if k > 0 {
      Pow2OfLimbs(k - 1, s);
      Pow2Sum(32, 32 * (k - 1) + s);
      Pow2Of32();
      assert TWO32 * (Modulus(k - 1) * Pow2(s)) == Modulus(k) * Pow2(s);
    }
  }

  // ---- Prefixes and zero limbs

  function Zeros(n: nat): (z: seq<Word>)
    ensures |z| == n && forall i :: 0 <= i < n ==> z[i] == 0
  {
    seq(n, _ => 0)
  }

  lemma {:induction false} ValueZeros(n: nat)
    ensures Value(Zeros(n)) == 0
  {
    if n > 0 {
      assert Zeros(n)[1..] == Zeros(n - 1);
      ValueZeros(n - 1);
    }
  }

  lemma {:induction false} ValueConcat(x: seq<Word>, y: seq<Word>)
    ensures Value(x + y) == Value(x) + Modulus(|x|) * Value(y)
  {
    if x == [] {
      assert x + y == y;
    } else {
      assert (x + y)[1..] == x[1..] + y;
      ValueConcat(x[1..], y);
      assert TWO32 * (Modulus(|x| - 1) * Value(y)) == Modulus(|x|) * Value(y);
    }
  }

  lemma {:induction false} ModulusSum(i: nat, j: nat)
    ensures Modulus(i + j) == Modulus(i) * Modulus(j)
  {
    if i > 0 {
      ModulusSum(i - 1, j);
    }
  }

  // ---- Left shift by less than a limb

  lemma MulWord(a: Word, r: nat, q: nat)
    requires r > 0 && q > 0 && r * q == TWO32
    ensures a * r == TWO32 * (a / q) + (a * r) % TWO32
    ensures (a * r) % TWO32 == (a % q) * r
    ensures (a % q) * r + r <= TWO32 && a / q < r
  {
    var h, l := a / q, a % q;
    assert a == q * h + l;
    assert a * r == TWO32 * h + l * r by {
      assert (q * h) * r == (r * q) * h;
    }
    assert (l + 1) * r <= q * r by { MulLe(l + 1, q, r); }
    ModUnique(a * r, TWO32, h, l * r);
    if h >= r {
      MulLe(r, h, q);
      assert false;
    }
  }

  /** a * R + c limb by limb, where R * Q = 2^32 and c < R; the carry out is dropped. */
  function MulSmall(a: seq<Word>, r: nat, q: nat, c: nat): (m: seq<Word>)
    requires r > 0 && q > 0 && r * q == TWO32 && c < r
    ensures |m| == |a|
  {
    if a == [] then []
    else
      MulWord(a[0], r, q);
      [(a[0] * r) % TWO32 + c] + MulSmall(a[1..], r, q, a[0] / q)
  }

  function CarryOut(a: seq<Word>, q: nat, c: nat): nat
    requires q > 0
  {
    if a == [] then c else a[|a| - 1] / q
  }

  lemma MulStep(a0: nat, r: nat, c: nat, lo: nat, h: nat, v: nat, p: nat, out: nat, w: nat, va: nat, m: nat, wa: nat)
    requires a0 * r == TWO32 * h + lo
    requires w + p * out == v * r + h
    requires va == a0 + TWO32 * v && m == TWO32 * p && wa == lo + c + TWO32 * w
    ensures wa + m * out == va * r + c
  {
  }

  lemma MulSmallCons(a: seq<Word>, r: nat, q: nat, c: nat)
    requires r > 0 && q > 0 && r * q == TWO32 && c < r && a != []
    ensures a[0] / q < r
    ensures Value(MulSmall(a, r, q, c)) == (a[0] * r) % TWO32 + c + TWO32 * Value(MulSmall(a[1..], r, q, a[0] / q))
    ensures CarryOut(a, q, c) == CarryOut(a[1..], q, a[0] / q)
    ensures a[0] * r == TWO32 * (a[0] / q) + (a[0] * r) % TWO32
    ensures Value(a) == a[0] + TWO32 * Value(a[1..]) && Modulus(|a|) == TWO32 * Modulus(|a| - 1)
  {
    MulWord(a[0], r, q);
    assert MulSmall(a, r, q, c)[1..] == MulSmall(a[1..], r, q, a[0] / q);
  }

  lemma {:induction false} MulSmallValue(a: seq<Word>, r: nat, q: nat, c: nat)
    requires r > 0 && q > 0 && r * q == TWO32 && c < r
    ensures Value(MulSmall(a, r, q, c)) + Modulus(|a|) * CarryOut(a, q, c) == Value(a) * r + c
  {
    if a != [] {
      MulSmallCons(a, r, q, c);
      var h := a[0] / q;
      MulSmallValue(a[1..], r, q, h);
      hide *;
      MulStep(a[0], r, c, (a[0] * r) % TWO32, h, Value(a[1..]), Modulus(|a| - 1),
              CarryOut(a[1..], q, h), Value(MulSmall(a[1..], r, q, h)),
              Value(a), Modulus(|a|), Value(MulSmall(a, r, q, c)));
    }
  }

  lemma {:induction false} MulSmallAt(a: seq<Word>, r: nat, q: nat, c: nat, i: nat)
    requires r > 0 && q > 0 && r * q == TWO32 && c < r && i < |a|
    ensures MulSmall(a, r, q, c)[i] == (a[i] * r) % TWO32 + if i == 0 then c else a[i - 1] / q
  {
    MulWord(a[0], r, q);
    if i > 0 {
      MulSmallAt(a[1..], r, q, a[0] / q, i - 1);
    }
  }

  /** Limb j of the shifted number: low part of one limb, high part of the one below it. */
  function ShlLimb(a: seq<Word>, k: nat, r: nat, q: nat, j: nat): (w: Word)
    requires j < |a| && r > 0 && q > 0 && r * q == TWO32
  {
    if j < k then 0
    else
      MulWord(a[j - k], r, q);
      if j == k then (a[j - k] * r) % TWO32
      else
        MulWord(a[j - k - 1], r, q);
        (a[j - k] * r) % TWO32 + a[j - k - 1] / q
  }

  function ShiftedLeft(a: seq<Word>, k: nat, r: nat, q: nat): (b: seq<Word>)
    requires r > 0 && q > 0 && r * q == TWO32
    ensures |b| == |a| && forall j :: 0 <= j < |a| ==> b[j] == ShlLimb(a, k, r, q, j)
  {
    seq(|a|, j requires 0 <= j < |a| => ShlLimb(a, k, r, q, j))
  }

  lemma ShiftedLeftParts(a: seq<Word>, k: nat, r: nat, q: nat)
    requires r > 0 && q > 0 && r * q == TWO32 && k <= |a|
    ensures ShiftedLeft(a, k, r, q) == Zeros(k) + MulSmall(a[..|a| - k], r, q, 0)
  {
    hide MulSmall;
    var x := a[..|a| - k];
    forall j | k <= j < |a|
      ensures ShiftedLeft(a, k, r, q)[j] == MulSmall(x, r, q, 0)[j - k]
    {
      MulSmallAt(x, r, q, 0, j - k);
    }
  }

  /** The shifted limbs hold the number times 2^shift, modulo 2^BITS. */
  lemma ShiftedLeftValue(a: seq<Word>, k: nat, r: nat, q: nat)
    requires r > 0 && q > 0 && r * q == TWO32
    ensures Value(ShiftedLeft(a, k, r, q)) == (Value(a) * (Modulus(k) * r)) % Modulus(|a|)
  {
    hide MulSmall, ShiftedLeft, CarryOut, Value, Modulus;
    var n := |a|;
    if k > n {
      assert ShiftedLeft(a, k, r, q) == Zeros(n) by { ShiftedLeftZero(a, k, r, q); }
      ValueZeros(n);
      ModulusSum(n, k - n);
      var t := Value(a) * (Modulus(k - n) * r);
      assert Value(a) * (Modulus(k) * r) == t * Modulus(n) + 0 by {
        MulRearrange(Value(a), Modulus(n), Modulus(k - n), r);
      }
      ModUnique(Value(a) * (Modulus(k) * r), Modulus(n), t, 0);
    } else {
      var x, y := a[..n - k], a[n - k..];
      var m := MulSmall(x, r, q, 0);
      ShiftedLeftParts(a, k, r, q);
      ValueConcat(Zeros(k), m);
      ValueZeros(k);
      MulSmallValue(x, r, q, 0);
      assert a == x + y;
      ValueConcat(x, y);
      ModulusSum(k, n - k);
      ValueBound(ShiftedLeft(a, k, r, q));
      ShlAlgebra(Value(a), Value(x), Value(y), Value(m), CarryOut(x, q, 0), Modulus(k), Modulus(n - k), r);
      ModUnique(Value(a) * (Modulus(k) * r), Modulus(n),
                CarryOut(x, q, 0) + Value(y) * r, Modulus(k) * Value(m));
    }
  }

  lemma ShiftedLeftZero(a: seq<Word>, k: nat, r: nat, q: nat)
    requires r > 0 && q > 0 && r * q == TWO32 && k > |a|
    ensures ShiftedLeft(a, k, r, q) == Zeros(|a|)
  {
  }

  lemma MulRearrange(v: nat, m: nat, l: nat, r: nat)
    ensures v * ((m * l) * r) == (v * (l * r)) * m
  {
  }

  lemma ShlAlgebra(v: nat, x: nat, y: nat, m: nat, out: nat, k: nat, l: nat, r: nat)
    requires v == x + l * y && m + l * out == x * r
    ensures v * (k * r) == (out + y * r) * (k * l) + k * m
  {
  }

  /** operator<<= : for every width and every shift, multiplication by 2^shift modulo 2^BITS. */
  method ShiftLeft(pn: array<Word>, shift: nat)
    modifies pn
    ensures Value(pn[..]) == (Value(old(pn[..])) * Pow2(shift)) % Modulus(pn.Length)
  {
    hide Value, Modulus, Pow2, Or, ShlLimb, ShiftedLeft;
    ghost var a := pn[..];
    var copy := pn[..];
    Clear(pn);
    var k, s := shift / 32, shift % 32;
    var r, q := Pow2(s), Pow2(32 - s);
    SplitWord(s);
    LowLimbsZero(a, k, r, q);
    var i := 0;
    while i < pn.Length
      invariant 0 <= i <= pn.Length
      invariant forall j :: 0 <= j < pn.Length && j < i + k ==> pn[j] == ShlLimb(a, k, r, q, j)
      invariant i + k < pn.Length ==> pn[i + k] == if i > 0 then a[i - 1] / q else 0
      invariant forall j :: i + k < j < pn.Length ==> pn[j] == 0
    {
      if i + k + 1 < pn.Length && s != 0 {
        HighPart(a[i], s);
        pn[i + k + 1] := Or(pn[i + k + 1], copy[i] / q);
      }
      if i + k < pn.Length {
        PlaceLow(a, i, k, s, r, q);
        pn[i + k] := Or(pn[i + k], (copy[i] * r) % TWO32);
      }
      if s == 0 {
        NoHighPart(a[i], q);
      }
      i := i + 1;
    }
    assert pn[..] == ShiftedLeft(a, k, r, q);
    ShiftedLeftValue(a, k, r, q);
    Pow2OfLimbs(k, s);
  }

  lemma HighPart(x: Word, s: nat)
    requires 0 < s < 32
    ensures 0 <= x / Pow2(32 - s) < TWO32 && Or(0, x / Pow2(32 - s)) == x / Pow2(32 - s)
  {
    SplitWord(s);
    MulWord(x, Pow2(s), Pow2(32 - s));
    MulLe(1, Pow2(32 - s), Pow2(s));
  }

  lemma LowLimbsZero(a: seq<Word>, k: nat, r: nat, q: nat)
    requires r > 0 && q > 0 && r * q == TWO32
    ensures forall j :: 0 <= j < |a| && j < k ==> ShlLimb(a, k, r, q, j) == 0
  {
  }

  lemma NoHighPart(x: Word, q: nat)
    requires q == Pow2(32)
    ensures x / q == 0
  {
    Pow2Of32();
  }

  lemma PlaceLow(a: seq<Word>, i: nat, k: nat, s: nat, r: nat, q: nat)
    requires i < |a| && i + k < |a| && s < 32 && r == Pow2(s) && q == Pow2(32 - s) && r * q == TWO32
    ensures var hi := if i > 0 then a[i - 1] / q else 0;
            Or(hi, (a[i] * r) % TWO32) == ShlLimb(a, k, r, q, i + k)
  {
    hide Or, Pow2;
    var hi := if i > 0 then a[i - 1] / q else 0;
    MulWord(a[i], r, q);
    var lo := (a[i] * r) % TWO32;
    if i > 0 {
      MulWord(a[i - 1], r, q);
    }
    ModUnique(lo, r, a[i] % q, 0);
    OrDisjoint(lo, hi, s);
  }

  method Clear(pn: array<Word>)
    modifies pn
    ensures forall j :: 0 <= j < pn.Length ==> pn[j] == 0
  {
    var i := 0;
    while i < pn.Length
      invariant 0 <= i <= pn.Length
      invariant forall j :: 0 <= j < i ==> pn[j] == 0
    {
      pn[i] := 0;
      i := i + 1;
    }
  }

  // ---- Right shift by less than a limb

  /** Limbwise division by R, where R * Q = 2^32. */
  function DivSmall(a: seq<Word>, r: nat, q: nat): (d: seq<Word>)
    requires r > 0 && q > 0 && r * q == TWO32
    ensures |d| == |a|
  {
    if a == [] then []
    else [DivLimb(a[0], if |a| > 1 then a[1] else 0, r, q)] + DivSmall(a[1..], r, q)
  }

  /** The high part of one limb and the low part of the one above it. */
  function DivLimb(x: Word, above: Word, r: nat, q: nat): (w: Word)
    requires r > 0 && q > 0 && r * q == TWO32
    ensures w == x / r + (above * q) % TWO32
  {
    MulWord(x, q, r);
    MulWord(above, q, r);
    x / r + (above * q) % TWO32
  }

  lemma {:induction false} DivSmallValue(a: seq<Word>, r: nat, q: nat)
    requires r > 0 && q > 0 && r * q == TWO32
    ensures Value(DivSmall(a, r, q)) == Value(a) / r
  {
    if a == [] {
      ModUnique(0, r, 0, 0);
    } else {
      var v, above := Value(a[1..]), if |a| > 1 then a[1] else 0;
      DivSmallValue(a[1..], r, q);
      assert DivSmall(a, r, q)[1..] == DivSmall(a[1..], r, q);
      assert v % r == above % r by { LowLimbMod(a[1..], r, q); }
      MulWord(above, q, r);
      hide DivSmall;
      DivAlgebra(a[0], v, r, q);
    }
  }

  /** R divides 2^32, so a number and its lowest limb agree modulo R. */
  lemma LowLimbMod(a: seq<Word>, r: nat, q: nat)
    requires r > 0 && q > 0 && r * q == TWO32
    ensures Value(a) % r == (if a == [] then 0 else a[0]) % r
  {
    if a != [] {
      var v := Value(a[1..]);
      assert TWO32 * v == (q * v) * r;
      var m := a[0] % r;
      assert Value(a) == (a[0] / r + q * v) * r + m by {
        assert (a[0] / r + q * v) * r == (a[0] / r) * r + (q * v) * r;
      }
      ModUnique(Value(a), r, a[0] / r + q * v, m);
    }
  }

  lemma DivAlgebra(x: Word, v: nat, r: nat, q: nat)
    requires r > 0 && q > 0 && r * q == TWO32
    ensures (x + TWO32 * v) / r == x / r + (v % r) * q + TWO32 * (v / r)
  {
  }

  function ShrLimb(a: seq<Word>, k: nat, r: nat, q: nat, j: nat): Word
    requires j < |a| && r > 0 && q > 0 && r * q == TWO32
  {
    if j + k >= |a| then 0 else DivLimb(a[j + k], if j + k + 1 < |a| then a[j + k + 1] else 0, r, q)
  }

  function ShiftedRight(a: seq<Word>, k: nat, r: nat, q: nat): (b: seq<Word>)
    requires r > 0 && q > 0 && r * q == TWO32
    ensures |b| == |a| && forall j :: 0 <= j < |a| ==> b[j] == ShrLimb(a, k, r, q, j)
  {
    seq(|a|, j requires 0 <= j < |a| => ShrLimb(a, k, r, q, j))
  }

  lemma {:induction false} DivSmallAt(a: seq<Word>, r: nat, q: nat, i: nat)
    requires r > 0 && q > 0 && r * q == TWO32 && i < |a|
    ensures DivSmall(a, r, q)[i] == DivLimb(a[i], if i + 1 < |a| then a[i + 1] else 0, r, q)
  {
    hide DivLimb;
    if i > 0 {
      DivSmallAt(a[1..], r, q, i - 1);
    }
  }

  lemma ShiftedRightParts(a: seq<Word>, k: nat, r: nat, q: nat)
    requires r > 0 && q > 0 && r * q == TWO32 && k <= |a|
    ensures ShiftedRight(a, k, r, q) == DivSmall(a[k..], r, q) + Zeros(k)
  {
    hide DivLimb, DivSmall;
    forall j | 0 <= j < |a| - k
      ensures ShiftedRight(a, k, r, q)[j] == DivSmall(a[k..], r, q)[j]
    {
      DivSmallAt(a[k..], r, q, j);
    }
  }

  /** The shifted limbs hold the number divided by 2^shift, rounded down. */
  lemma ShiftedRightValue(a: seq<Word>, k: nat, r: nat, q: nat)
    requires r > 0 && q > 0 && r * q == TWO32
    ensures Modulus(k) * r > 0
    ensures Value(ShiftedRight(a, k, r, q)) == Value(a) / (Modulus(k) * r)
  {
    hide DivSmall, ShiftedRight, Value, Modulus;
    MulLe(1, r, Modulus(k));
    var n := |a|;
    if k > n {
      ShiftedRightZero(a, k, r, q);
      ValueZeros(n);
      ValueBound(a);
      ModulusSum(n, k - n);
      MulLe(1, Modulus(k - n) * r, Modulus(n));
      assert Modulus(k) * r == Modulus(n) * (Modulus(k - n) * r);
      ModUnique(Value(a), Modulus(k) * r, 0, Value(a));
    } else {
      var x, y := a[..k], a[k..];
      ShiftedRightParts(a, k, r, q);
      ValueConcat(DivSmall(y, r, q), Zeros(k));
      ValueZeros(k);
      DivSmallValue(y, r, q);
      assert a == x + y;
      ValueConcat(x, y);
      ValueBound(x);
      DivTwice(Value(x), Value(y), Modulus(k), r);
    }
  }

  lemma ShiftedRightZero(a: seq<Word>, k: nat, r: nat, q: nat)
    requires r > 0 && q > 0 && r * q == TWO32 && k > |a|
    ensures ShiftedRight(a, k, r, q) == Zeros(|a|)
  {
  }

  lemma DivTwice(x: nat, y: nat, m: nat, r: nat)
    requires x < m && r > 0 && m * r > 0
    ensures (x + m * y) / (m * r) == y / r
  {
    var d, l := y / r, y % r;
    assert y == r * d + l;
    assert m * y == (m * r) * d + m * l by { assert m * (r * d) == (m * r) * d; }
    assert x + m * l < m * r by { MulLe(l + 1, r, m); }
    ModUnique(x + m * y, m * r, d, x + m * l);
  }

  /** operator>>= : for every width and every shift, division by 2^shift rounded down. */
  method ShiftRight(pn: array<Word>, shift: nat)
    modifies pn
    ensures Value(pn[..]) == Value(old(pn[..])) / Pow2(shift)
  {
    hide Value, Modulus, Pow2, Or, ShrLimb, ShiftedRight;
    ghost var a := pn[..];
    var copy := pn[..];
    Clear(pn);
    var k, s := shift / 32, shift % 32;
    var r, q := Pow2(s), Pow2(32 - s);
    SplitWord(s);
    var i := 0;
    while i < pn.Length
      invariant 0 <= i <= pn.Length
      invariant forall j :: 0 <= j < pn.Length && j + k + 1 < i ==> pn[j] == ShrLimb(a, k, r, q, j)
      invariant 0 <= i - k - 1 < pn.Length ==> pn[i - k - 1] == a[i - 1] / r
      invariant forall j :: i - k <= j < pn.Length && 0 <= j ==> pn[j] == 0
    {
      if i - k - 1 >= 0 {
        RaisePart(a, i, k, s, r, q);
        if s != 0 {
          pn[i - k - 1] := Or(pn[i - k - 1], (copy[i] * q) % TWO32);
        }
      }
      if i - k >= 0 {
        LowerPart(a[i], s);
        pn[i - k] := Or(pn[i - k], copy[i] / r);
      }
      i := i + 1;
    }
    LastLimbs(a, k, s, r, q);
    assert pn[..] == ShiftedRight(a, k, r, q);
    ShiftedRightValue(a, k, r, q);
    Pow2OfLimbs(k, s);
  }

  lemma LowerPart(x: Word, s: nat)
    requires s < 32
    ensures 0 <= x / Pow2(s) < TWO32 && Or(0, x / Pow2(s)) == x / Pow2(s)
  {
    SplitWord(s);
    MulWord(x, Pow2(32 - s), Pow2(s));
    MulLe(1, Pow2(s), Pow2(32 - s));
  }

  lemma RaisePart(a: seq<Word>, i: nat, k: nat, s: nat, r: nat, q: nat)
    requires i < |a| && i - k - 1 >= 0 && s < 32 && r == Pow2(s) && q == Pow2(32 - s) && r * q == TWO32
    ensures ShrLimb(a, k, r, q, i - k - 1)
         == if s == 0 then a[i - 1] / r else Or(a[i - 1] / r, (a[i] * q) % TWO32)
  {
    hide Or, Pow2;
    var lo, hi := a[i - 1] / r, (a[i] * q) % TWO32;
    MulWord(a[i - 1], q, r);
    MulWord(a[i], q, r);
    if s == 0 {
      assert r == 1 by { PowZero(); }
    } else {
      ModUnique(hi, q, a[i] % r, 0);
      OrDisjoint(hi, lo, 32 - s);
    }
  }

  lemma PowZero()
    ensures Pow2(0) == 1
  {
  }

  /** The limbs above the last one moved, and the last one itself. */
  lemma LastLimbs(a: seq<Word>, k: nat, s: nat, r: nat, q: nat)
    requires s < 32 && r == Pow2(s) && q == Pow2(32 - s) && r * q == TWO32
    ensures forall j :: 0 <= j < |a| && j + k >= |a| ==> ShrLimb(a, k, r, q, j) == 0
    ensures 0 <= |a| - k - 1 < |a| ==> ShrLimb(a, k, r, q, |a| - k - 1) == a[|a| - 1] / r
  {
  }
}
