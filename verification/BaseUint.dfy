/**
  base_uint of uint256.h: multi-limb unsigned arithmetic in place, for every width.  The limbs pn
  are an array, least significant first; the results are stated on the numbers they hold.
 */
module BaseUint {
  import opened Words
  import opened Limbs
  import opened BitOps

  const MAX_WORD: Word := 0xffff_ffff

  // ---- Addition

  /** Limbwise addition with a carry in: result and carry out. */
  function AddCarry(a: seq<Word>, b: seq<Word>, c: nat): (r: (seq<Word>, nat))
    requires |a| == |b| && c <= 1
    ensures |r.0| == |a| && r.1 <= 1
  {
    if a == [] then ([], c)
    else
      var n := c + a[0] + b[0];
      var (rest, out) := AddCarry(a[1..], b[1..], n / TWO32);
      ([n % TWO32] + rest, out)
  }

  lemma {:induction false} AddCarryValue(a: seq<Word>, b: seq<Word>, c: nat)
    requires |a| == |b| && c <= 1
    ensures var (s, out) := AddCarry(a, b, c);
            Value(s) + (if out == 1 then Modulus(|a|) else 0) == Value(a) + Value(b) + c
  {
    if a != [] {
      var n := c + a[0] + b[0];
      var c' := n / TWO32;
      AddCarryValue(a[1..], b[1..], c');
      var (s, out) := AddCarry(a, b, c);
      assert s[0] == n % TWO32 && s[1..] == AddCarry(a[1..], b[1..], c').0;
      assert out == AddCarry(a[1..], b[1..], c').1;
      assert n == TWO32 * c' + s[0];
      assert Modulus(|a|) == TWO32 * Modulus(|a| - 1);
      hide AddCarry, Modulus;
    }
  }

  /** The sum modulo 2^BITS. */
  function Sum(a: seq<Word>, b: seq<Word>): (s: seq<Word>)
    requires |a| == |b|
    ensures |s| == |a|
  {
    AddCarry(a, b, 0).0
  }

  lemma SumValue(a: seq<Word>, b: seq<Word>)
    requires |a| == |b|
    ensures Value(Sum(a, b)) == (Value(a) + Value(b)) % Modulus(|a|)
  {
    hide Value, Modulus, AddCarry;
    AddCarryValue(a, b, 0);
    var (s, out) := AddCarry(a, b, 0);
    ValueBound(s);
    ReduceOnce(Value(s), out, Modulus(|a|));
  }

  lemma ReduceOnce(x: nat, q: nat, m: nat)
    requires x < m && q <= 1
    ensures (x + if q == 1 then m else 0) % m == x
  {
  }

  /** Limb i and the carry into limb i, as the loop meets them. */
  lemma {:induction false} AddCarryAt(a: seq<Word>, b: seq<Word>, c: nat, i: nat)
    requires |a| == |b| && c <= 1 && i < |a|
    ensures AddCarry(a, b, c).0[i] == (CarryFrom(a, b, c, i) + a[i] + b[i]) % TWO32
  {
    if i > 0 {
      AddCarryAt(a[1..], b[1..], (c + a[0] + b[0]) / TWO32, i - 1);
      CarryFromTail(a, b, c, i);
    }
  }

  /** The carry into limb i when the carry into limb 0 is c. */
  function CarryFrom(a: seq<Word>, b: seq<Word>, c: nat, i: nat): (r: nat)
    requires |a| == |b| && c <= 1 && i <= |a|
    ensures r <= 1
  {
    if i == 0 then c else (CarryFrom(a, b, c, i - 1) + a[i - 1] + b[i - 1]) / TWO32
  }

  lemma {:induction false} CarryFromTail(a: seq<Word>, b: seq<Word>, c: nat, i: nat)
    requires |a| == |b| && c <= 1 && 0 < i <= |a|
    ensures CarryFrom(a, b, c, i) == CarryFrom(a[1..], b[1..], (c + a[0] + b[0]) / TWO32, i - 1)
  {
    if i > 1 {
      CarryFromTail(a, b, c, i - 1);
    }
  }

  /** operator+= */
  method AddAssign(pn: array<Word>, b: seq<Word>)
    requires pn.Length == |b|
    modifies pn
    ensures pn[..] == Sum(old(pn[..]), b)
    ensures Value(pn[..]) == (Value(old(pn[..])) + Value(b)) % Modulus(|b|)
  {
    ghost var a := pn[..];
    var carry := 0;
    var i := 0;
    while i < pn.Length
      invariant 0 <= i <= pn.Length
      invariant carry == CarryFrom(a, b, 0, i)
      invariant forall k :: 0 <= k < i ==> pn[k] == Sum(a, b)[k]
      invariant forall k :: i <= k < pn.Length ==> pn[k] == a[k]
    {
      AddCarryAt(a, b, 0, i);
      var n := carry + pn[i] + b[i];
      pn[i] := n % TWO32;
      carry := n / TWO32;
      i := i + 1;
    }
    SumValue(a, b);
    assert pn[..] == Sum(a, b);
  }

  // ---- Increment and decrement

  function Successor(a: seq<Word>): (r: seq<Word>)
    ensures |r| == |a|
  {
    if a == [] then []
    else if a[0] == MAX_WORD then [0] + Successor(a[1..])
    else [a[0] + 1] + a[1..]
  }

  function Predecessor(a: seq<Word>): (r: seq<Word>)
    ensures |r| == |a|
  {
    if a == [] then []
    else if a[0] == 0 then [MAX_WORD] + Predecessor(a[1..])
    else [a[0] - 1] + a[1..]
  }

  lemma {:induction false} SuccessorValue(a: seq<Word>)
    ensures Value(Successor(a)) == if Value(a) + 1 == Modulus(|a|) then 0 else Value(a) + 1
  {
    ValueBound(a);
    if a != [] {
      ValueBound(a[1..]);
      if a[0] == MAX_WORD {
        assert Successor(a)[1..] == Successor(a[1..]);
        SuccessorValue(a[1..]);
      } else {
        assert Successor(a)[1..] == a[1..];
      }
    }
  }

  lemma {:induction false} PredecessorValue(a: seq<Word>)
    ensures Value(Predecessor(a)) == if Value(a) == 0 then Modulus(|a|) - 1 else Value(a) - 1
  {
    ValueBound(a);
    if a != [] {
      ValueBound(a[1..]);
      if a[0] == 0 {
        assert Predecessor(a)[1..] == Predecessor(a[1..]);
        PredecessorValue(a[1..]);
      } else {
        assert Predecessor(a)[1..] == a[1..];
      }
    }
  }

  lemma StepMod(v: nat, m: nat)
    requires v < m
    ensures (v + 1) % m == if v + 1 == m then 0 else v + 1
    ensures (v as int - 1) % m == if v == 0 then m - 1 else v - 1
  {
  }

  /** Leading limbs x become y, the first other limb is stepped, the rest stay. */
  lemma {:induction false} SuccessorAt(a: seq<Word>, t: nat)
    requires t <= |a| && forall k :: 0 <= k < t ==> a[k] == MAX_WORD
    ensures forall k :: 0 <= k < t ==> Successor(a)[k] == 0
    ensures t < |a| && a[t] != MAX_WORD ==>
              Successor(a)[t] == a[t] + 1 && forall k :: t < k < |a| ==> Successor(a)[k] == a[k]
  {
    if t > 0 {
      SuccessorAt(a[1..], t - 1);
      assert forall k :: 0 < k < |a| ==> Successor(a)[k] == Successor(a[1..])[k - 1];
    }
  }

  lemma {:induction false} PredecessorAt(a: seq<Word>, t: nat)
    requires t <= |a| && forall k :: 0 <= k < t ==> a[k] == 0
    ensures forall k :: 0 <= k < t ==> Predecessor(a)[k] == MAX_WORD
    ensures t < |a| && a[t] != 0 ==>
              Predecessor(a)[t] == a[t] - 1 && forall k :: t < k < |a| ==> Predecessor(a)[k] == a[k]
  {
    if t > 0 {
      PredecessorAt(a[1..], t - 1);
      assert forall k :: 0 < k < |a| ==> Predecessor(a)[k] == Predecessor(a[1..])[k - 1];
    }
  }

  /** operator++ */
  method Increment(pn: array<Word>)
    requires pn.Length > 0
    modifies pn
    ensures pn[..] == Successor(old(pn[..]))
    ensures Value(pn[..]) == (Value(old(pn[..])) + 1) % Modulus(pn.Length)
  {
    hide Successor;
    ghost var a := pn[..];
    SuccessorValue(a);
    ValueBound(a);
    StepMod(Value(a), Modulus(pn.Length));
    var i := 0;
    while true
      invariant 0 <= i < pn.Length
      invariant forall k :: 0 <= k < i ==> a[k] == MAX_WORD && pn[k] == 0
      invariant forall k :: i <= k < pn.Length ==> pn[k] == a[k]
      decreases pn.Length - i
    {
      pn[i] := if pn[i] == MAX_WORD then 0 else pn[i] + 1;
      if !(pn[i] == 0 && i < pn.Length - 1) {
        break;
      }
      i := i + 1;
    }
    SuccessorAt(a, i);
    if a[i] == MAX_WORD {
      SuccessorAt(a, i + 1);
    }
    assert pn[..] == Successor(a);
  }

  /** operator--; the comparison with -1 is unsigned */
  method Decrement(pn: array<Word>)
    requires pn.Length > 0
    modifies pn
    ensures pn[..] == Predecessor(old(pn[..]))
    ensures Value(pn[..]) == (Value(old(pn[..])) as int - 1) % Modulus(pn.Length)
  {
    hide Predecessor;
    ghost var a := pn[..];
    PredecessorValue(a);
    ValueBound(a);
    StepMod(Value(a), Modulus(pn.Length));
    var i := 0;
    while true
      invariant 0 <= i < pn.Length
      invariant forall k :: 0 <= k < i ==> a[k] == 0 && pn[k] == MAX_WORD
      invariant forall k :: i <= k < pn.Length ==> pn[k] == a[k]
      decreases pn.Length - i
    {
      pn[i] := if pn[i] == 0 then MAX_WORD else pn[i] - 1;
      if !(pn[i] == MAX_WORD && i < pn.Length - 1) {
        break;
      }
      i := i + 1;
    }
    PredecessorAt(a, i);
    if a[i] == 0 {
      PredecessorAt(a, i + 1);
    }
    assert pn[..] == Predecessor(a);
  }

  // ---- Complement, negation, subtraction

  function Complement(a: seq<Word>): (r: seq<Word>)
    ensures |r| == |a|
    ensures forall i :: 0 <= i < |a| ==> r[i] == MAX_WORD - a[i]
  {
    seq(|a|, i requires 0 <= i < |a| => MAX_WORD - a[i])
  }

  lemma {:induction false} ComplementValue(a: seq<Word>)
    ensures Value(Complement(a)) == Modulus(|a|) - 1 - Value(a)
  {
    if a != [] {
      assert Complement(a)[1..] == Complement(a[1..]);
      ComplementValue(a[1..]);
    }
  }

  /** operator-: complement every limb (the bitwise ~ of a word is 2^32 - 1 minus it), then ++ */
  method Negate(pn: array<Word>) returns (ret: array<Word>)
    requires pn.Length > 0
    ensures fresh(ret) && ret.Length == pn.Length
    ensures Value(ret[..]) == (0 - Value(pn[..]) as int) % Modulus(pn.Length)
  {
    ret := new Word[pn.Length];
    var i := 0;
    while i < pn.Length
      invariant 0 <= i <= pn.Length
      invariant forall k :: 0 <= k < i ==> ret[k] == MAX_WORD - pn[k]
      modifies ret
    {
      ret[i] := MAX_WORD - pn[i];
      i := i + 1;
    }
    ghost var a := pn[..];
    assert ret[..] == Complement(a);
    ComplementValue(a);
    ValueBound(a);
    Increment(ret);
    assert pn[..] == a;
    NegateMod(Value(a), Modulus(pn.Length));
  }

  lemma NegateMod(v: nat, m: nat)
    requires v < m
    ensures (m - v) % m == (0 - v as int) % m
  {
    AddMultiple(0 - v as int, 1, m);
  }

  /** operator-= : adds the negation */
  method SubtractAssign(pn: array<Word>, b: array<Word>)
    requires pn.Length == b.Length > 0
    modifies pn
    ensures Value(pn[..]) == (Value(old(pn[..])) as int - Value(old(b[..])) as int) % Modulus(pn.Length)
  {
    hide Value, Modulus, Sum;
    var minusB := Negate(b);
    AddAssign(pn, minusB[..]);
    AddNegated(Value(old(pn[..])), Value(old(b[..])), Modulus(pn.Length));
  }

  lemma AddNegated(x: int, y: int, m: nat)
    requires m > 0
    ensures (x + (0 - y) % m) % m == (x - y) % m
  {
    var q := (0 - y) / m;
    assert x - y == (x + (0 - y) % m) + q * m;
    AddMultiple(x + (0 - y) % m, q, m);
  }

  lemma AddMultiple(x: int, q: int, m: nat)
    requires m > 0
    ensures (x + q * m) % m == x % m
  {
    ModUnique(x + q * m, m, x / m + q, x % m) by {
      assert (x / m + q) * m == (x / m) * m + q * m;
    }
  }

  // ---- Comparison

  /** operator< */
  method Less(a: seq<Word>, b: seq<Word>) returns (r: bool)
    requires |a| == |b|
    ensures r == (Value(a) < Value(b))
  {
    var i := |a| - 1;
    while i >= 0
      invariant -1 <= i < |a|
      invariant forall k :: i < k < |a| ==> a[k] == b[k]
    {
      if a[i] < b[i] {
        TopDifferenceDecides(a, b, i);
        return true;
      } else if a[i] > b[i] {
        TopDifferenceDecides(b, a, i);
        return false;
      }
      i := i - 1;
    }
    assert a == b;
    return false;
  }

  /** operator<= */
  method LessOrEqual(a: seq<Word>, b: seq<Word>) returns (r: bool)
    requires |a| == |b|
    ensures r == (Value(a) <= Value(b))
  {
    var i := |a| - 1;
    while i >= 0
      invariant -1 <= i < |a|
      invariant forall k :: i < k < |a| ==> a[k] == b[k]
    {
      if a[i] < b[i] {
        TopDifferenceDecides(a, b, i);
        return true;
      } else if a[i] > b[i] {
        TopDifferenceDecides(b, a, i);
        return false;
      }
      i := i - 1;
    }
    assert a == b;
    return true;
  }

  /** operator== */
  method Equal(a: seq<Word>, b: seq<Word>) returns (r: bool)
    requires |a| == |b|
    ensures r == (Value(a) == Value(b))
  {
    var i := 0;
    while i < |a|
      invariant 0 <= i <= |a|
      invariant forall k :: 0 <= k < i ==> a[k] == b[k]
    {
      if a[i] != b[i] {
        if Value(a) == Value(b) {
          ValueInjective(a, b);
        }
        return false;
      }
      i := i + 1;
    }
    assert a == b;
    return true;
  }
}
