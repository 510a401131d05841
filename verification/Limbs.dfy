/** Numbers held as 32-bit limbs, least significant limb first. */
module Limbs {
  import opened Words

  function Value(x: seq<Word>): nat
  {
    if x == [] then 0 else x[0] + TWO32 * Value(x[1..])
  }

  /** 2^(32 n) */
  function Modulus(n: nat): (m: nat)
    ensures m > 0
  {
    if n == 0 then 1 else TWO32 * Modulus(n - 1)
  }

  lemma {:induction false} ValueBound(x: seq<Word>)
    ensures Value(x) < Modulus(|x|)
  {
    if x != [] {
      ValueBound(x[1..]);
    }
  }

  lemma {:induction false} ValueInjective(x: seq<Word>, y: seq<Word>)
    requires |x| == |y| && Value(x) == Value(y)
    ensures x == y
  {
    if x != [] {
      assert x[0] == y[0] && Value(x[1..]) == Value(y[1..]);
      ValueInjective(x[1..], y[1..]);
      assert x == [x[0]] + x[1..] && y == [y[0]] + y[1..];
    }
  }

  /** The highest limb in which two numbers differ decides their order. */
  lemma {:induction false} TopDifferenceDecides(a: seq<Word>, b: seq<Word>, i: nat)
    requires |a| == |b| && i < |a|
    requires a[i + 1..] == b[i + 1..] && a[i] < b[i]
    ensures Value(a) < Value(b)
  {
    if i == 0 {
    } else {
      assert a[1..][i..] == a[i + 1..] == b[i + 1..] == b[1..][i..];
      TopDifferenceDecides(a[1..], b[1..], i - 1);
    }
  }
}
