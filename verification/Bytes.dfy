/** Byte strings, also read as little-endian numbers. */
module Bytes {

  type Byte = x: int | 0 <= x < 256

  function Pow256(n: nat): (p: nat)
    ensures p > 0
  {
    if n == 0 then 1 else 256 * Pow256(n - 1)
  }

  function LeValue(x: seq<Byte>): nat
  {
    if x == [] then 0 else x[0] + 256 * LeValue(x[1..])
  }

  lemma {:induction false} LeValueBound(x: seq<Byte>)
    ensures LeValue(x) < Pow256(|x|)
  {
    if x != [] {
      LeValueBound(x[1..]);
    }
  }

  lemma {:induction false} LeValueInjective(x: seq<Byte>, y: seq<Byte>)
    requires |x| == |y| && LeValue(x) == LeValue(y)
    ensures x == y
  {
    if x != [] {
      assert x[0] == y[0] && LeValue(x[1..]) == LeValue(y[1..]);
      LeValueInjective(x[1..], y[1..]);
      assert x == [x[0]] + x[1..] && y == [y[0]] + y[1..];
    }
  }

  function Zeros(n: nat): (z: seq<Byte>)
    ensures |z| == n && forall i :: 0 <= i < n ==> z[i] == 0
  {
    seq(n, _ => 0)
  }

  /** The message whose consecutive pieces are given. */
  function Concat(pieces: seq<seq<Byte>>): seq<Byte>
  {
    if pieces == [] then [] else Concat(pieces[..|pieces| - 1]) + pieces[|pieces| - 1]
  }
}
