/**
  Merkle roots in cpu-miner.c: the in-place tree of gbt_work_decode and the branch folding of
  stratum_gen_work, for any hash of two nodes.
 */
module Merkle {
  import opened BitOps

  /** A level with its last node repeated if their number is odd. */
  function Evened<T>(s: seq<T>): (r: seq<T>)
    requires |s| > 0
    ensures |r| % 2 == 0 && |s| <= |r| <= |s| + 1
    ensures forall i :: 0 <= i < |s| ==> r[i] == s[i]
    ensures forall i :: |s| <= i < |r| ==> r[i] == s[|s| - 1]
  {
    if |s| % 2 == 0 then s else s + [s[|s| - 1]]
  }

  /** The next level up. */
  function Parents<T>(h: (T, T) -> T, s: seq<T>): (r: seq<T>)
    requires |s| > 0
    ensures |r| == (|s| + 1) / 2
    ensures forall i :: 0 <= i < |r| ==> r[i] == h(Evened(s)[2 * i], Evened(s)[2 * i + 1])
  {
    var e := Evened(s);
    seq(|e| / 2, i requires 0 <= i < |e| / 2 => h(e[2 * i], e[2 * i + 1]))
  }

  /** The root of a non-empty list of leaves. */
  function Root<T>(h: (T, T) -> T, s: seq<T>): T
    requires |s| > 0
    decreases |s|
  {
    if |s| == 1 then s[0] else Root(h, Parents(h, s))
  }

  /** A level of odd length counts as if its last node were there twice. */
  lemma OddLevel<T>(h: (T, T) -> T, s: seq<T>)
    requires |s| % 2 == 1 && |s| > 1
    ensures Root(h, s) == Root(h, s + [s[|s| - 1]])
  {
    assert Parents(h, s) == Parents(h, s + [s[|s| - 1]]);
  }

  lemma ParentsOfHalves<T>(h: (T, T) -> T, a: seq<T>, b: seq<T>)
    requires |a| > 0 && |a| % 2 == 0 && |b| > 0
    ensures Parents(h, a + b) == Parents(h, a) + Parents(h, b)
  {
    var p, q := Parents(h, a + b), Parents(h, a) + Parents(h, b);
    assert |p| == |q|;
    hide Parents, Evened;
    forall i | 0 <= i < |p|
      ensures p[i] == q[i]
    {
      ParentAt(h, a, b, i);
    }
  }

  lemma ParentAt<T>(h: (T, T) -> T, a: seq<T>, b: seq<T>, i: nat)
    requires |a| > 0 && |a| % 2 == 0 && |b| > 0 && i < |Parents(h, a + b)|
    ensures Parents(h, a + b)[i] == (Parents(h, a) + Parents(h, b))[i]
  {
    EvenedJoin(a, b);
    hide Evened, Parents;
    var k := i - |a| / 2;
    var e := Evened(b);
    if k >= 0 {
      assert (a + e)[2 * i] == e[2 * k] && (a + e)[2 * i + 1] == e[2 * k + 1];
    } else {
      assert (a + e)[2 * i] == a[2 * i] && (a + e)[2 * i + 1] == a[2 * i + 1];
    }
  }

  lemma EvenedJoin<T>(a: seq<T>, b: seq<T>)
    requires |a| > 0 && |a| % 2 == 0 && |b| > 0
    ensures Evened(a) == a && Evened(a + b) == a + Evened(b)
  {
  }

  /** One level up, in both halves. */
  lemma HalvesUp<T>(h: (T, T) -> T, a: seq<T>, b: seq<T>, k: nat) returns (p: seq<T>, q: seq<T>)
    requires k > 0 && |a| == |b| == Pow2(k)
    ensures |p| == |q| == Pow2(k - 1) > 0
    ensures Root(h, a) == Root(h, p) && Root(h, b) == Root(h, q) && Root(h, a + b) == Root(h, p + q)
  {
    assert Pow2(k) == 2 * Pow2(k - 1);
    hide Pow2;
    ParentsOfHalves(h, a, b);
    p, q := Parents(h, a), Parents(h, b);
  }

  lemma RootOfTwo<T>(h: (T, T) -> T, a: seq<T>, b: seq<T>)
    requires |a| == |b| == 1
    ensures Root(h, a + b) == h(Root(h, a), Root(h, b))
  {
  }

  lemma PowZero()
    ensures Pow2(0) == 1
  {
  }

  /** The root over two full subtrees of equal height is the hash of their roots. */
  lemma {:induction false} RootOfHalves<T>(h: (T, T) -> T, a: seq<T>, b: seq<T>, k: nat)
    requires |a| == |b| == Pow2(k)
    ensures Root(h, a + b) == h(Root(h, a), Root(h, b))
    decreases k
  {
    PowZero();
    hide Root, Pow2;
    if k == 0 {
      RootOfTwo(h, a, b);
    } else {
      var p, q := HalvesUp(h, a, b, k);
      RootOfHalves(h, p, q, k - 1);
    }
  }

  /** The tree loop of gbt_work_decode: levels are computed over each other from the left.  The
      buffer has room for the leaves rounded up to an even number. */
  method RootInPlace<T>(h: (T, T) -> T, tree: array<T>, count: nat)
    requires 0 < count && count + count % 2 <= tree.Length
    modifies tree
    ensures tree[0] == Root(h, old(tree[..count]))
  {
    hide Parents;
    var n := count;
    while n > 1
      invariant 0 < n <= count && n + n % 2 <= tree.Length
      invariant Root(h, tree[..n]) == Root(h, old(tree[..count]))
    {
      ghost var level := tree[..n];
      if n % 2 != 0 {
        tree[n] := tree[n - 1];
        n := n + 1;
      }
      ghost var even := tree[..n];
      assert even == Evened(level);
      n := n / 2;
      HashPairs(h, tree, n, level, even);
    }
    assert tree[..n] == [tree[0]];
  }

  /** One level: node i overwritten by the hash of nodes 2i and 2i+1, which are not yet overwritten. */
  method HashPairs<T>(h: (T, T) -> T, tree: array<T>, n: nat, ghost level: seq<T>, ghost even: seq<T>)
    requires |level| > 0 && even == Evened(level) && |even| == 2 * n <= tree.Length && tree[..2 * n] == even
    modifies tree
    ensures tree[..n] == Parents(h, level)
  {
    var i := 0;
    while i < n
      invariant 0 <= i <= n
      invariant forall k :: 0 <= k < i ==> tree[k] == Parents(h, level)[k]
      invariant forall k :: 2 * i <= k < 2 * n ==> tree[k] == even[k]
    {
      tree[i] := h(tree[2 * i], tree[2 * i + 1]);
      i := i + 1;
    }
  }

  // ---- The leftmost branch

  /** The siblings met on the way from the first leaf to the root. */
  function Branch<T>(h: (T, T) -> T, s: seq<T>): seq<T>
    requires |s| > 0
    decreases |s|
  {
    if |s| == 1 then [] else [s[1]] + Branch(h, Parents(h, s))
  }

  function Fold<T>(h: (T, T) -> T, leaf: T, branch: seq<T>): T
  {
    if branch == [] then leaf else Fold(h, h(leaf, branch[0]), branch[1..])
  }

  /** The branch does not depend on the first leaf, so a pool can send it before the coinbase is
      known. */
  lemma {:induction false} BranchIgnoresLeaf<T>(h: (T, T) -> T, s: seq<T>, x: T)
    requires |s| > 0
    ensures Branch(h, s[0 := x]) == Branch(h, s)
    decreases |s|
  {
    if |s| > 1 {
      var s' := s[0 := x];
      assert Parents(h, s') == Parents(h, s)[0 := h(x, s[1])];
      BranchIgnoresLeaf(h, Parents(h, s), h(x, s[1]));
    }
  }

  /** Folding any coinbase hash with the branch gives the root of the tree with that first leaf. */
  lemma {:induction false} FoldIsRoot<T>(h: (T, T) -> T, s: seq<T>, x: T)
    requires |s| > 0
    ensures Fold(h, x, Branch(h, s)) == Root(h, s[0 := x])
    decreases |s|
  {
    if |s| > 1 {
      var s', p := s[0 := x], Parents(h, s);
      var y := h(x, s[1]);
      assert Parents(h, s') == p[0 := y];
      FoldIsRoot(h, p, y);
      assert Branch(h, s)[0] == s[1] && Branch(h, s)[1..] == Branch(h, p);
    }
  }

  /** The loop of stratum_gen_work: the coinbase hash combined with each branch entry in turn. */
  method StratumRoot<T>(h: (T, T) -> T, coinbase: T, branch: seq<T>, ghost s: seq<T>) returns (root: T)
    requires |s| > 0 && branch == Branch(h, s)
    ensures root == Root(h, s[0 := coinbase])
  {
    root := coinbase;
    var i := 0;
    assert branch[0..] == branch;
    while i < |branch|
      invariant 0 <= i <= |branch|
      invariant Fold(h, root, branch[i..]) == Fold(h, coinbase, branch)
    {
      root := h(root, branch[i]);
      assert branch[i..][1..] == branch[i + 1..];
      i := i + 1;
    }
    FoldIsRoot(h, s, coinbase);
  }
}
