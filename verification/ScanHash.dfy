/**
  scanhash_sha256d of algo/sha2.c and fulltest of util.c: the search of a nonce range for a
  header whose double hash, as a 256-bit number, is at most the target.
 */
module ScanHash {
  import opened Words
  import opened WordBits
  import opened Limbs
  import opened Sha256
  import opened MiningKernel

  /** fulltest compares from the top limb down; its answer is the numeric comparison. */
  method FullTest(hash: seq<Word>, target: seq<Word>) returns (rc: bool)
    requires |hash| == |target| == 8
    ensures rc == (Value(hash) <= Value(target))
  {
    rc := true;
    var i := 7;
    while i >= 0
      invariant -1 <= i <= 7 && rc
      invariant forall t :: i < t < 8 ==> hash[t] == target[t]
    {
      if hash[i] > target[i] {
        TopDifferenceDecides(target, hash, i);
        return false;
      }
      if hash[i] < target[i] {
        TopDifferenceDecides(hash, target, i);
        return true;
      }
      i := i - 1;
    }
    assert hash == target;
  }

  // ---- Specification

  /** A 32-word padded header: 20 words of header, then the padding of an 80-byte message. */
  predicate PaddedHeader(data: seq<Word>)
  {
    && |data| == 32
    && data[20] == 0x8000_0000
    && (forall t :: 21 <= t < 31 ==> data[t] == 0)
    && data[31] == 0x280
  }

  /** The padding stratum_gen_work writes behind the 20 words of any header. */
  lemma HeaderPadded(header: seq<Word>)
    requires |header| == 20
    ensures PaddedHeader(header + [0x8000_0000, 0, 0, 0, 0, 0, 0, 0, 0, 0, 0, 0x280])
  {
  }

  lemma PaddedTail(data: seq<Word>)
    requires PaddedHeader(data)
    ensures HeaderTail(AllBits(data[16..]))
  {
    hide Bits;
    PaddingBits();
    var m := AllBits(data[16..]);
    assert m[4] == Bits(data[20]) && m[15] == Bits(data[31]);
    assert forall t :: 5 <= t < 15 ==> m[t] == Bits(data[16 + t]);
  }

  function SwapAll(h: seq<Word>): (r: seq<Word>)
    ensures |r| == |h|
    ensures forall i :: 0 <= i < |h| ==> r[i] == Swab32(h[i])
  {
    seq(|h|, i requires 0 <= i < |h| => Swab32(h[i]))
  }

  /** The double hash of the two header blocks, before the byte swap. */
  function DoubleHash(data: seq<Word>): (r: seq<Word32>)
    requires |data| == 32
    ensures |r| == 8
  {
    Rehash(Compress(Compress(Init(), AllBits(data[..16])), AllBits(data[16..])))
  }

  /** The header's digest with nonce n in word 19, as the limbs fulltest compares. */
  function Digest(data: seq<Word>, n: Word): (r: seq<Word>)
    requires |data| == 32
    ensures |r| == 8
  {
    SwapAll(AllNum(DoubleHash(data[19 := n])))
  }

  ghost predicate Solves(data: seq<Word>, n: Word, target: seq<Word>)
    requires |data| == 32 && |target| == 8
  {
    Value(Digest(data, n)) <= Value(target)
  }

  /** No nonce in lo .. hi-1 is a solution. */
  ghost predicate NoneSolves(data: seq<Word>, lo: int, hi: int, target: seq<Word>)
    requires |data| == 32 && |target| == 8
  {
    forall n: Word :: lo <= n < hi ==> !Solves(data, n, target)
  }

  lemma NoneSolvesEmpty(data: seq<Word>, lo: int, target: seq<Word>)
    requires |data| == 32 && |target| == 8
    ensures NoneSolves(data, lo, lo, target)
  {
  }

  lemma NoneSolvesExtend(data: seq<Word>, lo: int, hi: Word, target: seq<Word>)
    requires |data| == 32 && |target| == 8
    requires NoneSolves(data, lo, hi, target)
    ensures !Solves(data, hi, target) ==> NoneSolves(data, lo, hi + 1, target)
  {
  }

  /** After each of the nonces lo .. hi-1 the bound and the restart flag let the search go on. */
  ghost predicate Uninterrupted(lo: int, hi: int, maxNonce: Word, restart: Word -> bool)
  {
    forall n: Word :: lo <= n < hi ==> n < maxNonce && !restart(n)
  }

  ghost predicate SameButNonce(before: seq<Word>, after: seq<Word>)
  {
    |after| == |before| && forall i :: 0 <= i < |before| && i != 19 ==> after[i] == before[i]
  }

  /** The outcome of a search: only word 19 changed; no nonce before the one left there is a
      solution, and that one is a solution exactly if the search says so. */
  ghost predicate Searched(before: seq<Word>, after: seq<Word>, target: seq<Word>, found: bool)
    requires |before| == |after| >= 32 && |target| == 8
  {
    && before[19] <= after[19]
    && SameButNonce(before, after)
    && NoneSolves(before[..32], before[19], after[19], target)
    && (found <==> Solves(before[..32], after[19], target))
  }

  /** The word-7 filter never hides a solution. */
  lemma FilterIsSound(data: seq<Word>, n: Word, target: seq<Word>)
    requires |data| == 32 && |target| == 8
    requires Digest(data, n)[7] > target[7]
    ensures !Solves(data, n, target)
  {
    hide Digest, Value;
    assert target[7 + 1..] == Digest(data, n)[7 + 1..];
    TopDifferenceDecides(target, Digest(data, n), 7);
  }

  // ---- The plain double hash

  method CopyInto(a: array<Word32>, s: seq<Word32>)
    requires a.Length >= |s|
    modifies a
    ensures a[..|s|] == s && a[|s|..] == old(a[|s|..])
  {
    var i := 0;
    while i < |s|
      invariant 0 <= i <= |s|
      invariant a[..i] == s[..i] && a[|s|..] == old(a[|s|..])
    {
      a[i] := s[i];
      i := i + 1;
    }
  }

  /** sha256d_80_swap */
  method HeaderHash(data: seq<Word>) returns (hash: seq<Word>)
    requires |data| == 32
    ensures |hash| == 8 && hash == SwapAll(AllNum(DoubleHash(data)))
  {
    hide Compress, Reversed, Init, Num, AllNum, AllBits;
    var s, h := new Word32[16], new Word32[8];
    CopyInto(s, Init());
    Transform(s, AllBits(data[..16]), false);
    Transform(s, AllBits(data[16..]), false);
    ghost var first := s[..8];
    var i := 0;
    while i < 8
      invariant 0 <= i <= 8
      invariant s[..8] == first && s[8..8 + i] == DIGEST_PADDING[..i]
      modifies s
    {
      s[8 + i] := DIGEST_PADDING[i];
      i := i + 1;
    }
    assert s[..] == s[..8] + s[8..16] == first + DIGEST_PADDING;
    CopyInto(h, Init());
    Transform(h, s[..], false);
    ghost var plain := h[..8];
    i := 0;
    while i < 8
      invariant 0 <= i <= 8
      invariant forall t :: 0 <= t < i ==> h[t] == Reversed(plain[t])
      invariant forall t :: i <= t < 8 ==> h[t] == plain[t]
      modifies h
    {
      h[i] := Reversed(h[i]);
      i := i + 1;
    }
    hash := AllNum(h[..]);
    SwappedNums(plain, h[..]);
  }

  lemma SwappedNums(plain: seq<Word32>, h: seq<Word32>)
    requires |h| == |plain| && forall t :: 0 <= t < |h| ==> h[t] == Reversed(plain[t])
    ensures AllNum(h) == SwapAll(AllNum(plain))
  {
    hide Num, Reversed, Swab32;
    forall t | 0 <= t < |h|
      ensures AllNum(h)[t] == SwapAll(AllNum(plain))[t]
    {
      NumOfReversed(plain[t]);
    }
  }

  // ---- The search

  /** What the nonce loop keeps: the schedule buffer holds the header's second block with some
      nonce, pre-extended, and the hoisted hash states belong to that header. */
  ghost predicate Prepared(w: seq<Word32>, midstate: seq<Word32>, prehash: seq<Word32>, data: seq<Word>)
  {
    && PaddedHeader(data) && |w| == 64
    && w[..16][3 := Bits(data[19])] == AllBits(data[16..])
    && PreExtended(w, w[..16])
    && |midstate| == 8 && midstate == Compress(Init(), AllBits(data[..16]))
    && PreHashed(prehash, midstate, w[..16])
  }

  method Prepare(w: array<Word32>, pdata: seq<Word>) returns (midstate: seq<Word32>, prehash: seq<Word32>)
    requires w.Length == 64 && PaddedHeader(pdata)
    modifies w
    ensures Prepared(w[..], midstate, prehash, pdata)
  {
    hide Compress, PreExtended, PreHashed, Init, Bits;
    var block := AllBits(pdata[16..]);
    CopyInto(w, block);
    PreExtend(w);
    var mid := new Word32[8];
    CopyInto(mid, Init());
    assert mid[..8] == Init();
    Transform(mid, AllBits(pdata[..16]), false);
    midstate := mid[..];
    assert midstate == mid[..8] == Compress(Init(), AllBits(pdata[..16]));
    var tail := new Word32[16];
    CopyInto(tail, block);
    assert tail[..] == block;
    PreHash(mid, tail);
    prehash := mid[..];
    assert w[..][..16] == w[..16] == block;
  }

  /** One iteration's kernel call: the nonce goes into w[3], word 7 comes out. */
  method TryNonce(hash: array<Word32>, w: array<Word32>, n: Word, midstate: seq<Word32>, prehash: seq<Word32>,
                  ghost data: seq<Word>)
    requires hash.Length == 8 && w.Length == 64 && hash != w
    requires Prepared(w[..], midstate, prehash, data)
    modifies hash, w
    ensures w[3] == Bits(n)
    ensures hash[7] == DoubleHash(data[19 := n])[7]
    ensures Prepared(w[..], midstate, prehash, data)
  {
    hide Compress, PreExtended, PreHashed, Rehash, Init, Bits, HeaderTail;
    ghost var m, before := w[..16], w[..];
    assert before[..16] == m;
    w[3] := Bits(n);
    ghost var m' := m[3 := Bits(n)];
    assert w[..16] == m';
    assert PreExtended(w[..], m') by {
      PreExtendedIgnoresNonce(before, m, Bits(n));
      PreExtendedOnlyHigh(before, w[..], m');
    }
    PreHashedIgnoresNonce(prehash, midstate, m, Bits(n));
    ghost var data': seq<Word> := data[19 := n];
    assert AllBits(data'[..16]) == AllBits(data[..16]);
    assert AllBits(data'[16..]) == m';
    PaddedTail(data');
    DoubleHashWord7(hash, w, midstate, prehash);
    assert w[..][..16] == w[..16] == m';
    assert w[3] == m'[3];
    assert m'[3 := Bits(data[19])] == m[3 := Bits(data[19])];
  }

  lemma PreExtendedOnlyHigh(w: seq<Word32>, w': seq<Word32>, m: seq<Word32>)
    requires PreExtended(w, m) && |w'| == |w| && w'[16..] == w[16..]
    ensures PreExtended(w', m)
  {
  }

  /** The loop body: kernel, filter, and the full hash and test only behind the filter. */
  method TestNonce(hash: array<Word32>, w: array<Word32>, pdata: array<Word>, n: Word, target: seq<Word>,
                   midstate: seq<Word32>, prehash: seq<Word32>, ghost before: seq<Word>, ghost data: seq<Word>)
    returns (hit: bool)
    requires hash.Length == 8 && w.Length == 64 && pdata.Length >= 32 && |target| == 8
    requires hash != w
    requires SameButNonce(before, pdata[..]) && data == before[..32]
    requires Prepared(w[..], midstate, prehash, data)
    modifies hash, w, pdata
    ensures SameButNonce(before, pdata[..])
    ensures hit ==> pdata[19] == n
    ensures Prepared(w[..], midstate, prehash, data)
    ensures hit <==> Solves(data, n, target)
  {
    hide Compress, PreExtended, PreHashed, Rehash, Init, DoubleHash, Value, Swab32, HeaderTail, Prepared, Num, Bits, Reversed;
    TryNonce(hash, w, n, midstate, prehash, data);
    NumOfReversed(hash[7]);
    if Num(Reversed(hash[7])) <= target[7] {
      NumOfBits(n);
      pdata[19] := Num(w[3]);
      var tried := pdata[..32];
      assert tried == data[19 := n];
      var full := HeaderHash(tried);
      hit := FullTest(full, target);
    } else {
      FilterIsSound(data, n, target);
      hit := false;
    }
  }

  /**
    scanhash_sha256d (one lane).  restart(n) is the value of the thread's restart flag read after
    nonce n was tried.  When it finds, the nonce left in word 19 is the first solution from the
    start; when it does not, no nonce up to the one left in word 19 is a solution, and the search
    stopped there only because of the bound or the flag.
   */
  method Scan(pdata: array<Word>, target: seq<Word>, maxNonce: Word, restart: Word -> bool)
    returns (found: bool, hashesDone: nat)
    requires pdata.Length >= 32 && PaddedHeader(pdata[..32]) && |target| == 8
    modifies pdata
    ensures hashesDone == (pdata[19] as int - old(pdata[19]) as int + 1) % TWO32
    ensures !found ==> pdata[19] >= maxNonce || restart(pdata[19])
    ensures Uninterrupted(old(pdata[19]), pdata[19], maxNonce, restart)
    ensures Searched(old(pdata[..]), pdata[..], target, found)
  {
    hide Prepared, NoneSolves, Solves, PaddedHeader;
    ghost var before := pdata[..];
    ghost var d0: seq<Word> := before[..32];
    assert pdata[..32] == d0;
    var w, hash := new Word32[64], new Word32[8];
    var midstate, prehash := Prepare(w, pdata[..32]);
    var first := pdata[19];
    var n := if first == 0 then 0xffff_ffff else first - 1;
    ghost var tried := 0;
    NoneSolvesEmpty(d0, first, target);
    while true
      invariant Prepared(w[..], midstate, prehash, d0)
      invariant tried == 0 ==> n == (first + TWO32 - 1) % TWO32
      invariant tried > 0 ==> n == first + tried - 1 && n < maxNonce && !restart(n)
      invariant SameButNonce(before, pdata[..])
      invariant NoneSolves(d0, first, first + tried, target)
      invariant Uninterrupted(first, first + tried, maxNonce, restart)
      decreases TWO32 - tried
    {
      n := Add(n, 1);
      assert n == first + tried;
      found := TestNonce(hash, w, pdata, n, target, midstate, prehash, before, d0);
      if found {
        SearchedIntro(before, pdata[..], target, found);
        return true, (n - first + 1) % TWO32;
      }
      NoneSolvesExtend(d0, first, n, target);
      tried := tried + 1;
      if !(n < maxNonce && !restart(n)) { break; }
    }
    pdata[19] := n;
    NoneSolvesShrink(d0, first, n, target);
    SearchedIntro(before, pdata[..], target, false);
    return false, (n - first + 1) % TWO32;
  }

  lemma NoneSolvesShrink(data: seq<Word>, lo: int, hi: Word, target: seq<Word>)
    requires |data| == 32 && |target| == 8 && lo <= hi
    requires NoneSolves(data, lo, hi + 1, target)
    ensures NoneSolves(data, lo, hi, target) && !Solves(data, hi, target)
  {
  }

  lemma SearchedIntro(before: seq<Word>, after: seq<Word>, target: seq<Word>, found: bool)
    requires |before| == |after| >= 32 && |target| == 8
    requires SameButNonce(before, after) && before[19] <= after[19]
    requires NoneSolves(before[..32], before[19], after[19], target)
    requires found == Solves(before[..32], after[19], target)
    ensures Searched(before, after, target, found)
  {
    hide Solves, NoneSolves;
  }

  function Max(x: int, y: int): int
  {
    if x < y then y else x
  }

  /**
    The lane loop of scanhash_sha256d_4way and _8way: each iteration hands the next `lanes` nonces
    to the kernel, so the last group may run past the bound, by less than `lanes` nonces.  The
    vector kernel itself is assembly; each of its lanes stands for the kernel proved above.
   */
  method ScanLanes(pdata: array<Word>, target: seq<Word>, maxNonce: Word, lanes: nat, restart: Word -> bool)
    returns (found: bool, hashesDone: nat)
    requires pdata.Length >= 32 && PaddedHeader(pdata[..32]) && |target| == 8
    requires lanes > 0 && Max(pdata[19], maxNonce) + lanes <= TWO32
    modifies pdata
    ensures pdata[19] < Max(old(pdata[19]), maxNonce) + lanes
    ensures !found ==> hashesDone == pdata[19] as int - old(pdata[19]) as int + 1
    ensures !found ==> pdata[19] >= maxNonce || restart(pdata[19])
    ensures found ==> var last := pdata[19] as int - old(pdata[19]) as int; last < hashesDone <= last + lanes
    ensures Searched(old(pdata[..]), pdata[..], target, found)
  {
    hide NoneSolves, Solves, PaddedHeader;
    ghost var before := pdata[..];
    ghost var d0: seq<Word> := before[..32];
    var first := pdata[19];
    var n: int := first - 1;
    NoneSolvesEmpty(d0, first, target);
    while true
      invariant first - 1 <= n
      invariant n >= first ==> n < maxNonce
      invariant SameButNonce(before, pdata[..])
      invariant NoneSolves(d0, first, n + 1, target)
      decreases TWO32 - n
    {
      var group := n + 1;
      n := n + lanes;
      var i := 0;
      while i < lanes
        invariant 0 <= i <= lanes
        invariant SameButNonce(before, pdata[..])
        invariant NoneSolves(d0, first, group + i, target)
      {
        var nonce: Word := group + i;
        found := TestLane(pdata, nonce, target, before);
        if found {
          SearchedIntro(before, pdata[..], target, true);
          return true, n - first + 1;
        }
        NoneSolvesExtend(d0, first, nonce, target);
        i := i + 1;
      }
      if !(n < maxNonce && !restart(n)) { break; }
    }
    pdata[19] := n;
    NoneSolvesShrink(d0, first, n, target);
    SearchedIntro(before, pdata[..], target, false);
    return false, n - first + 1;
  }

  /** One lane of a group: filter, then the full hash and test. */
  method TestLane(pdata: array<Word>, n: Word, target: seq<Word>, ghost before: seq<Word>)
    returns (hit: bool)
    requires pdata.Length >= 32 && |target| == 8
    requires SameButNonce(before, pdata[..])
    modifies pdata
    ensures SameButNonce(before, pdata[..])
    ensures hit ==> pdata[19] == n
    ensures hit <==> Solves(before[..32], n, target)
  {
    hide DoubleHash, Value, Swab32, Num, Reversed;
    ghost var d0: seq<Word> := before[..32];
    var data: seq<Word> := pdata[..32];
    data := data[19 := n];
    assert data == d0[19 := n];
    NumOfReversed(DoubleHash(data)[7]);
    if Num(Reversed(DoubleHash(data)[7])) <= target[7] {
      pdata[19] := n;
      var full := HeaderHash(data);
      hit := FullTest(full, target);
    } else {
      FilterIsSound(d0, n, target);
      hit := false;
    }
  }
}
