/**
  The buffering of crypto/blake2s.c: which blocks, byte counters and final flags the compression
  function is given.  The reference is section 3.3 of RFC 7693.
 */
module Blake2s {
  import opened Words
  import opened Bytes

  const BLOCK := 64

  /** One call of the compression function: block, the two counter words, final-block flag. */
  datatype Call = Call(block: seq<Byte>, lo: Word, hi: Word, last: bool)

  // ---- RFC 7693, section 3.3

  /** A 64-bit byte count as two words. */
  function Counted(block: seq<Byte>, bytes: nat, last: bool): Call
  {
    Call(block, bytes % TWO32, (bytes / TWO32) % TWO32, last)
  }

  /** The calls for the first c full blocks: none of them final. */
  function FullBlocks(m: seq<Byte>, c: nat): (r: seq<Call>)
    requires BLOCK * c <= |m|
    ensures |r| == c
  {
    if c == 0 then []
    else FullBlocks(m, c - 1) + [Counted(m[BLOCK * (c - 1)..BLOCK * c], BLOCK * c, false)]
  }

  /** Number of blocks before the last one; the last one is empty only for the empty message. */
  function LastStart(n: nat): (c: nat)
    ensures BLOCK * c <= n
  {
    if n == 0 then 0 else (n - 1) / BLOCK
  }

  /** All calls for a message: the last block zero-padded, counted up to the message's length. */
  function Calls(m: seq<Byte>): seq<Call>
  {
    var c := LastStart(|m|);
    var rest := m[BLOCK * c..];
    FullBlocks(m, c) + [Counted(rest + Zeros(BLOCK - |rest|), |m|, true)]
  }

  lemma {:induction false} FullBlocksPrefix(m: seq<Byte>, m': seq<Byte>, c: nat)
    requires BLOCK * c <= |m| && m <= m'
    ensures FullBlocks(m, c) == FullBlocks(m', c)
  {
    if c > 0 {
      FullBlocksPrefix(m, m', c - 1);
      assert m[BLOCK * (c - 1)..BLOCK * c] == m'[BLOCK * (c - 1)..BLOCK * c];
    }
  }

  /** The byte count a call carries. */
  function Counter(c: Call): nat
  {
    c.lo + TWO32 * c.hi
  }

  lemma CountedCounter(block: seq<Byte>, bytes: nat, last: bool)
    ensures Counter(Counted(block, bytes, last)) == bytes % 0x1_0000_0000_0000_0000
  {
    var q := bytes / TWO32;
    var h, l := q / TWO32, q % TWO32;
    var r := bytes % TWO32;
    assert bytes == TWO32 * q + r && q == TWO32 * h + l;
    assert bytes == h * 0x1_0000_0000_0000_0000 + (r + TWO32 * l);
  }

  lemma {:induction false} FullBlockAt(m: seq<Byte>, c: nat, i: nat)
    requires i < c && BLOCK * c <= |m|
    ensures FullBlocks(m, c)[i] == Counted(m[BLOCK * i..BLOCK * i + BLOCK], BLOCK * (i + 1), false)
  {
    if i < c - 1 {
      FullBlockAt(m, c - 1, i);
    }
  }

  /** The calls for a message, one by one: as many as blocks are needed, at least one; each has the
      next 64 bytes and the number of bytes so far modulo 2^64; only the last one is flagged final,
      counts the whole message and is filled up with zeros. */
  lemma CallsLayout(m: seq<Byte>, i: nat)
    requires i < |Calls(m)|
    ensures var n, call := |Calls(m)|, Calls(m)[i];
            && (if |m| == 0 then n == 1 else 64 * (n - 1) < |m| <= 64 * n)
            && call.last == (i == n - 1) && |call.block| == 64
            && Counter(call) == (if i == n - 1 then |m| else 64 * (i + 1)) % 0x1_0000_0000_0000_0000
            && forall k :: 0 <= k < 64 ==> call.block[k] == if 64 * i + k < |m| then m[64 * i + k] else 0
  {
    hide Counter, Counted, FullBlocks;
    var c := LastStart(|m|);
    var rest := m[BLOCK * c..];
    var last := rest + Zeros(BLOCK - |rest|);
    CountedIs(last, |m|, true);
    CountedCounter(last, |m|, true);
    if i < c {
      FullBlockAt(m, c, i);
      CountedIs(m[BLOCK * i..BLOCK * i + BLOCK], BLOCK * (i + 1), false);
      CountedCounter(m[BLOCK * i..BLOCK * i + BLOCK], BLOCK * (i + 1), false);
    }
  }

  lemma CountedIs(block: seq<Byte>, bytes: nat, last: bool)
    ensures Counted(block, bytes, last).block == block && Counted(block, bytes, last).last == last
  {
  }

  // ---- The counter

  function Lo(x: nat): Word { x % TWO32 }
  function Hi(x: nat): Word { (x / TWO32) % TWO32 }

  /** blake2s_increment_counter carries exactly when the low word wraps. */
  lemma CounterStep(x: nat, inc: Word)
    ensures Lo(x + inc) == Add(Lo(x), inc)
    ensures Hi(x + inc) == Add(Hi(x), if Add(Lo(x), inc) < inc then 1 else 0)
  {
    var q := x / TWO32;
    assert x == TWO32 * q + Lo(x);
    if Lo(x) + inc < TWO32 {
      assert (x + inc) / TWO32 == q;
    } else {
      assert (x + inc) / TWO32 == q + 1;
      assert (q + 1) % TWO32 == (q % TWO32 + 1) % TWO32;
    }
  }

  /** blake2s_state; log records the compressions made, which determine the chaining value. */
  class State {
    var t0: Word
    var t1: Word
    var final: bool
    var buf: array<Byte>
    var buflen: nat
    var log: seq<Call>

    /** The state has absorbed m and nothing else: it has compressed |log| full blocks and holds
        the rest, at least one byte beyond a block once anything was compressed (unless more input
        is at hand). */
    ghost predicate Holds(m: seq<Byte>, more: bool)
      reads this, buf
    {
      && buf.Length == 2 * BLOCK && buflen <= 2 * BLOCK && !final
      && BLOCK * |log| + buflen == |m|
      && log == FullBlocks(m, |log|)
      && buf[..buflen] == m[BLOCK * |log|..]
      && t0 == Lo(BLOCK * |log|) && t1 == Hi(BLOCK * |log|)
      && (|log| > 0 ==> buflen > BLOCK || (more && buflen == BLOCK))
    }

    /** blake2s_init */
    constructor ()
      ensures Holds([], false) && fresh(buf)
    {
      t0, t1, final, buflen, log := 0, 0, false, 0, [];
      buf := new Byte[2 * BLOCK](_ => 0);
    }

    /** blake2s_increment_counter */
    method IncrementCounter(inc: Word, ghost x: nat)
      requires t0 == Lo(x) && t1 == Hi(x)
      modifies this`t0, this`t1
      ensures t0 == Lo(x + inc) && t1 == Hi(x + inc)
    {
      CounterStep(x, inc);
      t0 := Add(t0, inc);
      t1 := Add(t1, if t0 < inc then 1 else 0);
    }

    /** memcpy into the buffer behind what it holds. */
    method Append(input: seq<Byte>)
      requires buf.Length == 2 * BLOCK && buflen + |input| <= 2 * BLOCK
      modifies buf, this`buflen
      ensures buflen == old(buflen) + |input|
      ensures buf[..buflen] == old(buf[..buflen]) + input
    {
      var i := 0;
      ghost var before := buf[..buflen];
      while i < |input|
        invariant 0 <= i <= |input|
        invariant buf[..buflen + i] == before + input[..i]
        modifies buf
      {
        buf[buflen + i] := input[i];
        i := i + 1;
      }
      buflen := buflen + |input|;
    }

    /** Compresses the first block of the buffer and shifts the rest down. */
    method CompressFirst(ghost m: seq<Byte>)
      requires buf.Length == 2 * BLOCK && BLOCK <= buflen <= 2 * BLOCK
      requires BLOCK * |log| + buflen == |m| && log == FullBlocks(m, |log|) && !final
      requires buf[..buflen] == m[BLOCK * |log|..]
      requires t0 == Lo(BLOCK * |log|) && t1 == Hi(BLOCK * |log|)
      modifies this`t0, this`t1, this`log, this`buflen, buf
      ensures |log| == old(|log|) + 1 && buflen == old(buflen) - BLOCK && log == FullBlocks(m, |log|)
      ensures buf[..buflen] == m[BLOCK * |log|..]
      ensures t0 == Lo(BLOCK * |log|) && t1 == Hi(BLOCK * |log|)
    {
      ghost var c, rest := |log|, buf[..buflen];
      IncrementCounter(BLOCK, BLOCK * c);
      assert buf[..BLOCK] == rest[..BLOCK] == m[BLOCK * c..BLOCK * (c + 1)];
      log := log + [Call(buf[..BLOCK], t0, t1, final)];
      var i := 0;
      while i < buflen - BLOCK
        invariant 0 <= i <= buflen - BLOCK
        invariant forall k :: 0 <= k < i ==> buf[k] == rest[BLOCK + k]
        invariant forall k :: i <= k < buflen ==> buf[k] == rest[k]
        modifies buf
      {
        buf[i] := buf[BLOCK + i];
        i := i + 1;
      }
      buflen := buflen - BLOCK;
      assert buf[..buflen] == rest[BLOCK..] == m[BLOCK * (c + 1)..];
    }

    /** The branch that fills the buffer: more input is known to follow. */
    method FillAndCompress(chunk: seq<Byte>, ghost m: seq<Byte>)
      requires Holds(m, true) && |chunk| == 2 * BLOCK - buflen
      modifies this`t0, this`t1, this`log, this`buflen, buf
      ensures Holds(m + chunk, true) && buflen == BLOCK
    {
      ghost var now := m + chunk;
      Append(chunk);
      assert buf[..buflen] == now[BLOCK * |log|..];
      FullBlocksPrefix(m, now, |log|);
      CompressFirst(now);
    }

    /** The lazy branch: the rest of the input fits and nothing is compressed. */
    method Keep(chunk: seq<Byte>, ghost m: seq<Byte>)
      requires Holds(m, true) && 0 < |chunk| <= 2 * BLOCK - buflen
      modifies this`buflen, buf
      ensures Holds(m + chunk, false)
    {
      ghost var now := m + chunk;
      Append(chunk);
      assert buf[..buflen] == now[BLOCK * |log|..];
      FullBlocksPrefix(m, now, |log|);
    }

    /** blake2s_update: however the input is cut up, the state depends only on what was absorbed. */
    method Update(input: seq<Byte>, ghost m: seq<Byte>)
      requires Holds(m, false)
      modifies this`t0, this`t1, this`log, this`buflen, buf
      ensures Holds(m + input, false)
    {
      hide FullBlocks, Lo, Hi;
      assert m + input[..0] == m;
      var done := 0;
      while done < |input|
        invariant 0 <= done <= |input|
        invariant Holds(m + input[..done], done < |input|)
        decreases |input| - done, buflen
      {
        var fill := 2 * BLOCK - buflen;
        if |input| - done > fill {
          var chunk := input[done..done + fill];
          assert m + input[..done] + chunk == m + input[..done + fill];
          FillAndCompress(chunk, m + input[..done]);
          done := done + fill;
        } else {
          var chunk := input[done..];
          assert m + input[..done] + chunk == m + input[..|input|];
          Keep(chunk, m + input[..done]);
          done := |input|;
        }
      }
      assert m + input[..done] == m + input;
    }

    /** blake2s_final up to the last compression: the calls made are those of RFC 7693. */
    method Final(ghost m: seq<Byte>)
      requires Holds(m, false)
      modifies this, buf
      ensures log == Calls(m)
    {
      if buflen > BLOCK {
        CompressFirst(m);
      }
      ghost var c := |log|;
      assert c == LastStart(|m|);
      IncrementCounter(buflen, BLOCK * c);
      final := true;
      ghost var rest := buf[..buflen];
      var i := buflen;
      while i < 2 * BLOCK
        invariant buflen <= i <= 2 * BLOCK
        invariant buf[..buflen] == rest
        invariant forall k :: buflen <= k < i ==> buf[k] == 0
        modifies buf
      {
        buf[i] := 0;
        i := i + 1;
      }
      assert buf[..BLOCK] == rest + Zeros(BLOCK - |rest|);
      log := log + [Call(buf[..BLOCK], t0, t1, final)];
    }
  }

  /** Feeding a list of pieces one after the other, then finishing. */
  method HashPieces(pieces: seq<seq<Byte>>) returns (log: seq<Call>)
    ensures log == Calls(Concat(pieces))
  {
    var s := new State();
    var i := 0;
    assert pieces[..0] == [];
    while i < |pieces|
      invariant 0 <= i <= |pieces| && fresh(s) && fresh(s.buf)
      invariant s.Holds(Concat(pieces[..i]), false)
    {
      s.Update(pieces[i], Concat(pieces[..i]));
      assert pieces[..i + 1][..i] == pieces[..i];
      i := i + 1;
    }
    assert pieces[..i] == pieces;
    s.Final(Concat(pieces));
    log := s.log;
  }

  lemma ConcatTwo(x: seq<Byte>, y: seq<Byte>)
    ensures Concat([x, y]) == x + y
  {
    var one: seq<seq<Byte>> := [x];
    assert [x, y][..1] == one && one[..0] == [];
    assert Concat(one) == [] + x == x;
  }

  /** blake2s_init_key feeds the key, zero-padded to a block, before the message. */
  method HashKeyed(key: seq<Byte>, input: seq<Byte>) returns (log: seq<Call>)
    requires 0 < |key| <= 32
    ensures log == Calls(key + Zeros(BLOCK - |key|) + input)
  {
    var block := key + Zeros(BLOCK - |key|);
    log := HashPieces([block, input]);
    ConcatTwo(block, input);
  }
}
