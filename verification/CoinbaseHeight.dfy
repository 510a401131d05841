/**
  The block height in the coinbase: gbt_work_decode (cpu-miner.c) writes it as BIP 34 demands and
  may append signature and auxiliary data to the script; getblocheight (util.c) reads it back.
 */
module CoinbaseHeight {
  import opened Bytes

  const MAX_SCRIPT := 100

  function Repeat(x: Byte, n: nat): (s: seq<Byte>)
    ensures |s| == n && forall i :: 0 <= i < n ==> s[i] == x
  {
    seq(n, _ => x)
  }

  // ---- Writing

  /** Little-endian bytes of n without leading zeros. */
  function Minimal(n: nat): seq<Byte>
  {
    if n == 0 then [] else [n % 256] + Minimal(n / 256)
  }

  /** The script number: a zero byte is added when the top bit is set. */
  function HeightBytes(height: nat): seq<Byte>
    requires height > 0
  {
    var b := Minimal(height);
    if b != [] && b[|b| - 1] >= 0x80 then b + [0] else b
  }

  /** The loop that pushes the height. */
  method PushHeight(height: nat) returns (b: seq<Byte>)
    requires height > 0
    ensures b == HeightBytes(height)
  {
    b := [];
    var n := height;
    while n != 0
      invariant Minimal(height) == b + Minimal(n)
    {
      ghost var rest := Minimal(n / 256);
      assert Minimal(n) == [n % 256] + rest;
      hide Minimal;
      assert b + ([n % 256] + rest) == (b + [n % 256]) + rest;
      b := b + [n % 256];
      n := n / 256;
    }
    assert b == Minimal(height);
    if b[|b| - 1] >= 0x80 {
      b := b + [0];
    }
  }

  /** Input counter, previous output, script length and script, and what follows the script. */
  function Coinbase(script: seq<Byte>, tail: seq<Byte>): (c: seq<Byte>)
    requires |script| < 256
  {
    [1, 0, 0, 0, 1] + Repeat(0, 32) + Repeat(0xff, 4) + [|script|] + script + tail
  }

  /** Version 1, one input, the null output's hash and index, the script's length, the script and
      the rest. */
  lemma CoinbaseLayout(script: seq<Byte>, tail: seq<Byte>)
    requires |script| < 256
    ensures var c := Coinbase(script, tail);
            && |c| == 42 + |script| + |tail| && c[41] == |script|
            && c[..42 + |script|] + tail == c && c[42..42 + |script|] == script
            && c[..4] == [1, 0, 0, 0] && c[4] == 1 && (forall i :: 5 <= i < 37 ==> c[i] == 0)
            && (forall i :: 32 <= i < 37 ==> c[i] == 0) && (forall i :: 37 <= i < 41 ==> c[i] == 0xff)
  {
  }

  /** The extra data that fits: each piece is kept if script, kept pieces and it are at most 100. */
  function Kept(used: nat, pieces: seq<seq<Byte>>): (x: seq<Byte>)
    ensures used + |x| <= MAX_SCRIPT || x == []
  {
    if pieces == [] then []
    else
      var x := Kept(used, pieces[..|pieces| - 1]);
      var p := pieces[|pieces| - 1];
      if used + |x| + |p| <= MAX_SCRIPT then x + p else x
  }

  /** The push opcode in front of the extra data: a length byte, OP_PUSHDATA1 and a length byte,
      or nothing when there is no room. */
  function PushPrefix(used: nat, len: nat): (p: seq<Byte>)
    requires len <= MAX_SCRIPT
  {
    if used + len < 76 then [len] else if used + 2 + len > MAX_SCRIPT then [] else [0x4c, len]
  }

  function Extended(script: seq<Byte>, pieces: seq<seq<Byte>>): (s: seq<Byte>)
    requires |script| <= MAX_SCRIPT
    ensures script <= s && |s| <= MAX_SCRIPT
  {
    var x := Kept(|script|, pieces);
    if x == [] then script else script + PushPrefix(|script|, |x|) + x
  }

  /** The script of a coinbase for a height with the given signature and auxiliary pieces. */
  function Script(height: nat, pieces: seq<seq<Byte>>): seq<Byte>
    requires 0 < height < 0x8000_0000
  {
    HeightLength(height);
    var b := HeightBytes(height);
    Extended([|b|] + b, pieces)
  }

  lemma HeightLength(height: nat)
    requires 0 < height < 0x8000_0000
    ensures 1 <= |HeightBytes(height)| <= 4
  {
    MinimalBytes(height);
  }

  /** The bytes of heights below 2^31. */
  lemma MinimalBytes(n: nat)
    requires 0 < n < 0x8000_0000
    ensures Minimal(n) ==
      if n < 0x100 then [n]
      else if n < 0x1_0000 then [n % 256, n / 256]
      else if n < 0x100_0000 then [n % 256, (n / 256) % 256, n / 0x1_0000]
      else [n % 256, (n / 256) % 256, (n / 0x1_0000) % 256, n / 0x100_0000]
  {
    assert n / 256 / 256 == n / 0x1_0000 && n / 0x1_0000 / 256 == n / 0x100_0000;
    assert n / 0x100_0000 / 256 == 0;
    assert Minimal(0) == [];
    assert Minimal(n / 0x100_0000) == if n < 0x100_0000 then [] else [n / 0x100_0000];
    assert Minimal(n / 0x1_0000) ==
      if n < 0x1_0000 then [] else [(n / 0x1_0000) % 256] + Minimal(n / 0x100_0000);
    assert Minimal(n / 256) == if n < 0x100 then [] else [(n / 256) % 256] + Minimal(n / 0x1_0000);
  }

  /** The height as a script number: little-endian with the sign bit clear, and the last byte could
      not be left out. */
  lemma HeightIsMinimal(height: nat)
    requires 0 < height
    ensures var b := HeightBytes(height);
            && |b| >= 1 && LeValue(b) == height && b[|b| - 1] < 0x80
            && (b[|b| - 1] == 0 ==> |b| >= 2 && b[|b| - 2] >= 0x80)
  {
    MinimalValue(height);
    var m := Minimal(height);
    LeAppendZero(m);
  }

  lemma {:induction false} MinimalValue(n: nat)
    ensures LeValue(Minimal(n)) == n
    ensures n > 0 ==> |Minimal(n)| >= 1 && Minimal(n)[|Minimal(n)| - 1] > 0
  {
    if n > 0 {
      MinimalValue(n / 256);
      var m := Minimal(n);
      assert m[1..] == Minimal(n / 256);
    }
  }

  lemma {:induction false} LeAppendZero(x: seq<Byte>)
    ensures LeValue(x + [0]) == LeValue(x)
  {
    if x == [] {
      assert x + [0] == [0] && LeValue([0][1..]) == 0;
    } else {
      assert (x + [0])[1..] == x[1..] + [0];
      LeAppendZero(x[1..]);
    }
  }

  // ---- Which pieces are kept

  /** The pieces marked, joined. */
  function Marked(pieces: seq<seq<Byte>>, marks: seq<bool>): seq<Byte>
    requires |marks| == |pieces|
  {
    if pieces == [] then []
    else
      var n := |pieces| - 1;
      Marked(pieces[..n], marks[..n]) + if marks[n] then pieces[n] else []
  }

  /** A piece is taken exactly if the script with everything taken before it and this piece has at
      most 100 bytes. */
  ghost predicate FitMarks(used: nat, pieces: seq<seq<Byte>>, marks: seq<bool>)
  {
    && |marks| == |pieces|
    && forall i {:trigger marks[i]} :: 0 <= i < |pieces| ==>
         (marks[i] <==> used + |Marked(pieces[..i], marks[..i])| + |pieces[i]| <= 100)
  }

  /** The data kept are the pieces that fit, in order. */
  lemma {:induction false} KeptFits(used: nat, pieces: seq<seq<Byte>>) returns (marks: seq<bool>)
    ensures FitMarks(used, pieces, marks) && Kept(used, pieces) == Marked(pieces, marks)
  {
    if pieces == [] {
      marks := [];
    } else {
      var n := |pieces| - 1;
      var front := KeptFits(used, pieces[..n]);
      var fits := used + |Marked(pieces[..n], front)| + |pieces[n]| <= 100;
      marks := front + [fits];
      assert marks[..n] == front;
      forall i | 0 <= i < |pieces|
        ensures marks[i] <==> used + |Marked(pieces[..i], marks[..i])| + |pieces[i]| <= 100
      {
        if i < n {
          assert front[i] == marks[i] && marks[..i] == front[..i] && pieces[..n][..i] == pieces[..i];
        }
      }
    }
  }

  // ---- What the script pushes

  datatype Option<T> = None | Some(value: T)

  function Prepend(p: seq<Byte>, rest: Option<seq<seq<Byte>>>): Option<seq<seq<Byte>>>
  {
    if rest.None? then None else Some([p] + rest.value)
  }

  /** The data a script pushes, if it consists of pushes: opcodes 1 to 75 are followed by that many
      bytes, OP_PUSHDATA1 by a length byte and that many bytes. */
  function Pushes(s: seq<Byte>): (r: Option<seq<seq<Byte>>>)
    decreases |s|
  {
    if s == [] then Some([])
    else if 1 <= s[0] <= 75 && 1 + s[0] <= |s| then Prepend(s[1..1 + s[0]], Pushes(s[1 + s[0]..]))
    else if s[0] == 0x4c && 2 <= |s| && 2 + s[1] <= |s| then Prepend(s[2..2 + s[1]], Pushes(s[2 + s[1]..]))
    else None
  }

  lemma PushShort(p: seq<Byte>, rest: seq<Byte>)
    requires 1 <= |p| <= 75
    ensures Pushes([|p|] + p + rest) == Prepend(p, Pushes(rest))
  {
    var s := [|p|] + p + rest;
    assert s[1..1 + |p|] == p && s[1 + |p|..] == rest;
  }

  lemma PushLong(p: seq<Byte>, rest: seq<Byte>)
    requires |p| < 256
    ensures Pushes([0x4c, |p|] + p + rest) == Prepend(p, Pushes(rest))
  {
    var s := [0x4c, |p|] + p + rest;
    assert s[2..2 + |p|] == p && s[2 + |p|..] == rest;
  }

  function Total(ps: seq<seq<Byte>>): nat
  {
    if ps == [] then 0 else 1 + |ps[0]| + Total(ps[1..])
  }

  /** Every push takes at least a byte more than its data. */
  lemma {:induction false} PushesTakeRoom(s: seq<Byte>)
    ensures Pushes(s).Some? ==> Total(Pushes(s).value) <= |s|
    decreases |s|
  {
    if Pushes(s).Some? && s != [] {
      var n: int := if s[0] == 0x4c then 2 + s[1] as int else 1 + s[0] as int;
      PushesTakeRoom(s[n..]);
      assert Pushes(s).value[1..] == Pushes(s[n..]).value;
    }
  }

  /** The script pushes the height and then the extra data exactly if there are any and the room
      left is enough for their opcode. */
  lemma ScriptPushes(height: nat, pieces: seq<seq<Byte>>)
    requires 0 < height < 0x8000_0000
    ensures var b := HeightBytes(height);
            var used, x := 1 + |b|, Kept(1 + |b|, pieces);
            && (Pushes(Script(height, pieces)) == Some([b, x]) <==> x != [] && (used + |x| < 76 || used + 2 + |x| <= 100))
            && (x == [] ==> Pushes(Script(height, pieces)) == Some([b]))
  {
    hide HeightBytes, Kept;
    HeightLength(height);
    var b := HeightBytes(height);
    var head := [|b|] + b;
    var used, x := |head|, Kept(|head|, pieces);
    var s := Script(height, pieces);
    assert Pushes([]) == Some([]);
    if x == [] {
      assert s == head + [];
      PushShort(b, []);
      assert Pushes(s).value == [b];
    } else if used + |x| < 76 {
      assert s == [|b|] + b + ([|x|] + x + []);
      PushShort(b, [|x|] + x + []);
      PushShort(x, []);
      assert Pushes(s).value == [b, x];
    } else if used + 2 + |x| <= 100 {
      assert s == [|b|] + b + ([0x4c, |x|] + x + []);
      PushShort(b, [0x4c, |x|] + x + []);
      PushLong(x, []);
      assert Pushes(s).value == [b, x];
    } else {
      assert s == head + x;
      PushesTakeRoom(s);
      assert Total([b, x]) == 1 + |b| + Total([x]) && Total([x]) == 1 + |x| + Total([]) by {
        assert [b, x][1..] == [x] && [x][1..] == [];
      }
    }
  }

  /** Collecting the signature and the auxiliary data that fit. */
  method Collect(used: nat, pieces: seq<seq<Byte>>) returns (xsig: seq<Byte>)
    ensures xsig == Kept(used, pieces)
  {
    xsig := [];
    var i := 0;
    while i < |pieces|
      invariant 0 <= i <= |pieces| && xsig == Kept(used, pieces[..i])
    {
      assert pieces[..i + 1][..i] == pieces[..i];
      if used + |xsig| + |pieces[i]| <= MAX_SCRIPT {
        xsig := xsig + pieces[i];
      }
      i := i + 1;
    }
    assert pieces[..i] == pieces;
  }

  /** Inserting at the end of the script gives the coinbase of the longer script. */
  lemma Insertion(script: seq<Byte>, insert: seq<Byte>, tail: seq<Byte>)
    requires |script| + |insert| < 256
    ensures var c, end := Coinbase(script, tail), 42 + |script|;
            |c| == end + |tail| &&
            c[..41] + [|script| + |insert|] + c[42..end] + insert + c[end..] == Coinbase(script + insert, tail)
  {
  }

  /** The coinbase construction: script and tail, then the insertion at the end of the script. */
  method Build(height: nat, pieces: seq<seq<Byte>>, tail: seq<Byte>) returns (cbtx: seq<Byte>)
    requires 0 < height < 0x8000_0000
    ensures cbtx == Coinbase(Script(height, pieces), tail)
    ensures |cbtx| > 41 && cbtx[41] <= MAX_SCRIPT
  {
    hide HeightBytes, Kept, PushPrefix, Coinbase;
    HeightLength(height);
    var b := PushHeight(height);
    var script := [|b|] + b;
    CoinbaseLayout(script, tail);
    cbtx := Coinbase(script, tail);
    var used := cbtx[41];
    var xsig := Collect(used, pieces);
    if |xsig| > 0 {
      var end := 42 + used;
      var insert := PushPrefix(used, |xsig|) + xsig;
      assert script + insert == Script(height, pieces);
      Insertion(script, insert, tail);
      cbtx := cbtx[..41] + [used + |insert|] + cbtx[42..end] + insert + cbtx[end..];
    }
    CoinbaseLayout(Script(height, pieces), tail);
  }

  // ---- Reading

  const SCAN_FROM := 32
  const SCAN_TO := 160

  /** From p on, the first position before SCAN_TO whose byte is (or is not) 0xff, or SCAN_TO. */
  ghost predicate FirstPosition(mem: nat -> Byte, p: nat, tag: bool, q: nat)
  {
    && p <= q <= SCAN_TO
    && (forall i :: p <= i < q ==> (mem(i) == 0xff) != tag)
    && (q < SCAN_TO ==> (mem(q) == 0xff) == tag)
  }

  function Le16(mem: nat -> Byte, p: nat): nat
  {
    mem(p) + 256 * mem(p + 1)
  }

  /** The number behind the length byte at p: two bytes at least, three or four if it says so. */
  function HeightAt(mem: nat -> Byte, p: nat): nat
  {
    Le16(mem, p + 1) + (match mem(p)
                        case 4 => 0x1_0000 * Le16(mem, p + 3)
                        case 3 => 0x1_0000 * mem(p + 3)
                        case _ => 0)
  }

  /** getblocheight on the memory in which the coinbase lies at address 0. */
  method GetBlockHeight(mem: nat -> Byte) returns (height: nat)
    ensures exists tag: nat, end: nat ::
              && FirstPosition(mem, SCAN_FROM, true, tag)
              && FirstPosition(mem, tag, false, end)
              && height == if mem(end - 1) == 0xff && mem(end - 2) == 0xff then HeightAt(mem, end + 1) else 0
  {
    height := 0;
    var p := SCAN_FROM;
    while mem(p) != 0xff && p < SCAN_TO
      invariant SCAN_FROM <= p <= SCAN_TO
      invariant forall i :: SCAN_FROM <= i < p ==> mem(i) != 0xff
      decreases SCAN_TO - p
    {
      p := p + 1;
    }
    ghost var tag := p;
    while mem(p) == 0xff && p < SCAN_TO
      invariant tag <= p <= SCAN_TO
      invariant forall i :: tag <= i < p ==> mem(i) == 0xff
      decreases SCAN_TO - p
    {
      p := p + 1;
    }
    ghost var end := p;
    assert FirstPosition(mem, SCAN_FROM, true, tag) && FirstPosition(mem, tag, false, end);
    if mem(p - 1) == 0xff && mem(p - 2) == 0xff {
      p := p + 1;
      var hlen := mem(p);
      p := p + 1;
      height := Le16(mem, p);
      p := p + 2;
      if hlen == 4 {
        height := height + 0x1_0000 * Le16(mem, p);
      } else if hlen == 3 {
        height := height + 0x1_0000 * mem(p);
      }
    }
  }

  /** The memory starts with c; nothing is known of what lies behind it. */
  ghost predicate Starts(mem: nat -> Byte, c: seq<Byte>)
  {
    forall i :: 0 <= i < |c| ==> mem(i) == c[i]
  }

  /** In a coinbase the tag is the previous output's index, so the scan ends at the script length. */
  lemma TagFound(mem: nat -> Byte, script: seq<Byte>, tail: seq<Byte>, tag: nat, end: nat)
    requires |script| < 255 && Starts(mem, Coinbase(script, tail))
    requires FirstPosition(mem, SCAN_FROM, true, tag) && FirstPosition(mem, tag, false, end)
    ensures tag == 37 && end == 41
    ensures forall i :: 0 <= i < |script| ==> mem(42 + i) == script[i]
  {
    var c := Coinbase(script, tail);
    CoinbaseLayout(script, tail);
    assert forall i :: 32 <= i < 37 ==> mem(i) == 0;
    assert forall i :: 37 <= i < 41 ==> mem(i) == 0xff;
    assert mem(37) == 0xff && mem(41) == c[41] != 0xff;
    assert tag == 37 && end == 41;
    forall i | 0 <= i < |script| ensures mem(42 + i) == script[i] {
      assert c[42..42 + |script|][i] == c[42 + i];
    }
  }

  /** The bytes pushed start the script, whatever is appended. */
  lemma ScriptStarts(height: nat, pieces: seq<seq<Byte>>)
    requires 0 < height < 0x8000_0000
    ensures var b, s := HeightBytes(height), Script(height, pieces);
            |b| < |s| <= MAX_SCRIPT && s[0] == |b| && forall i :: 0 <= i < |b| ==> s[1 + i] == b[i]
  {
  }

  lemma Digits(n: nat)
    ensures n == n % 256 + 256 * (n / 256)
    ensures n / 256 == n / 256 % 256 + 256 * (n / 0x1_0000)
    ensures n / 0x1_0000 == n / 0x1_0000 % 256 + 256 * (n / 0x100_0000)
  {
  }

  /** What is read at the script of a coinbase for the height: a single byte is taken together with
      the byte behind it. */
  lemma HeightRead(mem: nat -> Byte, height: nat)
    requires 0 < height < 0x8000_0000
    requires var b := HeightBytes(height);
             mem(42) == |b| && forall i :: 0 <= i < |b| ==> mem(43 + i) == b[i]
    ensures HeightAt(mem, 42) == if height < 0x80 then height + 256 * mem(44) else height
  {
    MinimalBytes(height);
    hide Minimal;
    var b := HeightBytes(height);
    Digits(height);
    assert |b| >= 1 && mem(43) == b[0] && b[0] == height % 256;
    if |b| >= 2 { assert mem(44) == b[1]; }
    if |b| >= 3 { assert mem(45) == b[2]; }
    if |b| >= 4 { assert mem(46) == b[3]; }
  }

  /** The height read from a coinbase built here is the height it was built for exactly when that
      is at least 0x80 or the byte behind its single byte happens to be zero. */
  method ReadBuilt(mem: nat -> Byte, height: nat, pieces: seq<seq<Byte>>, tail: seq<Byte>)
    returns (found: nat)
    requires 0 < height < 0x8000_0000
    requires Starts(mem, Coinbase(Script(height, pieces), tail))
    ensures found == height <==> height >= 0x80 || mem(44) == 0
    ensures height < 0x80 ==> found == height + 256 * mem(44)
  {
    hide HeightAt, HeightBytes, Script, Coinbase;
    found := GetBlockHeight(mem);
    ScriptStarts(height, pieces);
    ghost var script := Script(height, pieces);
    ghost var b := HeightBytes(height);
    ghost var tag: nat, end: nat :| FirstPosition(mem, SCAN_FROM, true, tag) && FirstPosition(mem, tag, false, end)
      && found == if mem(end - 1) == 0xff && mem(end - 2) == 0xff then HeightAt(mem, end + 1) else 0;
    TagFound(mem, script, tail, tag, end);
    assert mem(39) == 0xff && mem(40) == 0xff;
    assert mem(42 + 0) == |b|;
    forall i | 0 <= i < |b| ensures mem(43 + i) == b[i] {
      assert mem(42 + (1 + i)) == script[1 + i];
    }
    HeightRead(mem, height);
  }

  /** For one-byte heights without extra data that byte is the 0xff the sequence number starts
      with: block 5 is read as block 0xff05. */
  lemma SmallHeightsMisread(mem: nat -> Byte, tail: seq<Byte>, height: nat)
    requires 0 < height < 0x80
    requires |tail| >= 4 && tail[0] == 0xff && Starts(mem, Coinbase(Script(height, []), tail))
    ensures mem(44) == 0xff && HeightAt(mem, 42) == height + 0xff00
  {
    MinimalBytes(height);
    var script := Script(height, []);
    assert script == [1, height];
    CoinbaseLayout(script, tail);
    var c := Coinbase(script, tail);
    assert c[42..44][0] == 1 && c[42..44][1] == height;
    assert (c[..44] + tail)[44] == 0xff;
  }
}
