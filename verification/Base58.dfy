/** Base58 address decoding of util.c: b58dec and the checks of b58check. */
module Base58 {
  import opened Words
  import opened Bytes
  import opened Limbs
  import opened BitOps

  // ---- Digits

  const ALPHABET: string :=
    "1" + "23456789" + "ABCDEFGH" + "JKLMN" + "PQRSTUVWXYZ" + "abcdefghijk" + "mnopqrstuvwxyz"

  /** The value of a character read off its code: the digits but '0', the capitals but 'I' and
      'O', the small letters but 'l'. */
  function CodeValue(c: char): (i: int)
    ensures -1 <= i < 58
  {
    var x := c as int;
    if '1' <= c <= '9' then x - 49
    else if 'A' <= c <= 'H' then x - 56
    else if 'J' <= c <= 'N' then x - 57
    else if 'P' <= c <= 'Z' then x - 58
    else if 'a' <= c <= 'k' then x - 64
    else if 'm' <= c <= 'z' then x - 65
    else -1
  }

  /** n characters from c on. */
  function Run(c: char, n: nat): (s: string)
    requires c as int + n < 128
  {
    seq(n, i requires 0 <= i < n => (c as int + i) as char)
  }

  function Runs(): (s: string)
    ensures |s| == 58
  {
    Run('1', 9) + Run('A', 8) + Run('J', 5) + Run('P', 11) + Run('a', 11) + Run('m', 14)
  }

  lemma AlphabetIsRuns()
    ensures ALPHABET == Runs()
  {
    assert Run('1', 9) == "1" + "23456789" && Run('A', 8) == "ABCDEFGH" && Run('J', 5) == "JKLMN";
    assert Run('P', 11) == "PQRSTUVWXYZ" && Run('a', 11) == "abcdefghijk" && Run('m', 14) == "mnopqrstuvwxyz";
  }

  lemma RunsAt(c: char, i: nat)
    requires i < 58
    ensures CodeValue(Runs()[i]) == i && (CodeValue(c) >= 0 ==> Runs()[CodeValue(c)] == c)
  {
  }

  lemma AlphabetAt(c: char, i: nat)
    requires i < |ALPHABET|
    ensures |ALPHABET| == 58 && CodeValue(ALPHABET[i]) == i
    ensures CodeValue(c) >= 0 ==> ALPHABET[CodeValue(c)] == c
  {
    AlphabetIsRuns();
    hide CodeValue, Runs;
    RunsAt(c, i);
  }

  lemma IndexIsCodeValue(c: char)
    ensures Index(c) == CodeValue(c)
  {
    hide CodeValue, IndexFrom;
    var i := IndexFrom(c, 0);
    AlphabetAt(c, if i < 0 then 0 else i);
  }

  /** '1' is the digit zero, and the only one. */
  lemma OneIsZero(c: char)
    ensures Index(c) == 0 <==> c == '1'
  {
  }

  /** Position of a character in the alphabet from position k on, or -1. */
  function IndexFrom(c: char, k: nat): (i: int)
    requires k <= |ALPHABET|
    ensures -1 <= i < |ALPHABET| && (i >= 0 ==> ALPHABET[i] == c)
    ensures i < 0 ==> forall j :: k <= j < |ALPHABET| ==> ALPHABET[j] != c
    decreases |ALPHABET| - k
  {
    if k == |ALPHABET| then -1 else if ALPHABET[k] == c then k else IndexFrom(c, k + 1)
  }

  /** Position of a character in the alphabet, or -1. */
  function Index(c: char): (i: int)
    ensures -1 <= i < 58
  {
    IndexFrom(c, 0)
  }

  predicate AllDigits(s: string)
  {
    forall i :: 0 <= i < |s| ==> Index(s[i]) >= 0
  }

  /** The number a base-58 string denotes. */
  function Number(s: string): nat
    requires AllDigits(s)
  {
    if s == "" then 0 else 58 * Number(s[..|s| - 1]) + Index(s[|s| - 1])
  }

  lemma {:induction false} NumberGrows(s: string, n: nat)
    requires AllDigits(s) && n <= |s|
    ensures Number(s[..n]) <= Number(s)
    decreases |s| - n
  {
    if n < |s| {
      NumberGrows(s, n + 1);
      assert s[..n + 1][..n] == s[..n];
    } else {
      assert s[..n] == s;
    }
  }

  /** The digit lookup loop. */
  method FindDigit(c: char) returns (d: int)
    ensures d == Index(c)
  {
    var k := 0;
    while ALPHABET[k] != c
      invariant 0 <= k < |ALPHABET| && Index(c) == IndexFrom(c, k)
      decreases |ALPHABET| - k
    {
      k := k + 1;
      if k == |ALPHABET| {
        return -1;
      }
    }
    return k;
  }

  // ---- Big-endian limbs and bytes

  function BeLimbs(x: seq<Word>): nat
  {
    if x == [] then 0 else BeLimbs(x[..|x| - 1]) * TWO32 + x[|x| - 1]
  }

  function BeBytes(b: seq<Byte>): nat
  {
    if b == [] then 0 else BeBytes(b[..|b| - 1]) * 256 + b[|b| - 1]
  }

  lemma {:induction false} BeBytesInjective(x: seq<Byte>, y: seq<Byte>)
    requires |x| == |y| && BeBytes(x) == BeBytes(y)
    ensures x == y
  {
    if x != [] {
      var n := |x| - 1;
      assert x[n] == y[n] && BeBytes(x[..n]) == BeBytes(y[..n]);
      BeBytesInjective(x[..n], y[..n]);
      assert x == x[..n] + [x[n]] && y == y[..n] + [y[n]];
    }
  }

  lemma {:induction false} BeLimbsBound(x: seq<Word>)
    ensures BeLimbs(x) < Modulus(|x|)
  {
    if x != [] {
      BeLimbsBound(x[..|x| - 1]);
    }
  }

  /** The top limb decides whether the number stays below p times the weight of that limb. */
  lemma {:induction false} TopLimb(x: seq<Word>, p: nat)
    requires |x| > 0
    ensures x[0] < p <==> BeLimbs(x) < p * Modulus(|x| - 1)
  {
    if |x| == 1 {
      assert x[..0] == [];
    } else {
      var y := x[..|x| - 1];
      TopLimb(y, p);
      var m := p * Modulus(|x| - 2);
      assert p * Modulus(|x| - 1) == m * TWO32;
    }
  }

  // ---- Multiply by 58 and add

  /** The inner loop's result on limbs x with carry c: new limbs and carry out. */
  function MulAdd(x: seq<Word>, c: nat): (r: (seq<Word>, nat))
    requires c < 58
    ensures |r.0| == |x| && r.1 < 58
  {
    if x == [] then ([], c)
    else
      var n := |x| - 1;
      var t := x[n] * 58 + c;
      var (rest, out) := MulAdd(x[..n], t / TWO32);
      (rest + [t % TWO32], out)
  }

  lemma {:induction false} MulAddValue(x: seq<Word>, c: nat)
    requires c < 58
    ensures BeLimbs(MulAdd(x, c).0) + MulAdd(x, c).1 * Modulus(|x|) == 58 * BeLimbs(x) + c
  {
    if x != [] {
      var n := |x| - 1;
      var t := x[n] * 58 + c;
      MulAddValue(x[..n], t / TWO32);
      var (rest, out) := MulAdd(x[..n], t / TWO32);
      assert MulAdd(x, c).0[..n] == rest;
      hide MulAdd;
      MulAddStep(BeLimbs(rest), out, Modulus(n), BeLimbs(x[..n]), t / TWO32, t % TWO32, x[n], c);
    }
  }

  lemma MulAddStep(w: nat, out: nat, m: nat, v: nat, h: nat, l: nat, last: nat, c: nat)
    requires w + out * m == 58 * v + h && h * TWO32 + l == last * 58 + c
    ensures (w * TWO32 + l) + out * (TWO32 * m) == 58 * (v * TWO32 + last) + c
  {
  }

  lemma MulAddLast(x: seq<Word>, c: nat)
    requires c < 58 && x != []
    ensures var n := |x| - 1;
            var t := x[n] * 58 + c;
            var r := MulAdd(x[..n], t / TWO32);
            MulAdd(x, c) == (r.0 + [t % TWO32], r.1)
  {
  }

  method MulAddInPlace(outi: array<Word>, digit: nat) returns (c: nat)
    requires digit < 58
    modifies outi
    ensures (outi[..], c) == MulAdd(old(outi[..]), digit)
  {
    hide MulAdd;
    ghost var x := outi[..];
    c := digit;
    var j := outi.Length;
    ghost var done: seq<Word> := [];
    ghost var all := MulAdd(x, digit);
    assert x[..j] == x && all.0 + done == all.0;
    while j > 0
      invariant 0 <= j <= outi.Length && c < 58
      invariant outi[..j] == x[..j] && outi[j..] == done
      invariant all.0 == MulAdd(x[..j], c).0 + done && all.1 == MulAdd(x[..j], c).1
    {
      j := j - 1;
      ghost var y := x[..j + 1];
      assert outi[j] == outi[..j + 1][j] == y[j] && outi[..j] == outi[..j + 1][..j];
      assert y[..j] == x[..j];
      MulAddLast(y, c);
      var t := outi[j] * 58 + c;
      c := t / TWO32;
      ghost var r := MulAdd(x[..j], c).0;
      assert (r + [t % TWO32]) + done == r + ([t % TWO32] + done);
      outi[j] := t % TWO32;
      done := [t % TWO32] + done;
    }
    assert x[..0] == [] && outi[0..] == outi[..];
    MulAddEmpty(c);
    assert [] + done == done;
  }

  lemma MulAddEmpty(c: nat)
    requires c < 58
    ensures MulAdd([], c) == ([], c)
  {
  }

  // ---- b58dec

  /** What b58dec accepts: with rem = binsz % 4 spare bytes in the top limb, 256^rem times the
      weight of that limb. */
  function Limit(binsz: nat): nat
    requires binsz > 0
  {
    Pow256(binsz % 4) * Modulus((binsz + 3) / 4 - 1)
  }

  lemma {:induction false} Pow256OfLimbs(r: nat, n: nat)
    ensures Pow256(r + 4 * n) == Pow256(r) * Modulus(n)
  {
    if n > 0 {
      Pow256OfLimbs(r, n - 1);
      var p := Pow256(r + 4 * (n - 1));
      assert Pow256(r + 4 * (n - 1) + 1) == 256 * p;
      assert Pow256(r + 4 * (n - 1) + 2) == 65536 * p;
      assert Pow256(r + 4 * (n - 1) + 3) == 16777216 * p;
      assert Pow256(r) * Modulus(n) == (Pow256(r) * Modulus(n - 1)) * TWO32;
    }
  }

  /** The limit is that of the buffer exactly when its size is not a multiple of four; for a
      multiple of four the top limb has to stay zero, and the limit is four bytes short. */
  lemma LimitIsBuffer(binsz: nat)
    requires binsz > 0
    ensures Limit(binsz) == Pow256(binsz) <==> binsz % 4 != 0
    ensures binsz % 4 == 0 ==> Limit(binsz) == Pow256(binsz - 4)
  {
    var r, n := binsz % 4, (binsz + 3) / 4 - 1;
    Pow256OfLimbs(r, n);
    if r == 0 {
      assert binsz - 4 == 4 * n;
      Pow256OfLimbs(0, n + 1);
      assert Pow256(binsz) == TWO32 * Pow256(binsz - 4);
    }
  }

  /** 0xffffffff << (8 * rem), as a 32-bit word. */
  function RemMask(rem: nat): nat
    requires rem < 4
  {
    match rem
    case 0 => 0xffff_ffff
    case 1 => 0xffff_ff00
    case 2 => 0xffff_0000
    case 3 => 0xff00_0000
  }

  lemma AndDouble(x: nat, y: nat)
    ensures And(x, 2 * y) == 2 * And(x / 2, y)
  {
    assert (2 * y) % 2 == 0 && (2 * y) / 2 == y;
  }

  function Scaled(y: nat, k: nat): nat
  {
    if k == 0 then y else 2 * Scaled(y, k - 1)
  }

  lemma {:induction false} ScaledIs(y: nat, k: nat)
    ensures Scaled(y, k) == y * Pow2(k)
  {
    if k > 0 {
      ScaledIs(y, k - 1);
    }
  }

  /** Masking with shifted ones masks the shifted number. */
  lemma {:induction false} AndScaled(x: nat, y: nat, k: nat)
    ensures And(x, Scaled(y, k)) == Scaled(And(x / Pow2(k), y), k)
    decreases k
  {
    hide And;
    if k > 0 {
      AndDouble(x, Scaled(y, k - 1));
      AndScaled(x / 2, y, k - 1);
      DivDouble(x, Pow2(k - 1));
    }
  }

  lemma DivDouble(x: nat, p: nat)
    requires p > 0
    ensures x / (2 * p) == (x / 2) / p
  {
    var h := x / 2;
    var q, m := h / p, h % p;
    assert x == q * (2 * p) + (x % 2 + 2 * m);
    ModUnique(x, 2 * p, q, x % 2 + 2 * m);
  }

  /** The mask test is the bound on the top limb. */
  lemma MaskTest(x: Word, rem: nat)
    requires rem < 4
    ensures And(x, RemMask(rem)) == 0 <==> x < Pow256(rem)
  {
    hide *;
    var k := 8 * rem;
    MaskFacts(rem);
    var p, q := Pow2(k), Pow2(32 - k);
    Quotient(x, p, q);
    AndScaled(x, q - 1, k);
    AndMask(x / p, 32 - k);
    ScaledIs(q - 1, k);
    ScaledIs(x / p, k);
    BitOps.ModUnique(x / p, q, 0, x / p);
  }

  lemma MaskFacts(rem: nat)
    requires rem < 4
    ensures Pow2(8 * rem) == Pow256(rem) && Pow2(8 * rem) * Pow2(32 - 8 * rem) == TWO32
    ensures RemMask(rem) == (Pow2(32 - 8 * rem) - 1) * Pow2(8 * rem)
  {
    PowerFacts();
    hide Pow2, Pow256;
  }

  lemma Quotient(x: Word, p: nat, q: nat)
    requires p > 0 && p * q == TWO32
    ensures x / p < q && (x / p == 0 <==> x < p) && ((x / p) * p == 0 <==> x < p)
  {
    assert x == p * (x / p) + x % p;
    if x / p >= q {
      MulLe(q, x / p, p);
    }
    MulGrows(x / p, p);
  }

  lemma PowerFacts()
    ensures Pow2(0) == 1 && Pow2(8) == 0x100 && Pow2(16) == 0x1_0000 && Pow2(24) == 0x100_0000 && Pow2(32) == TWO32
    ensures Pow256(0) == 1 && Pow256(1) == 0x100 && Pow256(2) == 0x1_0000 && Pow256(3) == 0x100_0000
  {
  }

  /** be32enc */
  function Be4(w: Word): (b: seq<Byte>)
    ensures |b| == 4
  {
    [w / 0x100_0000, (w / 0x1_0000) % 256, (w / 256) % 256, w % 256]
  }

  lemma AppendByte(x: seq<Byte>, b: Byte)
    ensures BeBytes(x + [b]) == BeBytes(x) * 256 + b
  {
  }

  lemma Be4Value(w: Word)
    ensures var b: seq<int> := Be4(w); ((b[0] * 256 + b[1]) * 256 + b[2]) * 256 + b[3] == w
  {
  }

  lemma AppendBe4(x: seq<Byte>, w: Word)
    ensures BeBytes(x + Be4(w)) == BeBytes(x) * TWO32 + w
  {
    var b := Be4(w);
    Be4Value(w);
    hide Be4, BeBytes;
    AppendByte(x, b[0]);
    AppendByte(x + [b[0]], b[1]);
    AppendByte(x + [b[0]] + [b[1]], b[2]);
    AppendByte(x + [b[0]] + [b[1]] + [b[2]], b[3]);
    assert x + b == x + [b[0]] + [b[1]] + [b[2]] + [b[3]];
  }

  datatype Option<T> = None | Some(value: T)

  /** The rem low bytes of the top limb, as the switch writes them. */
  function TopBytes(w: Word, rem: nat): (b: seq<Byte>)
    requires rem < 4
    ensures |b| == rem
  {
    match rem
    case 0 => []
    case 1 => [w % 256]
    case 2 => [(w / 256) % 256, w % 256]
    case 3 => [(w / 0x1_0000) % 256, (w / 256) % 256, w % 256]
  }

  lemma TopBytesValue(w: Word, rem: nat)
    requires 0 < rem < 4 && w < Pow256(rem)
    ensures BeBytes(TopBytes(w, rem)) == w
  {
    PowerFacts();
    hide Pow256, Pow2, BeBytes;
    if rem == 1 {
      ShortBytes(0, 0, w);
    } else if rem == 2 {
      ShortBytes(0, w / 256, w % 256);
    } else {
      ShortBytes(w / 0x1_0000, (w / 256) % 256, w % 256);
      assert w / 256 == 256 * (w / 0x1_0000) + (w / 256) % 256;
    }
  }

  lemma ShortBytes(x: Byte, y: Byte, z: Byte)
    ensures BeBytes([z]) == z
    ensures BeBytes([y, z]) == y * 256 + z
    ensures BeBytes([x, y, z]) == (x * 256 + y) * 256 + z
  {
    var one: seq<Byte>, two: seq<Byte> := [x], [x, y];
    assert BeBytes([]) == 0 && [z][..0] == [] && one[..0] == [];
    assert two[..1] == one && [y, z][..1] == [y] && [y][..0] == [];
    assert [x, y, z][..2] == two;
    assert BeBytes(one) == x && BeBytes([y]) == y;
    assert BeBytes(two) == BeBytes(one) * 256 + y;
  }

  /** One digit: the new value is accepted exactly if it is below the limit. */
  method AddDigit(outi: array<Word>, rem: nat, digit: nat) returns (ok: bool)
    requires outi.Length > 0 && rem < 4 && digit < 58
    modifies outi
    ensures ok <==> 58 * BeLimbs(old(outi[..])) + digit < Pow256(rem) * Modulus(outi.Length - 1)
    ensures ok ==> BeLimbs(outi[..]) == 58 * BeLimbs(old(outi[..])) + digit
  {
    hide MulAdd, BeLimbs, And, Modulus, Pow256, RemMask;
    ghost var x := outi[..];
    var c := MulAddInPlace(outi, digit);
    ok := c == 0 && And(outi[0], RemMask(rem)) == 0;
    ghost var y := outi[..];
    MulAddValue(x, digit);
    MaskTest(y[0], rem);
    TopLimb(y, Pow256(rem));
    if c > 0 {
      CarryTooLarge(BeLimbs(y), c, outi.Length, rem);
    }
  }

  lemma CarryTooLarge(v: nat, c: nat, n: nat, rem: nat)
    requires c > 0 && n > 0 && rem < 4
    ensures v + c * Modulus(n) >= Pow256(rem) * Modulus(n - 1)
  {
    PowerFacts();
    hide Pow256;
    MulLe(1, c, Modulus(n));
    MulLe(Pow256(rem), TWO32, Modulus(n - 1));
  }

  /** The output: big-endian bytes of the limbs. */
  method Emit(outi: array<Word>, rem: nat) returns (bin: seq<Byte>)
    requires outi.Length > 0 && rem < 4 && outi[0] < Pow256(rem)
    ensures |bin| == if rem == 0 then 4 * outi.Length else rem + 4 * (outi.Length - 1)
    ensures BeBytes(bin) == BeLimbs(outi[..])
  {
    hide Be4, TopBytes;
    var j := 0;
    bin := TopBytes(outi[0], rem);
    assert outi[..0] == [];
    if rem != 0 {
      TopBytesValue(outi[0], rem);
      j := 1;
      assert outi[..1][..0] == [];
    } else {
      assert bin == [];
    }
    while j < outi.Length
      invariant 0 <= j <= outi.Length
      invariant |bin| == if rem == 0 then 4 * j else rem + 4 * (j - 1)
      invariant BeBytes(bin) == BeLimbs(outi[..j])
    {
      AppendBe4(bin, outi[j]);
      assert outi[..j + 1][..j] == outi[..j];
      bin := bin + Be4(outi[j]);
      j := j + 1;
    }
    assert outi[..j] == outi[..];
  }

  /** b58dec: writes the big-endian value, and fails exactly on a bad digit or a value beyond the
      limit (see LimitIsBuffer). */
  method Decode(s: string, binsz: nat) returns (r: Option<seq<Byte>>)
    requires binsz > 0
    ensures r.None? <==> !AllDigits(s) || Number(s) >= Limit(binsz)
    ensures r.Some? ==> |r.value| == binsz && BeBytes(r.value) == Number(s)
  {
    hide Index, BeLimbs, Modulus, Pow256, Number, AllDigits, Limit;
    var n, rem := (binsz + 3) / 4, binsz % 4;
    var outi := new Word[n](_ => 0);
    ZeroLimbs(outi[..]);
    var i := 0;
    EmptyPrefix(s);
    LimitPositive(binsz);
    while i < |s|
      invariant 0 <= i <= |s| && AllDigits(s[..i])
      invariant BeLimbs(outi[..]) == Number(s[..i]) < Limit(binsz)
      modifies outi
    {
      var d := FindDigit(s[i]);
      PrefixStep(s, i);
      if d < 0 {
        return None;
      }
      var ok := AddDigit(outi, rem, d);
      LimitIs(binsz);
      if !ok {
        return None;
      }
      i := i + 1;
    }
    assert s[..i] == s;
    LimitIs(binsz);
    TopLimb(outi[..], Pow256(rem));
    var bin := Emit(outi, rem);
    EmitLength(binsz);
    r := Some(bin);
  }

  lemma EmptyPrefix(s: string)
    ensures AllDigits(s[..0]) && Number(s[..0]) == 0
  {
  }

  /** Extending a prefix by a digit; a bad digit or a large prefix dooms the whole string. */
  lemma PrefixStep(s: string, i: nat)
    requires i < |s| && AllDigits(s[..i])
    ensures Index(s[i]) < 0 ==> !AllDigits(s)
    ensures Index(s[i]) >= 0 ==>
              && AllDigits(s[..i + 1]) && Number(s[..i + 1]) == 58 * Number(s[..i]) + Index(s[i])
              && (AllDigits(s) ==> Number(s[..i + 1]) <= Number(s))
  {
    hide Index;
    assert s[..i + 1][..i] == s[..i];
    if AllDigits(s) {
      NumberGrows(s, i + 1);
    }
  }

  lemma LimitIs(binsz: nat)
    requires binsz > 0
    ensures Limit(binsz) == Pow256(binsz % 4) * Modulus((binsz + 3) / 4 - 1)
  {
  }

  lemma EmitLength(binsz: nat)
    requires binsz > 0
    ensures var n, rem := (binsz + 3) / 4, binsz % 4;
            binsz == if rem == 0 then 4 * n else rem + 4 * (n - 1)
  {
  }

  lemma LimitPositive(binsz: nat)
    requires binsz > 0
    ensures Limit(binsz) > 0
  {
  }

  lemma {:induction false} ZeroLimbs(x: seq<Word>)
    requires forall i :: 0 <= i < |x| ==> x[i] == 0
    ensures BeLimbs(x) == 0
  {
    if x != [] {
      ZeroLimbs(x[..|x| - 1]);
    }
  }

  // ---- b58check and uniqueness

  function LeadingOnes(s: string): (n: nat)
    ensures n <= |s| && (n < |s| ==> s[n] != '1')
    ensures forall i :: 0 <= i < n ==> s[i] == '1'
  {
    if s != "" && s[0] == '1' then 1 + LeadingOnes(s[1..]) else 0
  }

  function LeadingZeros(b: seq<Byte>): (n: nat)
    ensures n <= |b| && (n < |b| ==> b[n] != 0)
    ensures forall i :: 0 <= i < n ==> b[i] == 0
  {
    if b != [] && b[0] == 0 then 1 + LeadingZeros(b[1..]) else 0
  }

  /** b58check on decoded bytes: checksum of all but the last four bytes, then as many leading
      zero bytes as leading '1' digits.  The checksum of a zero payload is not zero. */
  method Check(bin: seq<Byte>, s: string, checksum: seq<Byte> -> seq<Byte>) returns (version: int)
    requires |bin| >= 4
    requires checksum(bin[..|bin| - 4]) == bin[|bin| - 4..] ==> LeadingZeros(bin) < |bin|
    ensures version == if checksum(bin[..|bin| - 4]) != bin[|bin| - 4..] then -1
                       else if LeadingZeros(bin) != LeadingOnes(s) then -3 else bin[0]
  {
    if checksum(bin[..|bin| - 4]) != bin[|bin| - 4..] {
      return -1;
    }
    var i := 0;
    assert bin[0..] == bin && s[0..] == s;
    while i < |bin| && bin[i] == 0 && i < |s| && s[i] == '1'
      invariant 0 <= i <= |bin| && i <= |s|
      invariant LeadingZeros(bin) == i + LeadingZeros(bin[i..])
      invariant LeadingOnes(s) == i + LeadingOnes(s[i..])
    {
      assert bin[i..][1..] == bin[i + 1..] && s[i..][1..] == s[i + 1..];
      i := i + 1;
    }
    if bin[i] == 0 || (i < |s| && s[i] == '1') {
      return -3;
    }
    return bin[0];
  }

  lemma {:induction false} StripOnes(s: string)
    requires AllDigits(s)
    ensures var t := s[LeadingOnes(s)..];
            && AllDigits(t) && Number(t) == Number(s) && (t != "" ==> t[0] != '1')
            && forall i :: 0 <= i < LeadingOnes(s) ==> s[i] == '1'
  {
    if s != "" && s[0] == '1' {
      StripOnes(s[1..]);
      DropLeadingOne(s);
      assert s[1..][LeadingOnes(s[1..])..] == s[LeadingOnes(s)..];
    }
  }

  lemma {:induction false} DropLeadingOne(s: string)
    requires AllDigits(s) && s != "" && s[0] == '1'
    ensures Number(s) == Number(s[1..])
  {
    hide Index;
    var n := |s| - 1;
    OneIsZero('1');
    if n == 0 {
      assert s[..0] == "" && s[1..] == "";
    } else {
      DropLeadingOne(s[..n]);
      var t := s[1..];
      assert s[..n][1..] == t[..n - 1] && t[|t| - 1] == s[n];
    }
  }

  /** Without a leading zero digit, the number determines the digits. */
  lemma {:induction false} NumberInjective(s: string, t: string)
    requires AllDigits(s) && AllDigits(t) && Number(s) == Number(t)
    requires (s != "" ==> s[0] != '1') && (t != "" ==> t[0] != '1')
    ensures s == t
  {
    hide Index;
    if s == "" || t == "" {
      if s != "" { PositiveNumber(s); }
      if t != "" { PositiveNumber(t); }
    } else {
      var m, n := |s| - 1, |t| - 1;
      SameDigit(s[m], t[n]);
      assert Index(s[m]) == Index(t[n]) && Number(s[..m]) == Number(t[..n]);
      NumberInjective(s[..m], t[..n]);
      assert s == s[..m] + [s[m]] && t == t[..n] + [t[n]];
    }
  }

  lemma SameDigit(c: char, d: char)
    ensures Index(c) == Index(d) >= 0 ==> c == d
  {
  }

  lemma {:induction false} PositiveNumber(s: string)
    requires AllDigits(s) && s != "" && s[0] != '1'
    ensures Number(s) > 0
  {
    hide Index;
    var n := |s| - 1;
    OneIsZero(s[0]);
    if n == 0 {
      assert s[..0] == "";
    } else {
      PositiveNumber(s[..n]);
    }
  }

  lemma SameParts(s: string, t: string, z: nat)
    requires z <= |s| && z <= |t| && s[z..] == t[z..]
    requires forall i :: 0 <= i < z ==> s[i] == '1' == t[i]
    ensures s == t
  {
  }

  /** No two different strings that b58dec and b58check accept yield the same bytes. */
  lemma AcceptedStringsUnique(s: string, t: string, bin: seq<Byte>)
    requires AllDigits(s) && AllDigits(t)
    requires BeBytes(bin) == Number(s) == Number(t)
    requires LeadingOnes(s) == LeadingZeros(bin) == LeadingOnes(t)
    ensures s == t
  {
    hide Index, Number, AllDigits, BeBytes;
    StripOnes(s);
    StripOnes(t);
    var z := LeadingOnes(s);
    NumberInjective(s[z..], t[z..]);
    SameParts(s, t, z);
  }

  /** The digits of a number, without leading zeros. */
  function Spelling(n: nat): (s: string)
  {
    if n == 0 then "" else Spelling(n / 58) + [ALPHABET[n % 58]]
  }

  lemma {:induction false} SpellingIs(n: nat)
    ensures AllDigits(Spelling(n)) && Number(Spelling(n)) == n && (n > 0 ==> Spelling(n) != "")
    ensures n > 0 ==> Spelling(n)[0] != '1'
  {
    hide Index;
    if n > 0 {
      SpellingIs(n / 58);
      DigitAt(n);
      var c := ALPHABET[n % 58];
      OneIsZero(c);
      AppendDigit(Spelling(n / 58), c);
    }
  }

  lemma AppendDigit(s: string, c: char)
    requires AllDigits(s) && Index(c) >= 0
    ensures AllDigits(s + [c]) && Number(s + [c]) == 58 * Number(s) + Index(c)
  {
    hide Index;
    var t := s + [c];
    assert t[..|t| - 1] == s;
  }

  lemma DigitAt(n: nat)
    ensures Index(ALPHABET[n % 58]) == n % 58
  {
    AlphabetAt('1', n % 58);
    IndexIsCodeValue(ALPHABET[n % 58]);
  }

  lemma {:induction false} PrependOnes(s: string, z: nat) returns (t: string)
    requires AllDigits(s) && (s != "" ==> s[0] != '1')
    ensures AllDigits(t) && Number(t) == Number(s) && LeadingOnes(t) == z
  {
    hide Index;
    if z == 0 {
      return s;
    }
    var u := PrependOnes(s, z - 1);
    t := ['1'] + u;
    OneIsZero('1');
    assert t[1..] == u;
    DropLeadingOne(t);
  }

  /** Every byte string has a base-58 string with its number and its leading zeros. */
  lemma EveryBytesSpelled(bin: seq<Byte>) returns (s: string)
    ensures AllDigits(s) && Number(s) == BeBytes(bin) && LeadingOnes(s) == LeadingZeros(bin)
  {
    var n := BeBytes(bin);
    SpellingIs(n);
    s := PrependOnes(Spelling(n), LeadingZeros(bin));
  }
}
