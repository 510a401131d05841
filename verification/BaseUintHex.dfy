/**
  GetHex and SetHex of base_uint (uint256.h).  Both work on the bytes of the limbs in memory,
  lowest first, so the model does too.
 */
module BaseUintHex {
  import opened Words
  import opened Bytes
  import Limbs
  import BitOps

  // ---- Limbs in memory

  function WordBytes(w: Word): (b: seq<Byte>)
    ensures |b| == 4
  {
    [w % 256, (w / 256) % 256, (w / 65536) % 256, w / 16777216]
  }

  function ByteView(x: seq<Word>): (b: seq<Byte>)
    ensures |b| == 4 * |x|
  {
    if x == [] then [] else WordBytes(x[0]) + ByteView(x[1..])
  }

  lemma {:induction false} ByteViewValue(x: seq<Word>)
    ensures LeValue(ByteView(x)) == Limbs.Value(x)
  {
    hide WordBytes;
    if x != [] {
      ByteViewValue(x[1..]);
      PrependFour(WordBytes(x[0]), ByteView(x[1..]));
      WordBytesValue(x[0]);
    }
  }

  lemma WordBytesValue(w: Word)
    ensures var p: seq<int> := WordBytes(w); p[0] + 256 * p[1] + 65536 * p[2] + 16777216 * p[3] == w as int
  {
  }

  lemma Prepend(x: Byte, r: seq<Byte>)
    ensures LeValue([x] + r) == x + 256 * LeValue(r)
  {
  }

  lemma PrependFour(p: seq<Byte>, r: seq<Byte>)
    requires |p| == 4
    ensures LeValue(p + r) == p[0] + 256 * p[1] + 65536 * p[2] + 16777216 * p[3] + TWO32 * LeValue(r)
  {
    hide LeValue;
    Prepend(p[3], r);
    Prepend(p[2], [p[3]] + r);
    Prepend(p[1], [p[2]] + ([p[3]] + r));
    Prepend(p[0], [p[1]] + ([p[2]] + ([p[3]] + r)));
    assert p + r == [p[0]] + ([p[1]] + ([p[2]] + ([p[3]] + r)));
  }

  // ---- Digits

  function HexDigit(d: nat): char
    requires d < 16
  {
    if d < 10 then '0' + d as char else 'a' + (d - 10) as char
  }

  /** The printed digits are these, and the characters read as digits are these and the capitals. */
  lemma HexDigitIs(c: char, d: nat)
    requires d < 16
    ensures HexDigit(d) == "0123456789abcdef"[d]
    ensures IsHex(c) && HexVal(c) == d <==> c == "0123456789abcdef"[d] || c == "0123456789ABCDEF"[d]
  {
  }

  predicate IsHex(c: char)
  {
    '0' <= c <= '9' || 'a' <= c <= 'f' || 'A' <= c <= 'F'
  }

  /** phexdigit */
  function HexVal(c: char): (v: nat)
    ensures v < 16
  {
    if '0' <= c <= '9' then c as int - '0' as int
    else if 'a' <= c <= 'f' then c as int - 'a' as int + 10
    else if 'A' <= c <= 'F' then c as int - 'A' as int + 10
    else 0
  }

  lemma DigitRoundTrip(d: nat)
    requires d < 16
    ensures HexVal(HexDigit(d)) == d && IsHex(HexDigit(d)) && HexDigit(d) != 'x' && HexDigit(d) != 'X'
    ensures !IsSpace(HexDigit(d))
  {
  }

  /** The number a string of hex digits denotes. */
  function HexNumber(s: string): nat
  {
    if s == "" then 0 else 16 * HexNumber(s[..|s| - 1]) + HexVal(s[|s| - 1])
  }

  // ---- GetHex

  /** Two digits a byte, highest byte first. */
  function Hex(b: seq<Byte>): (s: string)
    ensures |s| == 2 * |b|
  {
    if b == [] then "" else Hex(b[1..]) + [HexDigit(b[0] / 16), HexDigit(b[0] % 16)]
  }

  lemma {:induction false} HexValue(b: seq<Byte>)
    ensures HexNumber(Hex(b)) == LeValue(b)
    ensures forall i :: 0 <= i < |Hex(b)| ==> IsHex(Hex(b)[i])
  {
    if b != [] {
      HexValue(b[1..]);
      var s, h := Hex(b), Hex(b[1..]);
      DigitRoundTrip(b[0] / 16);
      DigitRoundTrip(b[0] % 16);
      assert s[..|s| - 1] == h + [HexDigit(b[0] / 16)];
      assert s[..|s| - 1][..|s| - 2] == h;
    }
  }

  /** GetHex: the loop prints byte sizeof(pn) - i - 1 in step i. */
  method GetHex(b: seq<Byte>) returns (s: string)
    ensures s == Hex(b)
  {
    s := "";
    var i := 0;
    while i < |b|
      invariant 0 <= i <= |b| && s == Hex(b[|b| - i..])
    {
      var x := b[|b| - i - 1];
      assert b[|b| - (i + 1)..][1..] == b[|b| - i..];
      s := s + [HexDigit(x / 16), HexDigit(x % 16)];
      i := i + 1;
    }
    assert b[0..] == b;
  }

  // ---- SetHex

  predicate IsSpace(c: char)
  {
    c == ' ' || c == '\t' || c == '\n' || c == '\r' || c as int == 11 || c as int == 12
  }

  function SkipSpaces(s: string): string
  {
    if s != "" && IsSpace(s[0]) then SkipSpaces(s[1..]) else s
  }

  function SkipPrefix(s: string): string
  {
    if |s| >= 2 && s[0] == '0' && (s[1] == 'x' || s[1] == 'X') then s[2..] else s
  }

  /** The longest prefix of hex digits. */
  function DigitRun(s: string): (d: string)
    ensures |d| <= |s| && d == s[..|d|]
    ensures forall i :: 0 <= i < |d| ==> IsHex(d[i])
    ensures |d| < |s| ==> !IsHex(s[|d|])
  {
    if s == "" || !IsHex(s[0]) then "" else [s[0]] + DigitRun(s[1..])
  }

  /** The digits SetHex uses. */
  function Digits(s: string): string
  {
    DigitRun(SkipPrefix(SkipSpaces(s)))
  }

  /** Space, tab, newline, vertical tab, form feed and carriage return are dropped up to the first
      other character. */
  lemma {:induction false} AfterSpaces(blanks: string, t: string)
    requires forall i :: 0 <= i < |blanks| ==> blanks[i] == ' ' || 9 <= blanks[i] as int <= 13
    requires t != "" ==> t[0] != ' ' && !(9 <= t[0] as int <= 13)
    ensures SkipSpaces(blanks + t) == t
  {
    var s := blanks + t;
    if blanks == "" {
      assert s == t;
    } else {
      AfterSpaces(blanks[1..], t);
      assert s[1..] == blanks[1..] + t;
    }
  }

  /** Of a text made of spaces, an optional 0x or 0X, hex digits, and a rest that neither goes on with
      a digit nor makes a 0x of a lone zero, exactly the digits are used. */
  lemma DigitsOf(blanks: string, prefix: string, d: string, rest: string)
    requires forall i :: 0 <= i < |blanks| ==> blanks[i] == ' ' || 9 <= blanks[i] as int <= 13
    requires prefix == "0x" || prefix == "0X" || prefix == ""
    requires forall i :: 0 <= i < |d| ==> IsHex(d[i])
    requires rest != "" ==> !IsHex(rest[0])
    requires prefix == "" && rest != "" && d == "0" ==> rest[0] != 'x' && rest[0] != 'X'
    requires prefix + d == "" && rest != "" ==> rest[0] != ' ' && !(9 <= rest[0] as int <= 13)
    ensures Digits(blanks + prefix + d + rest) == d
  {
    var u := d + rest;
    hide SkipPrefix, SkipSpaces, DigitRun;
    AfterPrefix(prefix, d, rest);
    AfterSpaces(blanks, prefix + u);
    assert blanks + (prefix + u) == blanks + prefix + d + rest;
    RunIs(u, |d|);
    assert u[..|d|] == d;
  }

  lemma AfterPrefix(prefix: string, d: string, rest: string)
    requires prefix == "0x" || prefix == "0X" || prefix == ""
    requires forall i :: 0 <= i < |d| ==> IsHex(d[i])
    requires rest != "" ==> !IsHex(rest[0])
    requires prefix == "" && rest != "" && d == "0" ==> rest[0] != 'x' && rest[0] != 'X'
    ensures SkipPrefix(prefix + (d + rest)) == d + rest
  {
    var u := d + rest;
    if prefix == "" {
      assert prefix + u == u;
      if |d| == 1 {
        assert d == [u[0]];
      }
    } else {
      assert (prefix + u)[2..] == u;
    }
  }

  /** n bytes from the digits, taken in pairs from the end. */
  function FromDigits(d: string, n: nat): (b: seq<Byte>)
    ensures |b| == n
    decreases n
  {
    if n == 0 then []
    else if |d| == 0 then [0] + FromDigits("", n - 1)
    else if |d| == 1 then [HexVal(d[0])] + FromDigits("", n - 1)
    else [HexVal(d[|d| - 1]) + 16 * HexVal(d[|d| - 2])] + FromDigits(d[..|d| - 2], n - 1)
  }

  /** The bytes hold the number the digits denote, modulo 2^BITS. */
  lemma {:induction false} FromDigitsValue(d: string, n: nat)
    ensures LeValue(FromDigits(d, n)) == HexNumber(d) % Pow256(n)
    decreases n
  {
    if n > 0 {
      var b := FromDigits(d, n);
      var rest := if |d| <= 2 then "" else d[..|d| - 2];
      FromDigitsValue(rest, n - 1);
      assert b[1..] == FromDigits(rest, n - 1);
      PairStep(d, rest);
      ModByte(b[0], HexNumber(rest), Pow256(n - 1));
    }
  }

  lemma PairStep(d: string, rest: string)
    requires rest == if |d| <= 2 then "" else d[..|d| - 2]
    ensures HexNumber(d) == FromDigits(d, 1)[0] + 256 * HexNumber(rest)
  {
    if |d| == 1 {
      assert d[..0] == "";
    } else if |d| >= 2 {
      assert d[..|d| - 1][..|d| - 2] == rest;
    }
  }

  lemma ModByte(x: Byte, y: nat, p: nat)
    requires p > 0
    ensures (x + 256 * y) % (256 * p) == x + 256 * (y % p)
  {
    var q, m := y / p, y % p;
    assert x + 256 * y == q * (256 * p) + (x + 256 * m);
    BitOps.ModUnique(x + 256 * y, 256 * p, q, x + 256 * m);
  }

  /** SetHex: the number after optional spaces and 0x, modulo 2^BITS. */
  method SetHex(b: array<Byte>, s: string)
    modifies b
    ensures b[..] == FromDigits(Digits(s), b.Length)
    ensures LeValue(b[..]) == HexNumber(Digits(s)) % Pow256(b.Length)
  {
    hide FromDigits, HexNumber, Digits, LeValue, Pow256;
    var i := 0;
    while i < b.Length
      invariant 0 <= i <= b.Length && forall k :: 0 <= k < i ==> b[k] == 0
    {
      b[i] := 0;
      i := i + 1;
    }
    var p, end := FindDigits(s);
    StoreDigits(b, s, p, end);
    FromDigitsValue(Digits(s), b.Length);
  }

  method SkipBlanks(s: string) returns (p: nat)
    ensures p <= |s| && s[p..] == SkipSpaces(s)
  {
    hide IsSpace;
    p := 0;
    assert s[0..] == s;
    while p < |s| && IsSpace(s[p])
      invariant 0 <= p <= |s| && SkipSpaces(s[p..]) == SkipSpaces(s)
    {
      assert s[p..][1..] == s[p + 1..];
      p := p + 1;
    }
  }

  /** The scanning part of SetHex: spaces, an optional 0x, then the digits. */
  method FindDigits(s: string) returns (p: nat, end: nat)
    ensures p <= end <= |s| && s[p..end] == Digits(s)
  {
    hide IsHex, SkipSpaces, DigitRun;
    p := SkipBlanks(s);
    if p + 1 < |s| && s[p] == '0' && (s[p + 1] == 'x' || s[p + 1] == 'X') {
      assert s[p..][2..] == s[p + 2..];
      p := p + 2;
    }
    assert s[p..] == SkipPrefix(SkipSpaces(s));
    hide SkipPrefix;
    end := p;
    while end < |s| && IsHex(s[end])
      invariant p <= end <= |s|
      invariant forall k :: p <= k < end ==> IsHex(s[k])
    {
      end := end + 1;
    }
    RunIs(s[p..], end - p);
    assert s[p..][..end - p] == s[p..end];
  }

  lemma {:induction false} RunIs(s: string, n: nat)
    requires n <= |s| && (forall k :: 0 <= k < n ==> IsHex(s[k])) && (n < |s| ==> !IsHex(s[n]))
    ensures DigitRun(s) == s[..n]
  {
  }

  /** Byte i: the i-th pair of digits from the end, or what there is of it. */
  function Pair(d: string, i: nat): Byte
  {
    if |d| <= 2 * i then 0
    else if |d| == 2 * i + 1 then HexVal(d[0])
    else HexVal(d[|d| - 1 - 2 * i]) + 16 * HexVal(d[|d| - 2 - 2 * i])
  }

  lemma {:induction false} FromDigitsAt(d: string, n: nat, i: nat)
    requires i < n
    ensures FromDigits(d, n)[i] == Pair(d, i)
    decreases n
  {
    hide HexVal;
    if i > 0 {
      FromDigitsAt(if |d| <= 2 then "" else d[..|d| - 2], n - 1, i - 1);
    }
  }

  /** The storing loop: p1 walks up the bytes, psz down the digits. */
  method StoreDigits(b: array<Byte>, s: string, begin: nat, end: nat)
    requires begin <= end <= |s| && forall k :: 0 <= k < b.Length ==> b[k] == 0
    modifies b
    ensures b[..] == FromDigits(s[begin..end], b.Length)
  {
    hide HexVal, FromDigits;
    var psz := end;
    var p1 := 0;
    ghost var d := s[begin..end];
    while psz > begin && p1 < b.Length
      invariant begin <= psz <= end && 0 <= p1 <= b.Length
      invariant psz == if |d| <= 2 * p1 then begin else end - 2 * p1
      invariant forall k :: 0 <= k < p1 ==> b[k] == Pair(d, k)
      invariant forall k :: p1 <= k < b.Length ==> b[k] == 0
      decreases psz
    {
      assert s[psz - 1] == d[psz - 1 - begin];
      b[p1] := HexVal(s[psz - 1]);
      psz := psz - 1;
      if psz > begin {
        assert s[psz - 1] == d[psz - 1 - begin];
        b[p1] := b[p1] + 16 * HexVal(s[psz - 1]);
        psz := psz - 1;
      }
      p1 := p1 + 1;
    }
    forall k | 0 <= k < b.Length
      ensures b[k] == FromDigits(d, b.Length)[k]
    {
      FromDigitsAt(d, b.Length, k);
    }
  }

  // ---- Round trip

  lemma HexIsClean(b: seq<Byte>)
    ensures Digits(Hex(b)) == Hex(b)
  {
  }

  /** SetHex(GetHex(x)) = x for every width. */
  lemma HexRoundTrip(b: seq<Byte>)
    ensures FromDigits(Digits(Hex(b)), |b|) == b
  {
    HexIsClean(b);
    HexValue(b);
    LeValueBound(b);
    FromDigitsValue(Hex(b), |b|);
    BitOps.ModUnique(LeValue(b), Pow256(|b|), 0, LeValue(b));
    LeValueInjective(FromDigits(Hex(b), |b|), b);
  }
}
