/**
  oaes_encrypt and oaes_decrypt of crypto/oaes_lib.c: header, initialisation vector, ECB or CBC
  chaining and the 1, 2, 3, ... padding, for messages of any length.
 */
module OpenAes {
  import opened AesTables
  import opened Aes

  datatype Error = BadLength | BadBuffer | BadHeader

  datatype Result<T> = Success(value: T) | Failure(error: Error)

  // ---- Bytes and blocks

  function ColumnBytes(w: Column): (b: seq<bv8>)
    ensures |b| == 4
  {
    [w.a, w.b, w.c, w.d]
  }

  function ToColumn(b: seq<bv8>): Column
    requires |b| == 4
  {
    Column(b[0], b[1], b[2], b[3])
  }

  function ToBytes(s: State): (b: seq<bv8>)
    ensures |b| == 16
  {
    ColumnBytes(s.c0) + ColumnBytes(s.c1) + ColumnBytes(s.c2) + ColumnBytes(s.c3)
  }

  function FromBytes(b: seq<bv8>): State
    requires |b| == 16
  {
    State(ToColumn(b[..4]), ToColumn(b[4..8]), ToColumn(b[8..12]), ToColumn(b[12..]))
  }

  lemma FromToBytes(s: State)
    ensures FromBytes(ToBytes(s)) == s
  {
  }

  lemma ToFromBytes(b: seq<bv8>)
    requires |b| == 16
    ensures ToBytes(FromBytes(b)) == b
  {
  }

  // ---- Padding

  /** A byte from its two hexadecimal digits. */
  function Byte(i: nat): bv8
    requires i < 256
  {
    ((i / 16) as bv8 << 4) | (i % 16) as bv8
  }

  function Int(b: bv8): nat
  {
    16 * (b >> 4) as int + (b & 15) as int
  }

  lemma DigitConversion(i: nat)
    requires i < 16
    ensures i as bv8 < 16 && (i as bv8) as int == i
  {
  }

  lemma DigitsOf(b: bv8, c: bv8)
    requires b < 16 && c < 16
    ensures ((b << 4) | c) & 15 == c && ((b << 4) | c) >> 4 == b
  {
  }

  lemma ByteValue(i: nat)
    requires i < 256
    ensures Int(Byte(i)) == i
  {
    DigitConversion(i / 16);
    DigitConversion(i % 16);
    DigitsOf((i / 16) as bv8, (i % 16) as bv8);
  }

  lemma DigitBack(d: bv8)
    requires d < 16
    ensures 0 <= d as int < 16 && (d as int) as bv8 == d
  {
  }

  lemma JoinDigits(b: bv8)
    ensures ((b >> 4) << 4) | (b & 15) == b && b >> 4 < 16 && b & 15 < 16
  {
  }

  lemma ByteOfInt(b: bv8)
    ensures Int(b) < 256 && Byte(Int(b)) == b
  {
    JoinDigits(b);
    var h, l := b >> 4, b & 15;
    DigitBack(h);
    DigitBack(l);
    assert Int(b) / 16 == h as int && Int(b) % 16 == l as int;
  }

  /** Bytes count up from zero. */
  lemma ByteCounts(i: nat)
    requires i < 255
    ensures Byte(0) == 0 && Byte(i + 1) == Byte(i) + 1
  {
    var h, l := i / 16, i % 16;
    DigitConversion(h);
    DigitConversion(l);
    if l < 15 {
      assert (i + 1) / 16 == h && (i + 1) % 16 == l + 1;
      DigitStep(l);
      LowStep(h as bv8, l as bv8);
    } else {
      assert (i + 1) / 16 == h + 1 && (i + 1) % 16 == 0;
      DigitStep(h);
      HighStep(h as bv8);
    }
  }

  lemma DigitStep(d: nat)
    requires d < 15
    ensures (d + 1) as bv8 == d as bv8 + 1 && d as bv8 < 15
  {
  }

  lemma LowStep(h: bv8, l: bv8)
    requires h < 16 && l < 15
    ensures (h << 4) | (l + 1) == ((h << 4) | l) + 1
  {
  }

  lemma HighStep(h: bv8)
    requires h < 15
    ensures ((h + 1) << 4) | 0 == ((h << 4) | 15) + 1
  {
  }

  function PadLen(n: nat): (k: nat)
    ensures k < 16 && (n + k) % 16 == 0
  {
    if n % 16 == 0 then 0 else 16 - n % 16
  }

  /** 1, 2, ..., k */
  function PadBytes(k: nat): (p: seq<bv8>)
    requires k < 16
    ensures |p| == k && forall i :: 0 <= i < k ==> p[i] == Byte(i + 1)
  {
    seq(k, i requires 0 <= i < k => Byte(i + 1))
  }

  function Padded(m: seq<bv8>): (p: seq<bv8>)
    ensures |p| == |m| + PadLen(|m|)
    ensures |p| % 16 == 0
  {
    m + PadBytes(PadLen(|m|))
  }

  /** The k last bytes of m are 1, 2, ..., k. */
  predicate EndsWithPad(m: seq<bv8>, k: nat)
    requires k <= |m|
  {
    forall j :: |m| - k <= j < |m| ==> Int(m[j]) == j + 1 - (|m| - k)
  }

  /** Removing the padding, when the header's flag says there is some. */
  function Unpad(m: seq<bv8>, flagged: bool): Result<seq<bv8>>
  {
    if !flagged then Success(m)
    else if m == [] then Failure(BadHeader)
    else
      var k := Int(m[|m| - 1]);
      if 0 < k < 16 && k <= |m| && EndsWithPad(m, k) then Success(m[..|m| - k]) else Failure(BadHeader)
  }

  lemma UnpadPadded(m: seq<bv8>)
    ensures Unpad(Padded(m), PadLen(|m|) != 0) == Success(m)
  {
    hide Int, Byte, PadLen;
    var p, k := Padded(m), PadLen(|m|);
    forall j | |m| <= j < |p|
      ensures Int(p[j]) == j + 1 - |m|
    {
      assert p[j] == PadBytes(k)[j - |m|];
      ByteValue(j - |m| + 1);
    }
    assert p[..|m|] == m;
    assert k == 0 ==> p == m;
  }

  // ---- Chaining, for any block function

  function Chained(cbc: bool, block: State, iv: State): State
  {
    if cbc then XorState(block, iv) else block
  }

  /** The vector for the next block: the ciphertext block just made or read, in CBC mode. */
  function Carried(cbc: bool, block: State, iv: State): State
  {
    if cbc then block else iv
  }

  /** The ciphertext of a padded message; in CBC mode each block is first xored with the
      ciphertext block before it, the first one with the initialisation vector. */
  function Encipher(enc: State -> State, cbc: bool, iv: State, m: seq<bv8>): (c: seq<bv8>)
    requires |m| % 16 == 0
    ensures |c| == |m|
    decreases |m|
  {
    if m == [] then []
    else
      var x := enc(Chained(cbc, FromBytes(m[..16]), iv));
      ToBytes(x) + Encipher(enc, cbc, Carried(cbc, x, iv), m[16..])
  }

  function Decipher(dec: State -> State, cbc: bool, iv: State, c: seq<bv8>): (m: seq<bv8>)
    requires |c| % 16 == 0
    ensures |m| == |c|
    decreases |c|
  {
    if c == [] then []
    else
      var block := FromBytes(c[..16]);
      ToBytes(Chained(cbc, dec(block), iv)) + Decipher(dec, cbc, Carried(cbc, block, iv), c[16..])
  }

  lemma {:induction false} DecipherEnciphered(enc: State -> State, dec: State -> State, cbc: bool, iv: State, m: seq<bv8>)
    requires |m| % 16 == 0
    requires forall s :: dec(enc(s)) == s
    ensures Decipher(dec, cbc, iv, Encipher(enc, cbc, iv, m)) == m
    decreases |m|
  {
    hide XorState, ToBytes, FromBytes;
    if m != [] {
      var block := FromBytes(m[..16]);
      var y := Chained(cbc, block, iv);
      var x := enc(y);
      var next := Carried(cbc, x, iv);
      var c := Encipher(enc, cbc, iv, m);
      assert c[..16] == ToBytes(x) && c[16..] == Encipher(enc, cbc, next, m[16..]);
      FromToBytes(x);
      ToFromBytes(m[..16]);
      assert dec(enc(y)) == y;
      XorStateCancels(block, iv);
      DecipherEnciphered(enc, dec, cbc, next, m[16..]);
      assert m == m[..16] + m[16..];
    }
  }

  /** The vector a context holds after encrypting: the last ciphertext block in CBC mode. */
  function NextIv(enc: State -> State, cbc: bool, iv: State, m: seq<bv8>): State
    requires |m| % 16 == 0
    decreases |m|
  {
    if m == [] then iv
    else NextIv(enc, cbc, Carried(cbc, enc(Chained(cbc, FromBytes(m[..16]), iv)), iv), m[16..])
  }

  function Encryption(keys: seq<State>): State -> State
    requires |keys| >= 2
  {
    (s: State) => Cipher(keys, s)
  }

  function Decryption(keys: seq<State>): State -> State
    requires |keys| >= 2
  {
    (s: State) => InvCipher(keys, s)
  }

  lemma {:induction false} EncipherDeciphered(enc: State -> State, dec: State -> State, cbc: bool, iv: State, c: seq<bv8>)
    requires |c| % 16 == 0
    requires forall s :: enc(dec(s)) == s
    ensures Encipher(enc, cbc, iv, Decipher(dec, cbc, iv, c)) == c
    decreases |c|
  {
    hide XorState, ToBytes, FromBytes;
    if c != [] {
      var block := FromBytes(c[..16]);
      var x := Chained(cbc, dec(block), iv);
      var m := Decipher(dec, cbc, iv, c);
      assert m[..16] == ToBytes(x) && m[16..] == Decipher(dec, cbc, Carried(cbc, block, iv), c[16..]);
      FromToBytes(x);
      ToFromBytes(c[..16]);
      assert enc(dec(block)) == block;
      XorStateCancels(dec(block), iv);
      EncipherDeciphered(enc, dec, cbc, Carried(cbc, block, iv), c[16..]);
      assert c == c[..16] + c[16..];
    }
  }

  /** Block i of a byte string. */
  function BlockAt(c: seq<bv8>, i: nat): State
    requires 16 * i + 16 <= |c|
  {
    FromBytes(c[16 * i..16 * i + 16])
  }

  /** The modes of SP 800-38A block by block: ECB encrypts each block for itself, CBC each block xored
      with the ciphertext block before it, the first one with the vector. */
  lemma {:induction false} BlockByBlock(enc: State -> State, cbc: bool, iv: State, m: seq<bv8>, i: nat)
    requires |m| % 16 == 0 && 16 * i + 16 <= |m|
    ensures var c := Encipher(enc, cbc, iv, m);
            BlockAt(c, i) == enc(if !cbc then BlockAt(m, i)
                                 else XorState(BlockAt(m, i), if i == 0 then iv else BlockAt(c, i - 1)))
    decreases i
  {
    hide XorState, ToBytes, FromBytes;
    var x := enc(Chained(cbc, FromBytes(m[..16]), iv));
    var c, rest := Encipher(enc, cbc, iv, m), Encipher(enc, cbc, Carried(cbc, x, iv), m[16..]);
    assert c == ToBytes(x) + rest;
    assert c[..16] == ToBytes(x);
    FromToBytes(x);
    if i > 0 {
      BlockByBlock(enc, cbc, Carried(cbc, x, iv), m[16..], i - 1);
      assert m[16..][16 * (i - 1)..16 * (i - 1) + 16] == m[16 * i..16 * i + 16];
      assert rest[16 * (i - 1)..16 * (i - 1) + 16] == c[16 * i..16 * i + 16];
      if i > 1 {
        assert rest[16 * (i - 2)..16 * (i - 2) + 16] == c[16 * (i - 1)..16 * (i - 1) + 16];
      }
    }
  }

  /** The vector left behind is the last ciphertext block in CBC mode, and the old one in ECB mode. */
  lemma {:induction false} NextIvIs(enc: State -> State, cbc: bool, iv: State, m: seq<bv8>)
    requires |m| % 16 == 0
    ensures NextIv(enc, cbc, iv, m) ==
            if cbc && |m| > 0 then BlockAt(Encipher(enc, cbc, iv, m), |m| / 16 - 1) else iv
    decreases |m|
  {
    hide XorState, ToBytes, FromBytes;
    if m != [] {
      var x := enc(Chained(cbc, FromBytes(m[..16]), iv));
      var c, rest := Encipher(enc, cbc, iv, m), Encipher(enc, cbc, Carried(cbc, x, iv), m[16..]);
      assert c == ToBytes(x) + rest;
      FromToBytes(x);
      NextIvIs(enc, cbc, Carried(cbc, x, iv), m[16..]);
      if m[16..] == [] {
        assert c[16 * 0..16 * 0 + 16] == ToBytes(x);
      } else {
        var i := |m| / 16 - 1;
        assert rest[16 * (i - 1)..16 * (i - 1) + 16] == c[16 * i..16 * i + 16];
      }
    }
  }

  // ---- Header

  const MAGIC: seq<bv8> := [0x4f, 0x41, 0x45, 0x53, 0x01, 0x02]

  const OPTION_ECB := 1
  const OPTION_CBC := 2

  predicate UsesCbc(options: nat)
  {
    (options / OPTION_CBC) % 2 == 1
  }

  /** The option bits a header may carry: exactly one of ECB and CBC. */
  predicate ValidOptions(options: nat)
  {
    options == OPTION_ECB || options == OPTION_CBC
  }

  /** "OAES", version 1, type 2, 16 option bits, the flags, reserved bytes. */
  function Header(options: nat, flagged: bool): (h: seq<bv8>)
    requires options < 0x1_0000
    ensures |h| == 16
  {
    MAGIC + [Byte(options % 256), Byte(options / 256), if flagged then 1 else 0] + [0, 0, 0, 0, 0, 0, 0]
  }

  function HeaderOptions(c: seq<bv8>): nat
    requires |c| >= 16
  {
    Int(c[6]) + 256 * Int(c[7])
  }

  lemma HeaderRoundTrip(options: nat, flagged: bool)
    requires options < 0x1_0000
    ensures var h := Header(options, flagged);
            && h[..6] == MAGIC && HeaderOptions(h) == options && h[8] == (if flagged then 1 else 0)
            && h[..4] == [0x4f, 0x41, 0x45, 0x53] && forall i :: 9 <= i < 16 ==> h[i] == 0
  {
    hide Byte, Int;
    ByteValue(options % 256);
    ByteValue(options / 256);
  }

  // ---- Messages

  /** The output of oaes_encrypt. */
  function Encrypted(keys: seq<State>, options: nat, iv: State, m: seq<bv8>): seq<bv8>
    requires |keys| >= 2 && options < 0x1_0000
  {
    Header(options, PadLen(|m|) != 0) + ToBytes(iv) + Encipher(Encryption(keys), UsesCbc(options), iv, Padded(m))
  }

  /** Bit 1 of the options chooses: behind header and vector, every block of the padded message is
      enciphered by itself if it is clear, and xored with the ciphertext block before it (or the
      vector) if it is set. */
  lemma ModeByOption(keys: seq<State>, options: nat, iv: State, m: seq<bv8>, i: nat)
    requires |keys| >= 2 && options < 0x1_0000 && 16 * i + 16 <= |Padded(m)|
    ensures var p, e := Padded(m), Encrypted(keys, options, iv, m);
            && |e| == 32 + |p| && e[16..32] == ToBytes(iv)
            && var c := e[32..];
               BlockAt(c, i) == Cipher(keys, if options % 4 < 2 then BlockAt(p, i)
                                             else XorState(BlockAt(p, i), if i == 0 then iv else BlockAt(c, i - 1)))
  {
    CbcBit(options);
    EncryptedParts(keys, options, iv, m);
    hide *;
    BlockByBlock(Encryption(keys), UsesCbc(options), iv, Padded(m), i);
    forall x
      ensures Encryption(keys)(x) == Cipher(keys, x)
    {
      EncryptionIs(keys, x);
    }
  }

  lemma CbcBit(options: nat)
    ensures UsesCbc(options) <==> options % 4 >= 2
  {
  }

  lemma EncryptedParts(keys: seq<State>, options: nat, iv: State, m: seq<bv8>)
    requires |keys| >= 2 && options < 0x1_0000
    ensures var p, e := Padded(m), Encrypted(keys, options, iv, m);
            |e| == 32 + |p| && e[16..32] == ToBytes(iv) && e[32..] == Encipher(Encryption(keys), UsesCbc(options), iv, p)
  {
    hide ToBytes, Encipher, Padded, Cipher, Header, UsesCbc;
  }

  lemma EncryptionIs(keys: seq<State>, x: State)
    requires |keys| >= 2
    ensures Encryption(keys)(x) == Cipher(keys, x)
  {
    hide Cipher;
  }

  /** The result of oaes_decrypt. */
  function Decrypted(keys: seq<State>, c: seq<bv8>): Result<seq<bv8>>
    requires |keys| >= 2
  {
    if |c| % 16 != 0 then Failure(BadLength)
    else if |c| < 32 then Failure(BadBuffer)
    else if c[..6] != MAGIC || !ValidOptions(HeaderOptions(c)) || (c[8] != 0 && c[8] != 1) then Failure(BadHeader)
    else Unpad(Decipher(Decryption(keys), UsesCbc(HeaderOptions(c)), FromBytes(c[16..32]), c[32..]), c[8] == 1)
  }

  /** Decrypting an encrypted message returns it with its length, for every expanded key, vector
      and message, exactly when the context's options select one of ECB and CBC. */
  lemma EncryptionRoundTrip(keys: seq<State>, options: nat, iv: State, m: seq<bv8>)
    requires |keys| >= 2 && options < 0x1_0000
    ensures Decrypted(keys, Encrypted(keys, options, iv, m)) == Success(m) <==> ValidOptions(options)
  {
    hide Encipher, Decipher, ToBytes, FromBytes, Unpad, Header, Padded, PadLen, Cipher, InvCipher;
    var flagged := PadLen(|m|) != 0;
    var h, p := Header(options, flagged), Padded(m);
    var c := Encrypted(keys, options, iv, m);
    HeaderRoundTrip(options, flagged);
    PrefixFacts(h, ToBytes(iv), Encipher(Encryption(keys), UsesCbc(options), iv, p));
    assert HeaderOptions(c) == options;
    FromToBytes(iv);
    forall s
      ensures Decryption(keys)(Encryption(keys)(s)) == s
    {
      CipherInverse(keys, s);
    }
    DecipherEnciphered(Encryption(keys), Decryption(keys), UsesCbc(options), iv, p);
    UnpadPadded(m);
  }

  /** What unpadding accepts is the padding of what it returns. */
  lemma PaddedUnpadded(p: seq<bv8>, flagged: bool, m: seq<bv8>)
    requires |p| % 16 == 0 && Unpad(p, flagged) == Success(m)
    ensures Padded(m) == p && flagged == (PadLen(|m|) != 0)
  {
    hide Int, Byte;
    if flagged {
      var k := Int(p[|p| - 1]);
      assert m == p[..|p| - k] && PadLen(|m|) == k;
      forall i | 0 <= i < k
        ensures PadBytes(k)[i] == p[|m| + i]
      {
        ByteOfInt(p[|m| + i]);
      }
      assert Padded(m) == m + PadBytes(k);
    }
  }

  /** The header's option bits, read back and written again. */
  lemma HeaderWritten(c: seq<bv8>)
    requires |c| >= 16 && c[..6] == MAGIC && ValidOptions(HeaderOptions(c)) && (c[8] == 0 || c[8] == 1)
    ensures Header(HeaderOptions(c), c[8] == 1)[..9] == c[..9]
  {
    hide Byte, Int;
    ByteOfInt(c[6]);
    ByteOfInt(c[7]);
    assert Int(c[7]) == 0 && Int(c[6]) == HeaderOptions(c);
    var h := Header(HeaderOptions(c), c[8] == 1);
    forall i | 0 <= i < 9
      ensures h[i] == c[i]
    {
      if i < 6 {
        assert h[i] == MAGIC[i] == c[..6][i];
      }
    }
  }

  /** c is an encryption of m with these options and vector, whatever its reserved bytes. */
  predicate Encrypts(keys: seq<State>, c: seq<bv8>, options: nat, iv: State, m: seq<bv8>)
    requires |keys| >= 2 && options < 0x1_0000
  {
    var e := Encrypted(keys, options, iv, m);
    |c| == |e| >= 32 && c[..9] == e[..9] && c[16..] == e[16..]
  }

  lemma EncryptedShape(keys: seq<State>, options: nat, iv: State, m: seq<bv8>)
    requires |keys| >= 2 && options < 0x1_0000
    ensures var e := Encrypted(keys, options, iv, m);
            && |e| >= 32 && |e| % 16 == 0 && e[..16] == Header(options, PadLen(|m|) != 0) && e[16..32] == ToBytes(iv)
            && e[32..] == Encipher(Encryption(keys), UsesCbc(options), iv, Padded(m))
  {
    hide Encipher, ToBytes, Header, Padded, PadLen, Cipher;
  }

  /** Decryption reads the first nine bytes, the vector and the data. */
  lemma ReservedIgnored(keys: seq<State>, c: seq<bv8>, e: seq<bv8>)
    requires |keys| >= 2 && |c| == |e| >= 32 && c[..9] == e[..9] && c[16..] == e[16..]
    ensures Decrypted(keys, c) == Decrypted(keys, e)
  {
    hide Decipher, FromBytes, Unpad, InvCipher, Int, UsesCbc;
    assert c[..6] == c[..9][..6] == e[..6];
    assert c[6] == c[..9][6] && e[6] == e[..9][6] && c[7] == c[..9][7] && e[7] == e[..9][7];
    assert c[8] == c[..9][8] && e[8] == e[..9][8];
    assert c[16..32] == c[16..][..16] == e[16..32] && c[32..] == c[16..][16..] == e[32..];
  }

  lemma AcceptedIsEncryption(keys: seq<State>, c: seq<bv8>, m: seq<bv8>)
    requires |keys| >= 2 && Decrypted(keys, c) == Success(m)
    ensures var options := HeaderOptions(c);
            ValidOptions(options) && Encrypts(keys, c, options, FromBytes(c[16..32]), m)
  {
    hide Encipher, Decipher, ToBytes, FromBytes, Unpad, Header, Padded, PadLen, Cipher, InvCipher, Int;
    var options, iv := HeaderOptions(c), FromBytes(c[16..32]);
    var cbc := UsesCbc(options);
    var p := Decipher(Decryption(keys), cbc, iv, c[32..]);
    PaddedUnpadded(p, c[8] == 1, m);
    forall s
      ensures Encryption(keys)(Decryption(keys)(s)) == s
    {
      CipherForward(keys, s);
    }
    EncipherDeciphered(Encryption(keys), Decryption(keys), cbc, iv, c[32..]);
    EncryptedShape(keys, options, iv, m);
    HeaderWritten(c);
    ToFromBytes(c[16..32]);
    var e := Encrypted(keys, options, iv, m);
    assert e[..9] == e[..16][..9];
    assert c[16..] == c[16..32] + c[32..] && e[16..] == e[16..32] + e[32..];
  }

  /** oaes_decrypt accepts exactly the encryptions: it returns m if and only if its input is, apart
      from the seven reserved bytes, what oaes_encrypt makes of m with ECB or CBC and some vector. */
  lemma DecryptedExactly(keys: seq<State>, c: seq<bv8>, m: seq<bv8>)
    requires |keys| >= 2
    ensures Decrypted(keys, c) == Success(m) <==>
            exists options: nat, iv: State {:trigger Encrypts(keys, c, options, iv, m)} ::
              (options == 1 || options == 2) && Encrypts(keys, c, options, iv, m)
  {
    hide Decrypted, Encrypted;
    if Decrypted(keys, c) == Success(m) {
      AcceptedIsEncryption(keys, c, m);
    }
    forall options: nat, iv: State | (options == 1 || options == 2) && Encrypts(keys, c, options, iv, m)
      ensures Decrypted(keys, c) == Success(m)
    {
      ReservedIgnored(keys, c, Encrypted(keys, options, iv, m));
      EncryptionRoundTrip(keys, options, iv, m);
    }
  }

  lemma PrefixFacts(h: seq<bv8>, v: seq<bv8>, b: seq<bv8>)
    requires |h| == |v| == 16 && |b| % 16 == 0
    ensures var c := h + v + b;
            && |c| % 16 == 0 && |c| >= 32 && c[..6] == h[..6] && c[6] == h[6] && c[7] == h[7] && c[8] == h[8]
            && c[16..32] == v && c[32..] == b
  {
  }

  // ---- The code

  /** Bytes i .. i+15 of the padded message, as the block buffer is filled. */
  method FillBlock(m: seq<bv8>, i: nat) returns (block: seq<bv8>)
    requires i % 16 == 0 && i < |Padded(m)|
    ensures |block| == 16 && block == Padded(m)[i..i + 16]
  {
    hide Byte;
    var size := if |m| - i < 16 then |m| - i else 16;
    block := m[i..i + size];
    var j := 0;
    while j < 16 - size
      invariant 0 <= j <= 16 - size && |block| == size + j
      invariant block == Padded(m)[i..i + size + j]
    {
      block := block + [Byte(j + 1)];
      assert Padded(m)[i + size + j] == PadBytes(PadLen(|m|))[i + size + j - |m|];
      j := j + 1;
    }
  }

  lemma EncipherStep(enc: State -> State, cbc: bool, iv: State, p: seq<bv8>, i: nat)
    requires |p| % 16 == 0 && i % 16 == 0 && i < |p|
    ensures i + 16 <= |p| && (|p| - i) % 16 == 0 && (|p| - i - 16) % 16 == 0
    ensures var x := enc(Chained(cbc, FromBytes(p[i..i + 16]), iv));
            && Encipher(enc, cbc, iv, p[i..]) == ToBytes(x) + Encipher(enc, cbc, Carried(cbc, x, iv), p[i + 16..])
            && NextIv(enc, cbc, iv, p[i..]) == NextIv(enc, cbc, Carried(cbc, x, iv), p[i + 16..])
  {
    hide Chained, Carried, ToBytes, FromBytes;
    assert p[i..][..16] == p[i..i + 16] && p[i..][16..] == p[i + 16..];
  }

  lemma DecipherStep(dec: State -> State, cbc: bool, iv: State, c: seq<bv8>, i: nat)
    requires |c| % 16 == 0 && i % 16 == 0 && i < |c|
    ensures i + 16 <= |c| && (|c| - i) % 16 == 0 && (|c| - i - 16) % 16 == 0
    ensures var block := FromBytes(c[i..i + 16]);
            Decipher(dec, cbc, iv, c[i..]) ==
            ToBytes(Chained(cbc, dec(block), iv)) + Decipher(dec, cbc, Carried(cbc, block, iv), c[i + 16..])
  {
    hide Chained, Carried, ToBytes, FromBytes;
    assert c[i..][..16] == c[i..i + 16] && c[i..][16..] == c[i + 16..];
  }

  /** An OAES_CTX with its key expanded. */
  class Context {
    const keys: seq<State>
    const options: nat
    var iv: State

    ghost predicate Valid()
    {
      |keys| >= 2 && options < 0x1_0000
    }

    constructor (keys: seq<State>, options: nat, iv: State)
      requires |keys| >= 2 && options < 0x1_0000
      ensures Valid() && this.keys == keys && this.options == options && this.iv == iv
    {
      this.keys := keys;
      this.options := options;
      this.iv := iv;
    }

    /** oaes_encrypt into a large enough buffer.  In CBC mode the context's vector moves on. */
    method Encrypt(m: seq<bv8>) returns (c: seq<bv8>)
      requires Valid()
      modifies this`iv
      ensures c == Encrypted(keys, options, old(iv), m)
      ensures iv == NextIv(Encryption(keys), UsesCbc(options), old(iv), Padded(m))
    {
      hide Cipher, ToBytes, FromBytes, Padded, PadLen, Chained, Carried, Header, Encipher, NextIv, UsesCbc, XorState;
      ghost var p, enc, cbc, iv0 := Padded(m), Encryption(keys), UsesCbc(options), iv;
      var dataLen := |m| + PadLen(|m|);
      c := Header(options, PadLen(|m|) != 0) + ToBytes(iv);
      ghost var front := c;
      var i := 0;
      var data := [];
      assert p[0..] == p;
      while i < dataLen
        invariant 0 <= i <= dataLen && i % 16 == 0 && (dataLen - i) % 16 == 0
        invariant Encipher(enc, cbc, iv0, p) == data + Encipher(enc, cbc, iv, p[i..])
        invariant NextIv(enc, cbc, iv0, p) == NextIv(enc, cbc, iv, p[i..])
      {
        EncipherStep(enc, cbc, iv, p, i);
        var bytes := FillBlock(m, i);
        var block := FromBytes(bytes);
        block := Chained(UsesCbc(options), block, iv);
        block := EncryptBlock(keys, block);
        data := data + ToBytes(block);
        iv := Carried(UsesCbc(options), block, iv);
        i := i + 16;
      }
      EmptyTail(enc, cbc, iv, p, i);
      c := c + data;
      assert c == front + Encipher(enc, cbc, iv0, p);
    }

    /** oaes_decrypt into a large enough buffer. */
    method Decrypt(c: seq<bv8>) returns (r: Result<seq<bv8>>)
      requires Valid()
      ensures r == Decrypted(keys, c)
    {
      hide InvCipher, ToBytes, FromBytes, Chained, Carried, Decipher, Unpad, HeaderOptions, UsesCbc;
      if |c| % 16 != 0 {
        return Failure(BadLength);
      }
      if |c| < 32 {
        return Failure(BadBuffer);
      }
      var opts := HeaderOptions(c);
      if c[..6] != MAGIC || !ValidOptions(opts) || (c[8] != 0 && c[8] != 1) {
        return Failure(BadHeader);
      }
      var v := FromBytes(c[16..32]);
      var body := c[32..];
      ghost var dec, cbc := Decryption(keys), UsesCbc(opts);
      var m := [];
      var i := 0;
      assert body[0..] == body;
      while i < |body|
        invariant 0 <= i <= |body| && i % 16 == 0
        invariant Decipher(dec, cbc, FromBytes(c[16..32]), body) == m + Decipher(dec, cbc, v, body[i..])
      {
        DecipherStep(dec, cbc, v, body, i);
        var block := FromBytes(body[i..i + 16]);
        var x := DecryptBlock(keys, block);
        m := m + ToBytes(Chained(UsesCbc(opts), x, v));
        v := Carried(UsesCbc(opts), block, v);
        i := i + 16;
      }
      assert |Decipher(dec, cbc, v, body[i..])| == |body[i..]| == 0;
      assert m == Decipher(dec, cbc, FromBytes(c[16..32]), body);
      r := Unpad(m, c[8] == 1);
    }
  }

  lemma EmptyTail(enc: State -> State, cbc: bool, iv: State, p: seq<bv8>, i: nat)
    requires i == |p|
    ensures p[i..] == [] && Encipher(enc, cbc, iv, p[i..]) == [] && NextIv(enc, cbc, iv, p[i..]) == iv
  {
  }
}
