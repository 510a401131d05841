/**
  The S-box and its inverse from crypto/oaes_lib.c, entry by entry in index order, selected by the
  bits of the byte (z7 says that the highest bit is zero), and multiplication in GF(2^8) as in
  section 4.2 of FIPS 197.
 */
module AesTables {

  /** oaes_sub_byte */
  function Sub(x: bv8): bv8
  {
    var (z7, z6, z5, z4) := (x & 0x80 == 0, x & 0x40 == 0, x & 0x20 == 0, x & 0x10 == 0);
    var (z3, z2, z1, z0) := (x & 8 == 0, x & 4 == 0, x & 2 == 0, x & 1 == 0);
    if z7 then
      if z6 then
        if z5 then
          if z4 then
            if z3 then (if z2 then (if z1 then (if z0 then 0x63 else 0x7c) else (if z0 then 0x77 else 0x7b)) else (if z1 then (if z0 then 0xf2 else 0x6b) else (if z0 then 0x6f else 0xc5)))
            else (if z2 then (if z1 then (if z0 then 0x30 else 0x01) else (if z0 then 0x67 else 0x2b)) else (if z1 then (if z0 then 0xfe else 0xd7) else (if z0 then 0xab else 0x76)))
          else
            if z3 then (if z2 then (if z1 then (if z0 then 0xca else 0x82) else (if z0 then 0xc9 else 0x7d)) else (if z1 then (if z0 then 0xfa else 0x59) else (if z0 then 0x47 else 0xf0)))
            else (if z2 then (if z1 then (if z0 then 0xad else 0xd4) else (if z0 then 0xa2 else 0xaf)) else (if z1 then (if z0 then 0x9c else 0xa4) else (if z0 then 0x72 else 0xc0)))
        else
          if z4 then
            if z3 then (if z2 then (if z1 then (if z0 then 0xb7 else 0xfd) else (if z0 then 0x93 else 0x26)) else (if z1 then (if z0 then 0x36 else 0x3f) else (if z0 then 0xf7 else 0xcc)))
            else (if z2 then (if z1 then (if z0 then 0x34 else 0xa5) else (if z0 then 0xe5 else 0xf1)) else (if z1 then (if z0 then 0x71 else 0xd8) else (if z0 then 0x31 else 0x15)))
          else
            if z3 then (if z2 then (if z1 then (if z0 then 0x04 else 0xc7) else (if z0 then 0x23 else 0xc3)) else (if z1 then (if z0 then 0x18 else 0x96) else (if z0 then 0x05 else 0x9a)))
            else (if z2 then (if z1 then (if z0 then 0x07 else 0x12) else (if z0 then 0x80 else 0xe2)) else (if z1 then (if z0 then 0xeb else 0x27) else (if z0 then 0xb2 else 0x75)))
      else
        if z5 then
          if z4 then
            if z3 then (if z2 then (if z1 then (if z0 then 0x09 else 0x83) else (if z0 then 0x2c else 0x1a)) else (if z1 then (if z0 then 0x1b else 0x6e) else (if z0 then 0x5a else 0xa0)))
            else (if z2 then (if z1 then (if z0 then 0x52 else 0x3b) else (if z0 then 0xd6 else 0xb3)) else (if z1 then (if z0 then 0x29 else 0xe3) else (if z0 then 0x2f else 0x84)))
          else
            if z3 then (if z2 then (if z1 then (if z0 then 0x53 else 0xd1) else (if z0 then 0x00 else 0xed)) else (if z1 then (if z0 then 0x20 else 0xfc) else (if z0 then 0xb1 else 0x5b)))
            else (if z2 then (if z1 then (if z0 then 0x6a else 0xcb) else (if z0 then 0xbe else 0x39)) else (if z1 then (if z0 then 0x4a else 0x4c) else (if z0 then 0x58 else 0xcf)))
        else
          if z4 then
            if z3 then (if z2 then (if z1 then (if z0 then 0xd0 else 0xef) else (if z0 then 0xaa else 0xfb)) else (if z1 then (if z0 then 0x43 else 0x4d) else (if z0 then 0x33 else 0x85)))
            else (if z2 then (if z1 then (if z0 then 0x45 else 0xf9) else (if z0 then 0x02 else 0x7f)) else (if z1 then (if z0 then 0x50 else 0x3c) else (if z0 then 0x9f else 0xa8)))
          else
            if z3 then (if z2 then (if z1 then (if z0 then 0x51 else 0xa3) else (if z0 then 0x40 else 0x8f)) else (if z1 then (if z0 then 0x92 else 0x9d) else (if z0 then 0x38 else 0xf5)))
            else (if z2 then (if z1 then (if z0 then 0xbc else 0xb6) else (if z0 then 0xda else 0x21)) else (if z1 then (if z0 then 0x10 else 0xff) else (if z0 then 0xf3 else 0xd2)))
    else
      if z6 then
        if z5 then
          if z4 then
            if z3 then (if z2 then (if z1 then (if z0 then 0xcd else 0x0c) else (if z0 then 0x13 else 0xec)) else (if z1 then (if z0 then 0x5f else 0x97) else (if z0 then 0x44 else 0x17)))
            else (if z2 then (if z1 then (if z0 then 0xc4 else 0xa7) else (if z0 then 0x7e else 0x3d)) else (if z1 then (if z0 then 0x64 else 0x5d) else (if z0 then 0x19 else 0x73)))
          else
            if z3 then (if z2 then (if z1 then (if z0 then 0x60 else 0x81) else (if z0 then 0x4f else 0xdc)) else (if z1 then (if z0 then 0x22 else 0x2a) else (if z0 then 0x90 else 0x88)))
            else (if z2 then (if z1 then (if z0 then 0x46 else 0xee) else (if z0 then 0xb8 else 0x14)) else (if z1 then (if z0 then 0xde else 0x5e) else (if z0 then 0x0b else 0xdb)))
        else
          if z4 then
            if z3 then (if z2 then (if z1 then (if z0 then 0xe0 else 0x32) else (if z0 then 0x3a else 0x0a)) else (if z1 then (if z0 then 0x49 else 0x06) else (if z0 then 0x24 else 0x5c)))
            else (if z2 then (if z1 then (if z0 then 0xc2 else 0xd3) else (if z0 then 0xac else 0x62)) else (if z1 then (if z0 then 0x91 else 0x95) else (if z0 then 0xe4 else 0x79)))
          else
            if z3 then (if z2 then (if z1 then (if z0 then 0xe7 else 0xc8) else (if z0 then 0x37 else 0x6d)) else (if z1 then (if z0 then 0x8d else 0xd5) else (if z0 then 0x4e else 0xa9)))
            else (if z2 then (if z1 then (if z0 then 0x6c else 0x56) else (if z0 then 0xf4 else 0xea)) else (if z1 then (if z0 then 0x65 else 0x7a) else (if z0 then 0xae else 0x08)))
      else
        if z5 then
          if z4 then
            if z3 then (if z2 then (if z1 then (if z0 then 0xba else 0x78) else (if z0 then 0x25 else 0x2e)) else (if z1 then (if z0 then 0x1c else 0xa6) else (if z0 then 0xb4 else 0xc6)))
            else (if z2 then (if z1 then (if z0 then 0xe8 else 0xdd) else (if z0 then 0x74 else 0x1f)) else (if z1 then (if z0 then 0x4b else 0xbd) else (if z0 then 0x8b else 0x8a)))
          else
            if z3 then (if z2 then (if z1 then (if z0 then 0x70 else 0x3e) else (if z0 then 0xb5 else 0x66)) else (if z1 then (if z0 then 0x48 else 0x03) else (if z0 then 0xf6 else 0x0e)))
            else (if z2 then (if z1 then (if z0 then 0x61 else 0x35) else (if z0 then 0x57 else 0xb9)) else (if z1 then (if z0 then 0x86 else 0xc1) else (if z0 then 0x1d else 0x9e)))
        else
          if z4 then
            if z3 then (if z2 then (if z1 then (if z0 then 0xe1 else 0xf8) else (if z0 then 0x98 else 0x11)) else (if z1 then (if z0 then 0x69 else 0xd9) else (if z0 then 0x8e else 0x94)))
            else (if z2 then (if z1 then (if z0 then 0x9b else 0x1e) else (if z0 then 0x87 else 0xe9)) else (if z1 then (if z0 then 0xce else 0x55) else (if z0 then 0x28 else 0xdf)))
          else
            if z3 then (if z2 then (if z1 then (if z0 then 0x8c else 0xa1) else (if z0 then 0x89 else 0x0d)) else (if z1 then (if z0 then 0xbf else 0xe6) else (if z0 then 0x42 else 0x68)))
            else (if z2 then (if z1 then (if z0 then 0x41 else 0x99) else (if z0 then 0x2d else 0x0f)) else (if z1 then (if z0 then 0xb0 else 0x54) else (if z0 then 0xbb else 0x16)))
  }

  /** oaes_inv_sub_byte */
  function InvSub(x: bv8): bv8
  {
    var (z7, z6, z5, z4) := (x & 0x80 == 0, x & 0x40 == 0, x & 0x20 == 0, x & 0x10 == 0);
    var (z3, z2, z1, z0) := (x & 8 == 0, x & 4 == 0, x & 2 == 0, x & 1 == 0);
    if z7 then
      if z6 then
        if z5 then
          if z4 then
            if z3 then (if z2 then (if z1 then (if z0 then 0x52 else 0x09) else (if z0 then 0x6a else 0xd5)) else (if z1 then (if z0 then 0x30 else 0x36) else (if z0 then 0xa5 else 0x38)))
            else (if z2 then (if z1 then (if z0 then 0xbf else 0x40) else (if z0 then 0xa3 else 0x9e)) else (if z1 then (if z0 then 0x81 else 0xf3) else (if z0 then 0xd7 else 0xfb)))
          else
            if z3 then (if z2 then (if z1 then (if z0 then 0x7c else 0xe3) else (if z0 then 0x39 else 0x82)) else (if z1 then (if z0 then 0x9b else 0x2f) else (if z0 then 0xff else 0x87)))
            else (if z2 then (if z1 then (if z0 then 0x34 else 0x8e) else (if z0 then 0x43 else 0x44)) else (if z1 then (if z0 then 0xc4 else 0xde) else (if z0 then 0xe9 else 0xcb)))
        else
          if z4 then
            if z3 then (if z2 then (if z1 then (if z0 then 0x54 else 0x7b) else (if z0 then 0x94 else 0x32)) else (if z1 then (if z0 then 0xa6 else 0xc2) else (if z0 then 0x23 else 0x3d)))
            else (if z2 then (if z1 then (if z0 then 0xee else 0x4c) else (if z0 then 0x95 else 0x0b)) else (if z1 then (if z0 then 0x42 else 0xfa) else (if z0 then 0xc3 else 0x4e)))
          else
            if z3 then (if z2 then (if z1 then (if z0 then 0x08 else 0x2e) else (if z0 then 0xa1 else 0x66)) else (if z1 then (if z0 then 0x28 else 0xd9) else (if z0 then 0x24 else 0xb2)))
            else (if z2 then (if z1 then (if z0 then 0x76 else 0x5b) else (if z0 then 0xa2 else 0x49)) else (if z1 then (if z0 then 0x6d else 0x8b) else (if z0 then 0xd1 else 0x25)))
      else
        if z5 then
          if z4 then
            if z3 then (if z2 then (if z1 then (if z0 then 0x72 else 0xf8) else (if z0 then 0xf6 else 0x64)) else (if z1 then (if z0 then 0x86 else 0x68) else (if z0 then 0x98 else 0x16)))
            else (if z2 then (if z1 then (if z0 then 0xd4 else 0xa4) else (if z0 then 0x5c else 0xcc)) else (if z1 then (if z0 then 0x5d else 0x65) else (if z0 then 0xb6 else 0x92)))
          else
            if z3 then (if z2 then (if z1 then (if z0 then 0x6c else 0x70) else (if z0 then 0x48 else 0x50)) else (if z1 then (if z0 then 0xfd else 0xed) else (if z0 then 0xb9 else 0xda)))
            else (if z2 then (if z1 then (if z0 then 0x5e else 0x15) else (if z0 then 0x46 else 0x57)) else (if z1 then (if z0 then 0xa7 else 0x8d) else (if z0 then 0x9d else 0x84)))
        else
          if z4 then
            if z3 then (if z2 then (if z1 then (if z0 then 0x90 else 0xd8) else (if z0 then 0xab else 0x00)) else (if z1 then (if z0 then 0x8c else 0xbc) else (if z0 then 0xd3 else 0x0a)))
            else (if z2 then (if z1 then (if z0 then 0xf7 else 0xe4) else (if z0 then 0x58 else 0x05)) else (if z1 then (if z0 then 0xb8 else 0xb3) else (if z0 then 0x45 else 0x06)))
          else
            if z3 then (if z2 then (if z1 then (if z0 then 0xd0 else 0x2c) else (if z0 then 0x1e else 0x8f)) else (if z1 then (if z0 then 0xca else 0x3f) else (if z0 then 0x0f else 0x02)))
            else (if z2 then (if z1 then (if z0 then 0xc1 else 0xaf) else (if z0 then 0xbd else 0x03)) else (if z1 then (if z0 then 0x01 else 0x13) else (if z0 then 0x8a else 0x6b)))
    else
      if z6 then
        if z5 then
          if z4 then
            if z3 then (if z2 then (if z1 then (if z0 then 0x3a else 0x91) else (if z0 then 0x11 else 0x41)) else (if z1 then (if z0 then 0x4f else 0x67) else (if z0 then 0xdc else 0xea)))
            else (if z2 then (if z1 then (if z0 then 0x97 else 0xf2) else (if z0 then 0xcf else 0xce)) else (if z1 then (if z0 then 0xf0 else 0xb4) else (if z0 then 0xe6 else 0x73)))
          else
            if z3 then (if z2 then (if z1 then (if z0 then 0x96 else 0xac) else (if z0 then 0x74 else 0x22)) else (if z1 then (if z0 then 0xe7 else 0xad) else (if z0 then 0x35 else 0x85)))
            else (if z2 then (if z1 then (if z0 then 0xe2 else 0xf9) else (if z0 then 0x37 else 0xe8)) else (if z1 then (if z0 then 0x1c else 0x75) else (if z0 then 0xdf else 0x6e)))
        else
          if z4 then
            if z3 then (if z2 then (if z1 then (if z0 then 0x47 else 0xf1) else (if z0 then 0x1a else 0x71)) else (if z1 then (if z0 then 0x1d else 0x29) else (if z0 then 0xc5 else 0x89)))
            else (if z2 then (if z1 then (if z0 then 0x6f else 0xb7) else (if z0 then 0x62 else 0x0e)) else (if z1 then (if z0 then 0xaa else 0x18) else (if z0 then 0xbe else 0x1b)))
          else
            if z3 then (if z2 then (if z1 then (if z0 then 0xfc else 0x56) else (if z0 then 0x3e else 0x4b)) else (if z1 then (if z0 then 0xc6 else 0xd2) else (if z0 then 0x79 else 0x20)))
            else (if z2 then (if z1 then (if z0 then 0x9a else 0xdb) else (if z0 then 0xc0 else 0xfe)) else (if z1 then (if z0 then 0x78 else 0xcd) else (if z0 then 0x5a else 0xf4)))
      else
        if z5 then
          if z4 then
            if z3 then (if z2 then (if z1 then (if z0 then 0x1f else 0xdd) else (if z0 then 0xa8 else 0x33)) else (if z1 then (if z0 then 0x88 else 0x07) else (if z0 then 0xc7 else 0x31)))
            else (if z2 then (if z1 then (if z0 then 0xb1 else 0x12) else (if z0 then 0x10 else 0x59)) else (if z1 then (if z0 then 0x27 else 0x80) else (if z0 then 0xec else 0x5f)))
          else
            if z3 then (if z2 then (if z1 then (if z0 then 0x60 else 0x51) else (if z0 then 0x7f else 0xa9)) else (if z1 then (if z0 then 0x19 else 0xb5) else (if z0 then 0x4a else 0x0d)))
            else (if z2 then (if z1 then (if z0 then 0x2d else 0xe5) else (if z0 then 0x7a else 0x9f)) else (if z1 then (if z0 then 0x93 else 0xc9) else (if z0 then 0x9c else 0xef)))
        else
          if z4 then
            if z3 then (if z2 then (if z1 then (if z0 then 0xa0 else 0xe0) else (if z0 then 0x3b else 0x4d)) else (if z1 then (if z0 then 0xae else 0x2a) else (if z0 then 0xf5 else 0xb0)))
            else (if z2 then (if z1 then (if z0 then 0xc8 else 0xeb) else (if z0 then 0xbb else 0x3c)) else (if z1 then (if z0 then 0x83 else 0x53) else (if z0 then 0x99 else 0x61)))
          else
            if z3 then (if z2 then (if z1 then (if z0 then 0x17 else 0x2b) else (if z0 then 0x04 else 0x7e)) else (if z1 then (if z0 then 0xba else 0x77) else (if z0 then 0xd6 else 0x26)))
            else (if z2 then (if z1 then (if z0 then 0xe1 else 0x69) else (if z0 then 0x14 else 0x63)) else (if z1 then (if z0 then 0x55 else 0x21) else (if z0 then 0x0c else 0x7d)))
  }

  /** The two S-boxes are inverse permutations of the bytes. */
  lemma SubInverse(x: bv8)
    ensures InvSub(Sub(x)) == x
  {
  }

  lemma InvSubInverse(x: bv8)
    ensures Sub(InvSub(x)) == x
  {
  }

  // ---- Multiplication modulo x^8 + x^4 + x^3 + x + 1

  function Xor8(x: bv8, y: bv8): bv8
  {
    x ^ y
  }

  /** Multiplication by x: shift, and subtract the modulus if the top bit t falls out;
      0x1b is 1 + 2 + 8 + 16. */
  function XTime(x: bv8): bv8
  {
    var t := x >> 7;
    (x << 1) ^ t ^ (t << 1) ^ (t << 3) ^ (t << 4)
  }

  /** oaes_gf_mul: the products that its tables hold; other multipliers leave the byte. */
  function GfMul(x: bv8, right: bv8): bv8
  {
    match right
    case 0x02 => XTime(x)
    case 0x03 => Xor8(XTime(x), x)
    case 0x09 => Xor8(XTime(XTime(XTime(x))), x)
    case 0x0b => Xor8(Xor8(XTime(XTime(XTime(x))), XTime(x)), x)
    case 0x0d => Xor8(Xor8(XTime(XTime(XTime(x))), XTime(XTime(x))), x)
    case 0x0e => Xor8(Xor8(XTime(XTime(XTime(x))), XTime(XTime(x))), XTime(x))
    case _ => x
  }

  lemma Xor8Commutes(x: bv8, y: bv8)
    ensures Xor8(x, y) == Xor8(y, x)
  {
  }

  lemma Xor8Associates(x: bv8, y: bv8, z: bv8)
    ensures Xor8(Xor8(x, y), z) == Xor8(x, Xor8(y, z))
  {
  }

  lemma Xor8Cancels(x: bv8, y: bv8)
    ensures Xor8(Xor8(x, y), y) == x
  {
  }

  /** (u + v) + (x + y) = (u + x) + (v + y) */
  lemma Exchange(u: bv8, v: bv8, x: bv8, y: bv8)
    ensures Xor8(Xor8(u, v), Xor8(x, y)) == Xor8(Xor8(u, x), Xor8(v, y))
  {
    hide Xor8;
    Xor8Associates(u, v, Xor8(x, y));
    Xor8Associates(v, x, y);
    Xor8Commutes(v, x);
    Xor8Associates(x, v, y);
    Xor8Associates(u, x, Xor8(v, y));
  }

  lemma XTimeLinear(x: bv8, y: bv8)
    ensures XTime(Xor8(x, y)) == Xor8(XTime(x), XTime(y))
  {
  }

  lemma SmallMulLinear(x: bv8, y: bv8)
    ensures GfMul(Xor8(x, y), 0x02) == Xor8(GfMul(x, 0x02), GfMul(y, 0x02))
    ensures GfMul(Xor8(x, y), 0x03) == Xor8(GfMul(x, 0x03), GfMul(y, 0x03))
  {
    hide Xor8, XTime;
    XTimeLinear(x, y);
    Exchange(XTime(x), XTime(y), x, y);
  }

  lemma MulLinear(x: bv8, y: bv8, k: bv8)
    requires k in {0x09, 0x0b, 0x0d, 0x0e}
    ensures GfMul(Xor8(x, y), k) == Xor8(GfMul(x, k), GfMul(y, k))
  {
    hide Xor8, XTime;
    var (x1, y1) := (XTime(x), XTime(y));
    var (x2, y2) := (XTime(x1), XTime(y1));
    var (x3, y3) := (XTime(x2), XTime(y2));
    XTimeLinear(x, y);
    XTimeLinear(x1, y1);
    XTimeLinear(x2, y2);
    Exchange(x3, y3, x, y);
    Exchange(x3, y3, x1, y1);
    Exchange(x3, y3, x2, y2);
    Exchange(Xor8(x3, x1), Xor8(y3, y1), x, y);
    Exchange(Xor8(x3, x2), Xor8(y3, y2), x, y);
    Exchange(Xor8(x3, x2), Xor8(y3, y2), x1, y1);
  }

  function Sum4(x: bv8, y: bv8, z: bv8, w: bv8): bv8
  {
    Xor8(Xor8(Xor8(x, y), z), w)
  }

  /** The first row of the inverse matrix times the columns of the matrix: 1, 0, 0, 0. */
  lemma Product0(x: bv8)
    ensures Sum4(GfMul(GfMul(x, 0x02), 0x0e), GfMul(x, 0x0b), GfMul(x, 0x0d), GfMul(GfMul(x, 0x03), 0x09)) == x
  {
  }

  lemma Product1(x: bv8)
    ensures Sum4(GfMul(GfMul(x, 0x03), 0x0e), GfMul(GfMul(x, 0x02), 0x0b), GfMul(x, 0x0d), GfMul(x, 0x09)) == 0
  {
  }

  lemma Product2(x: bv8)
    ensures Sum4(GfMul(x, 0x0e), GfMul(GfMul(x, 0x03), 0x0b), GfMul(GfMul(x, 0x02), 0x0d), GfMul(x, 0x09)) == 0
  {
  }

  lemma Product3(x: bv8)
    ensures Sum4(GfMul(x, 0x0e), GfMul(x, 0x0b), GfMul(GfMul(x, 0x03), 0x0d), GfMul(GfMul(x, 0x02), 0x09)) == 0
  {
  }

  lemma Sum4Exchange(a: bv8, b: bv8, c: bv8, d: bv8, e: bv8, f: bv8, g: bv8, h: bv8)
    ensures Xor8(Sum4(a, b, c, d), Sum4(e, f, g, h)) == Sum4(Xor8(a, e), Xor8(b, f), Xor8(c, g), Xor8(d, h))
  {
    hide Xor8;
    Exchange(Xor8(Xor8(a, b), c), d, Xor8(Xor8(e, f), g), h);
    Exchange(Xor8(a, b), c, Xor8(e, f), g);
    Exchange(a, b, e, f);
  }

  lemma Sum4Rotates(a: bv8, b: bv8, c: bv8, d: bv8)
    ensures Sum4(a, b, c, d) == Sum4(b, c, d, a)
  {
  }

  lemma MulSum4(a: bv8, b: bv8, c: bv8, d: bv8, k: bv8)
    requires k in {0x09, 0x0b, 0x0d, 0x0e}
    ensures GfMul(Sum4(a, b, c, d), k) == Sum4(GfMul(a, k), GfMul(b, k), GfMul(c, k), GfMul(d, k))
  {
    hide Xor8, GfMul;
    MulLinear(a, b, k);
    MulLinear(Xor8(a, b), c, k);
    MulLinear(Xor8(Xor8(a, b), c), d, k);
  }

  /** A sum of row sums is the sum of the column sums. */
  lemma Transpose(a0: bv8, a1: bv8, a2: bv8, a3: bv8, b0: bv8, b1: bv8, b2: bv8, b3: bv8,
                  c0: bv8, c1: bv8, c2: bv8, c3: bv8, d0: bv8, d1: bv8, d2: bv8, d3: bv8)
    ensures Sum4(Sum4(a0, a1, a2, a3), Sum4(b0, b1, b2, b3), Sum4(c0, c1, c2, c3), Sum4(d0, d1, d2, d3))
         == Sum4(Sum4(a0, b0, c0, d0), Sum4(a1, b1, c1, d1), Sum4(a2, b2, c2, d2), Sum4(a3, b3, c3, d3))
  {
    hide Xor8, Sum4;
    Sum4Is(Sum4(a0, a1, a2, a3), Sum4(b0, b1, b2, b3), Sum4(c0, c1, c2, c3), Sum4(d0, d1, d2, d3));
    Sum4Exchange(a0, a1, a2, a3, b0, b1, b2, b3);
    Sum4Exchange(Xor8(a0, b0), Xor8(a1, b1), Xor8(a2, b2), Xor8(a3, b3), c0, c1, c2, c3);
    Sum4Exchange(Xor8(Xor8(a0, b0), c0), Xor8(Xor8(a1, b1), c1), Xor8(Xor8(a2, b2), c2), Xor8(Xor8(a3, b3), c3),
                 d0, d1, d2, d3);
    Sum4Is(a0, b0, c0, d0);
    Sum4Is(a1, b1, c1, d1);
    Sum4Is(a2, b2, c2, d2);
    Sum4Is(a3, b3, c3, d3);
  }

  lemma Sum4Is(a: bv8, b: bv8, c: bv8, d: bv8)
    ensures Sum4(a, b, c, d) == Xor8(Xor8(Xor8(a, b), c), d)
  {
  }

  lemma Sum4OfOne(a: bv8)
    ensures Sum4(a, 0, 0, 0) == a
  {
  }

  /** The first row of InvMixColumns applied to MixColumns gives back the first byte. */
  lemma InverseRow(a: bv8, b: bv8, c: bv8, d: bv8)
    ensures Sum4(GfMul(Sum4(GfMul(a, 0x02), GfMul(b, 0x03), c, d), 0x0e),
                 GfMul(Sum4(a, GfMul(b, 0x02), GfMul(c, 0x03), d), 0x0b),
                 GfMul(Sum4(a, b, GfMul(c, 0x02), GfMul(d, 0x03)), 0x0d),
                 GfMul(Sum4(GfMul(a, 0x03), b, c, GfMul(d, 0x02)), 0x09)) == a
  {
    hide Xor8, Sum4, GfMul;
    var (a2, a3, b2, b3) := (GfMul(a, 0x02), GfMul(a, 0x03), GfMul(b, 0x02), GfMul(b, 0x03));
    var (c2, c3, d2, d3) := (GfMul(c, 0x02), GfMul(c, 0x03), GfMul(d, 0x02), GfMul(d, 0x03));
    MulSum4(a2, b3, c, d, 0x0e);
    MulSum4(a, b2, c3, d, 0x0b);
    MulSum4(a, b, c2, d3, 0x0d);
    MulSum4(a3, b, c, d2, 0x09);
    Transpose(GfMul(a2, 0x0e), GfMul(b3, 0x0e), GfMul(c, 0x0e), GfMul(d, 0x0e),
              GfMul(a, 0x0b), GfMul(b2, 0x0b), GfMul(c3, 0x0b), GfMul(d, 0x0b),
              GfMul(a, 0x0d), GfMul(b, 0x0d), GfMul(c2, 0x0d), GfMul(d3, 0x0d),
              GfMul(a3, 0x09), GfMul(b, 0x09), GfMul(c, 0x09), GfMul(d2, 0x09));
    Product0(a);
    Product1(b);
    Product2(c);
    Product3(d);
    Sum4OfOne(a);
  }

  // ---- The product of the matrices the other way round

  lemma SmallMulSum4(a: bv8, b: bv8, c: bv8, d: bv8)
    ensures GfMul(Sum4(a, b, c, d), 0x02) == Sum4(GfMul(a, 0x02), GfMul(b, 0x02), GfMul(c, 0x02), GfMul(d, 0x02))
    ensures GfMul(Sum4(a, b, c, d), 0x03) == Sum4(GfMul(a, 0x03), GfMul(b, 0x03), GfMul(c, 0x03), GfMul(d, 0x03))
  {
    hide Xor8, GfMul;
    SmallMulLinear(a, b);
    SmallMulLinear(Xor8(a, b), c);
    SmallMulLinear(Xor8(Xor8(a, b), c), d);
  }

  lemma BackProduct0(x: bv8)
    ensures Sum4(GfMul(GfMul(x, 0x0e), 0x02), GfMul(GfMul(x, 0x09), 0x03), GfMul(x, 0x0d), GfMul(x, 0x0b)) == x
  {
  }

  lemma BackProduct1(x: bv8)
    ensures Sum4(GfMul(GfMul(x, 0x0b), 0x02), GfMul(GfMul(x, 0x0e), 0x03), GfMul(x, 0x09), GfMul(x, 0x0d)) == 0
  {
  }

  lemma BackProduct2(x: bv8)
    ensures Sum4(GfMul(GfMul(x, 0x0d), 0x02), GfMul(GfMul(x, 0x0b), 0x03), GfMul(x, 0x0e), GfMul(x, 0x09)) == 0
  {
  }

  lemma BackProduct3(x: bv8)
    ensures Sum4(GfMul(GfMul(x, 0x09), 0x02), GfMul(GfMul(x, 0x0d), 0x03), GfMul(x, 0x0b), GfMul(x, 0x0e)) == 0
  {
  }

  /** The first row of MixColumns applied to InvMixColumns gives back the first byte. */
  lemma ForwardRow(a: bv8, b: bv8, c: bv8, d: bv8)
    ensures Sum4(GfMul(Sum4(GfMul(a, 0x0e), GfMul(b, 0x0b), GfMul(c, 0x0d), GfMul(d, 0x09)), 0x02),
                 GfMul(Sum4(GfMul(a, 0x09), GfMul(b, 0x0e), GfMul(c, 0x0b), GfMul(d, 0x0d)), 0x03),
                 Sum4(GfMul(a, 0x0d), GfMul(b, 0x09), GfMul(c, 0x0e), GfMul(d, 0x0b)),
                 Sum4(GfMul(a, 0x0b), GfMul(b, 0x0d), GfMul(c, 0x09), GfMul(d, 0x0e))) == a
  {
    hide Xor8, Sum4, GfMul;
    var (ae, ab, ad, a9) := (GfMul(a, 0x0e), GfMul(a, 0x0b), GfMul(a, 0x0d), GfMul(a, 0x09));
    var (be, bb, bd, b9) := (GfMul(b, 0x0e), GfMul(b, 0x0b), GfMul(b, 0x0d), GfMul(b, 0x09));
    var (ce, cb, cd, c9) := (GfMul(c, 0x0e), GfMul(c, 0x0b), GfMul(c, 0x0d), GfMul(c, 0x09));
    var (de, db, dd, d9) := (GfMul(d, 0x0e), GfMul(d, 0x0b), GfMul(d, 0x0d), GfMul(d, 0x09));
    SmallMulSum4(ae, bb, cd, d9);
    SmallMulSum4(a9, be, cb, dd);
    Transpose(GfMul(ae, 0x02), GfMul(bb, 0x02), GfMul(cd, 0x02), GfMul(d9, 0x02),
              GfMul(a9, 0x03), GfMul(be, 0x03), GfMul(cb, 0x03), GfMul(dd, 0x03),
              ad, b9, ce, db,
              ab, bd, c9, de);
    BackProduct0(a);
    BackProduct1(b);
    BackProduct2(c);
    BackProduct3(d);
    Sum4OfOne(a);
  }
}
