/** The Salsa20/8 example of section 8 of RFC 7914, run through the scalar core. */
module SalsaExample {
  import opened Scrypt
  import opened Salsa

  /** The input of the example: its 64 bytes as little-endian words. */
  function Input(): Block
  {
    Block(Row(0x219a877e, 0x86c93e4f, 0xe640a97c, 0x268f7141),
          Row(0x5b55eeba, 0xb5c1618c, 0x1146f80d, 0x1d3bcd6d),
          Row(0x19f324ee, 0x853d9bdf, 0x4b1e1214, 0x32aac55a),
          Row(0x291d0276, 0x2948c709, 0x8dc6ebed, 0x5ec2b8b8))
  }

  // The working state after two, four, six and eight rounds

  function AfterTwo(): Block
  {
    Block(Row(0x482665b1, 0xe6b639e8, 0x5528d0b6, 0x7163bf72),
          Row(0x93580e01, 0x0c50b5fd, 0xea23785c, 0xead125ec),
          Row(0xf701a95d, 0xd590a7ea, 0x209aedeb, 0x965705b9),
          Row(0xd6e1a597, 0x6f4dbdbc, 0x53299386, 0x10a42604))
  }

  function AfterFour(): Block
  {
    Block(Row(0xe9e67835, 0x5a0e63c0, 0x85bf1cf2, 0xbce03a58),
          Row(0x95e02c9d, 0x10a33116, 0x91024ee3, 0xa399c709),
          Row(0x678d68da, 0x70e69077, 0x3dffe364, 0xc393c734),
          Row(0xf3fc17d5, 0x8805fb7c, 0x4e709f83, 0x64b0ce84))
  }

  function AfterSix(): Block
  {
    Block(Row(0x28f2a180, 0x5e3bb01c, 0x03040a5c, 0x69e5ea6b),
          Row(0x997f9f3c, 0x1c650ad9, 0x9a28760a, 0x1c5778b3),
          Row(0x89e18946, 0x5055ce7c, 0x3fec3108, 0x20123a83),
          Row(0x764c0e51, 0x44dda9f5, 0xf8616b01, 0x5632c6dc))
  }

  function AfterEight(): Block
  {
    Block(Row(0x7aea9826, 0x1302ca17, 0xe589d7bf, 0xdf5f9ac1),
          Row(0x25cb5c4a, 0xc7729c16, 0x51d583f0, 0x0bf39b29),
          Row(0x4e3e14c6, 0x37a92e04, 0x6ca759ea, 0x87eba846),
          Row(0xe7af226e, 0x332bca23, 0xafa0c137, 0x22cca90f))
  }

  /** The output the RFC gives. */
  function Output(): Block
  {
    Block(Row(0x9c851fa4, 0x99cc0866, 0xcbca813b, 0x05ef0c02),
          Row(0x81214b04, 0x7d33fda2, 0x631c7bfd, 0x292f6896),
          Row(0x683139b4, 0xbce6c9e3, 0xb7c56bfe, 0xba966da0),
          Row(0x10cc24e4, 0x5c74912c, 0x3d67ad24, 0x818f61c7))
  }

  lemma Rounds0()
    ensures DoubleRound(Input()) == AfterTwo()
  {
  }

  lemma Rounds2()
    ensures DoubleRound(AfterTwo()) == AfterFour()
  {
  }

  lemma Rounds4()
    ensures DoubleRound(AfterFour()) == AfterSix()
  {
  }

  lemma Rounds6()
    ensures DoubleRound(AfterSix()) == AfterEight()
  {
  }

  lemma Feedforward()
    ensures AddBlock(Input(), AfterEight()) == Output()
  {
  }

  lemma FourDoubleRounds(s: Block)
    ensures DoubleRounds(s, 4) == DoubleRound(DoubleRound(DoubleRound(DoubleRound(s))))
  {
    hide DoubleRound;
    assert DoubleRounds(s, 0) == s;
    assert DoubleRounds(s, 1) == DoubleRound(s);
    assert DoubleRounds(s, 2) == DoubleRound(DoubleRound(s));
    assert DoubleRounds(s, 3) == DoubleRound(DoubleRound(DoubleRound(s)));
  }

  /** salsa_core_basic on the example's input gives the example's output. */
  lemma CoreOfExample()
    ensures Core(Input()) == Output()
  {
    hide DoubleRound, AddBlock, Input, AfterTwo, AfterFour, AfterSix, AfterEight, Output;
    Rounds0();
    Rounds2();
    Rounds4();
    Rounds6();
    FourDoubleRounds(Input());
    Feedforward();
  }
}
