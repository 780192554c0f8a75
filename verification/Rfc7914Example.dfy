/** The example of section 8 of RFC 7914: one Salsa20/8 core, computed from the definition. */
module Rfc7914Example {
  import opened Words
  import opened Fips180
  import opened Rfc7914

  const M0: Matrix := Matrix(
    0x219a877e, 0x86c93e4f, 0xe640a97c, 0x268f7141,
    0x5b55eeba, 0xb5c1618c, 0x1146f80d, 0x1d3bcd6d,
    0x19f324ee, 0x853d9bdf, 0x4b1e1214, 0x32aac55a,
    0x291d0276, 0x2948c709, 0x8dc6ebed, 0x5ec2b8b8)
  const C0: Matrix := Matrix(
    0x08857f83, 0xbc4dffa4, 0x225a0768, 0x90307809,
    0x0091149f, 0xc3e54d59, 0xd113843e, 0xfb5a4eb0,
    0x4ecb1eaa, 0xc0727641, 0x6585dfa2, 0x6a7df42b,
    0xaf742b9d, 0x4ee75de5, 0xbf43fb43, 0x55af2fd9)
  const M1: Matrix := Matrix(
    0x482665b1, 0xe6b639e8, 0x5528d0b6, 0x7163bf72,
    0x93580e01, 0x0c50b5fd, 0xea23785c, 0xead125ec,
    0xf701a95d, 0xd590a7ea, 0x209aedeb, 0x965705b9,
    0xd6e1a597, 0x6f4dbdbc, 0x53299386, 0x10a42604)
  const C1: Matrix := Matrix(
    0xb4cf7248, 0xb8e79720, 0x3e130cef, 0x0cf661a1,
    0x175daa0e, 0xde3bd4f1, 0x5dbd3119, 0xdfde6fd7,
    0xff1ed7e2, 0x56e75513, 0xd8b882ab, 0x0c781823,
    0x46dfa758, 0x1f5b9d7a, 0x0c1ab003, 0x0f4f975e)
  const M2: Matrix := Matrix(
    0xe9e67835, 0x5a0e63c0, 0x85bf1cf2, 0xbce03a58,
    0x95e02c9d, 0x10a33116, 0x91024ee3, 0xa399c709,
    0x678d68da, 0x70e69077, 0x3dffe364, 0xc393c734,
    0xf3fc17d5, 0x8805fb7c, 0x4e709f83, 0x64b0ce84)
  const C2: Matrix := Matrix(
    0xfbef1227, 0x12c789d1, 0x56808ce8, 0x9eaae64c,
    0x64a829f3, 0x43dbdd85, 0xd82bca5e, 0x14f0670f,
    0x7ac93847, 0x282cfb42, 0x60e759d5, 0xaa38b147,
    0xdfbb4c3b, 0x285d4b0d, 0xcf69bc64, 0x05ea3220)
  const M3: Matrix := Matrix(
    0x28f2a180, 0x5e3bb01c, 0x03040a5c, 0x69e5ea6b,
    0x997f9f3c, 0x1c650ad9, 0x9a28760a, 0x1c5778b3,
    0x89e18946, 0x5055ce7c, 0x3fec3108, 0x20123a83,
    0x764c0e51, 0x44dda9f5, 0xf8616b01, 0x5632c6dc)
  const C3: Matrix := Matrix(
    0xb0e98b83, 0x346a63e9, 0x3d22e238, 0x4b6545d0,
    0x062877f3, 0x1abe5aed, 0x22bcf3e0, 0x2c4e21f0,
    0xbfd36f18, 0x0008b4c1, 0x678d4e77, 0x4cea3475,
    0x0aad76ee, 0x9fa29dcd, 0xf232e26c, 0x0fa7223d)
  const M4: Matrix := Matrix(
    0x7aea9826, 0x1302ca17, 0xe589d7bf, 0xdf5f9ac1,
    0x25cb5c4a, 0xc7729c16, 0x51d583f0, 0x0bf39b29,
    0x4e3e14c6, 0x37a92e04, 0x6ca759ea, 0x87eba846,
    0xe7af226e, 0x332bca23, 0xafa0c137, 0x22cca90f)
  const CORE: Matrix := Matrix(
    0x9c851fa4, 0x99cc0866, 0xcbca813b, 0x05ef0c02,
    0x81214b04, 0x7d33fda2, 0x631c7bfd, 0x292f6896,
    0x683139b4, 0xbce6c9e3, 0xb7c56bfe, 0xba966da0,
    0x10cc24e4, 0x5c74912c, 0x3d67ad24, 0x818f61c7)

  lemma Columns0()
    ensures ColumnRound(M0) == C0
  {
  }

  lemma Rows0()
    ensures RowRound(C0) == M1
  {
  }

  lemma Columns1()
    ensures ColumnRound(M1) == C1
  {
  }

  lemma Rows1()
    ensures RowRound(C1) == M2
  {
  }

  lemma Columns2()
    ensures ColumnRound(M2) == C2
  {
  }

  lemma Rows2()
    ensures RowRound(C2) == M3
  {
  }

  lemma Columns3()
    ensures ColumnRound(M3) == C3
  {
  }

  lemma Rows3()
    ensures RowRound(C3) == M4
  {
  }

  lemma FourDoubleRounds()
    ensures DoubleRounds(M0, 4) == M4
  {
    Columns0();
    Rows0();
    Columns1();
    Rows1();
    Columns2();
    Rows2();
    Columns3();
    Rows3();
    hide RowRound, ColumnRound;
    assert DoubleRounds(M0, 1) == M1;
    assert DoubleRounds(M0, 2) == M2;
    assert DoubleRounds(M0, 3) == M3;
  }

  /** The sums of the input and what the rounds make of it. */
  lemma AddedUp(b: Block, m: Matrix)
    ensures var r, x := AddWords(b, WordsOf(m)), MatrixOf(b);
      |r| == 16 && MatrixOf(r) == Matrix(
        Add32(x.x0, m.x0), Add32(x.x1, m.x1), Add32(x.x2, m.x2), Add32(x.x3, m.x3),
        Add32(x.x4, m.x4), Add32(x.x5, m.x5), Add32(x.x6, m.x6), Add32(x.x7, m.x7),
        Add32(x.x8, m.x8), Add32(x.x9, m.x9), Add32(x.x10, m.x10), Add32(x.x11, m.x11),
        Add32(x.x12, m.x12), Add32(x.x13, m.x13), Add32(x.x14, m.x14), Add32(x.x15, m.x15))
  {
    hide Add32;
  }

  lemma ReadBack(m: Matrix)
    ensures MatrixOf(WordsOf(m)) == m
  {
  }

  lemma {:induction false} WriteBack(b: Block)
    ensures WordsOf(MatrixOf(b)) == b
  {
  }

  /** The input and the output of the example. */
  lemma CoreOfExample()
    ensures Salsa208(WordsOf(M0)) == WordsOf(CORE)
  {
    FourDoubleRounds();
    ReadBack(M0);
    AddedUp(WordsOf(M0), M4);
    hide DoubleRounds, AddWords, WordsOf, MatrixOf;
    WriteBack(Salsa208(WordsOf(M0)));
  }
}
