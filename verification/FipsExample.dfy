/** The first example of FIPS 180-4: the digest of "abc", computed from the definition, eight rounds at a time. */
module FipsExample {
  import opened Sequences
  import opened Words
  import opened Fips180

  type Row = w: seq<word> | |w| == 8 witness [0, 0, 0, 0, 0, 0, 0, 0]

  const ABC: seq<byte> := [0x61, 0x62, 0x63]
  const ABC_DIGEST: State := [
    0xba7816bf, 0x8f01cfea, 0x414140de, 0x5dae2223, 0xb00361a3, 0x96177a9c, 0xb410ff61, 0xf20015ad]

  /** The schedule word behind those it depends on. */
  function NextWord(w16: word, w15: word, w7: word, w2: word): word {
    Add32(Add32(Add32(SmallSigma1(w2), w7), SmallSigma0(w15)), w16)
  }

  /** The eight words of the schedule behind two times eight. */
  function NextRow(x: Row, y: Row): Row {
    var a := NextWord(x[0], x[1], y[1], y[6]);
    var b := NextWord(x[1], x[2], y[2], y[7]);
    var c := NextWord(x[2], x[3], y[3], a);
    var d := NextWord(x[3], x[4], y[4], b);
    var e := NextWord(x[4], x[5], y[5], c);
    var f := NextWord(x[5], x[6], y[6], d);
    var g := NextWord(x[6], x[7], y[7], e);
    [a, b, c, d, e, f, g, NextWord(x[7], y[0], a, f)]
  }

  /** Eight rounds. */
  function EightRounds(v: State, k: Row, w: Row): State {
    var v2 := Round(Round(v, k[0], w[0]), k[1], w[1]);
    var v4 := Round(Round(v2, k[2], w[2]), k[3], w[3]);
    var v6 := Round(Round(v4, k[4], w[4]), k[5], w[5]);
    Round(Round(v6, k[6], w[6]), k[7], w[7])
  }

  const W0: Row := [
    0x61626380, 0x00000000, 0x00000000, 0x00000000, 0x00000000, 0x00000000, 0x00000000, 0x00000000]
  const W1: Row := [
    0x00000000, 0x00000000, 0x00000000, 0x00000000, 0x00000000, 0x00000000, 0x00000000, 0x00000018]
  const W2: Row := [
    0x61626380, 0x000f0000, 0x7da86405, 0x600003c6, 0x3e9d7b78, 0x0183fc00, 0x12dcbfdb, 0xe2e2c38e]
  const W3: Row := [
    0xc8215c1a, 0xb73679a2, 0xe5bc3909, 0x32663c5b, 0x9d209d67, 0xec8726cb, 0x702138a4, 0xd3b7973b]
  const W4: Row := [
    0x93f5997f, 0x3b68ba73, 0xaff4ffc1, 0xf10a5c62, 0x0a8b3996, 0x72af830a, 0x9409e33e, 0x24641522]
  const W5: Row := [
    0x9f47bf94, 0xf0a64f5a, 0x3e246a79, 0x27333ba3, 0x0c4763f2, 0x840abf27, 0x7a290d5d, 0x065c43da]
  const W6: Row := [
    0xfb3e89cb, 0xcc7617db, 0xb9e66c34, 0xa9993667, 0x84badedd, 0xc21462bc, 0x1487472c, 0xb20f7a99]
  const W7: Row := [
    0xef57b9cd, 0xebe6b238, 0x9fe3095e, 0x78bc8d4b, 0xa43fcf15, 0x668b2ff8, 0xeeaba2cc, 0x12b1edeb]
  const V1: Row := [
    0x85a07b5f, 0xe5030380, 0x2b4209f5, 0x04409a6a, 0x0c657a79, 0x9b27a401, 0x714260ad, 0x43ada245]
  const V2: Row := [
    0xb0fa238e, 0xc0645fde, 0xd932eb16, 0x87912990, 0x07590dcd, 0x0b92f20c, 0x745a48de, 0x1e578218]
  const V3: Row := [
    0xc5d53d8d, 0xa7a3623f, 0xc2606d6d, 0x9dc68b63, 0xaa47c347, 0x49f5114a, 0xe1257970, 0x8ada8930]
  const V4: Row := [
    0x73b33bf5, 0xea992a22, 0xa0060b30, 0x363482c9, 0xba591112, 0x0109ab3a, 0xade79437, 0x6112a3b7]
  const V5: Row := [
    0x79ea687a, 0x6dc57a8a, 0x34df1604, 0x41a65cb1, 0x1efbc0a0, 0xf0781bc8, 0xa507a53d, 0x0772a26b]
  const V6: Row := [
    0x4172328d, 0xa14c14b0, 0x72ab4b91, 0x26628815, 0xfecf0bc6, 0xd57b94a9, 0xb7755da1, 0xa80f11f0]
  const V7: Row := [
    0x38cc9913, 0x3ec45cdb, 0xf5702fdb, 0x101fd28f, 0x54cb266b, 0xe50e1b4f, 0x9f4787c3, 0x529e7d00]
  const V8: Row := [
    0x506e3058, 0xd39a2165, 0x04d24d6c, 0xb85e2ce9, 0x5ef50f24, 0xfb121210, 0x948d25b6, 0x961f4894]
  lemma Words2()
    ensures NextRow(W0, W1) == W2
  {
  }

  lemma Words3()
    ensures NextRow(W1, W2) == W3
  {
  }

  lemma Words4()
    ensures NextRow(W2, W3) == W4
  {
  }

  lemma Words5()
    ensures NextRow(W3, W4) == W5
  {
  }

  lemma Words6()
    ensures NextRow(W4, W5) == W6
  {
  }

  lemma Words7()
    ensures NextRow(W5, W6) == W7
  {
  }

  lemma Rounds0()
    ensures EightRounds(H0, K0, W0) == V1
  {
  }

  lemma Rounds1()
    ensures EightRounds(V1, K1, W1) == V2
  {
  }

  lemma Rounds2()
    ensures EightRounds(V2, K2, W2) == V3
  {
  }

  lemma Rounds3()
    ensures EightRounds(V3, K3, W3) == V4
  {
  }

  lemma Rounds4()
    ensures EightRounds(V4, K4, W4) == V5
  {
  }

  lemma Rounds5()
    ensures EightRounds(V5, K5, W5) == V6
  {
  }

  lemma Rounds6()
    ensures EightRounds(V6, K6, W6) == V7
  {
  }

  lemma Rounds7()
    ensures EightRounds(V7, K7, W7) == V8
  {
  }

  /** One word more, given those that count for it. */
  lemma WordMore(b: Block, w: seq<word>, w16: word, w15: word, w7: word, w2: word)
    requires |w| >= 16 && w == Schedule(b, |w|)
    requires var n := |w|; w[n - 16] == w16 && w[n - 15] == w15 && w[n - 7] == w7 && w[n - 2] == w2
    ensures w + [NextWord(w16, w15, w7, w2)] == Schedule(b, |w| + 1)
  {
    hide SmallSigma0, SmallSigma1, Add32;
  }

  lemma {:induction false} RowStep(b: Block, p: seq<word>, s: seq<word>, i: nat)
    requires i < 8 && |s| == 24 && p + s[..16 + i] == Schedule(b, |p| + 16 + i)
    requires s[16 + i] == NextWord(s[i], s[i + 1], s[i + 9], s[i + 14])
    ensures p + s[..17 + i] == Schedule(b, |p| + 17 + i)
  {
    hide *;
    WordMore(b, p + s[..16 + i], s[i], s[i + 1], s[i + 9], s[i + 14]);
    assert p + s[..17 + i] == (p + s[..16 + i]) + [s[16 + i]];
  }

  lemma {:induction false} Window(x: seq<word>, y: seq<word>, z: seq<word>, i: nat)
    requires |x| == |y| == |z| == 8 && i < 8
    ensures var s := x + y + z;
      && s[16 + i] == z[i] && s[i] == x[i] && s[i + 1] == (if i < 7 then x[i + 1] else y[0])
      && s[i + 9] == (if i < 7 then y[i + 1] else z[0]) && s[i + 14] == if i < 2 then y[i + 6] else z[i - 2]
  {
  }

  lemma NextRowWords(x: Row, y: Row, i: nat)
    requires i < 8
    ensures var s := x + y + NextRow(x, y); s[16 + i] == NextWord(s[i], s[i + 1], s[i + 9], s[i + 14])
  {
    hide *;
    var z := NextRow(x, y);
    RowWords(x, y, z);
    Window(x, y, z, i);
    var s := x + y + z;
    if i == 0 {
    } else if i == 1 {
    } else if i == 2 {
    } else if i == 3 {
    } else if i == 4 {
    } else if i == 5 {
    } else if i == 6 {
    } else {
    }
  }

  lemma RowWords(x: Row, y: Row, z: Row)
    requires z == NextRow(x, y)
    ensures z[0] == NextWord(x[0], x[1], y[1], y[6]) && z[1] == NextWord(x[1], x[2], y[2], y[7])
    ensures z[2] == NextWord(x[2], x[3], y[3], z[0]) && z[3] == NextWord(x[3], x[4], y[4], z[1])
    ensures z[4] == NextWord(x[4], x[5], y[5], z[2]) && z[5] == NextWord(x[5], x[6], y[6], z[3])
    ensures z[6] == NextWord(x[6], x[7], y[7], z[4]) && z[7] == NextWord(x[7], y[0], z[0], z[5])
  {
    hide NextWord;
  }

  /** Eight words more are the next row. */
  lemma RowMore(b: Block, p: seq<word>, x: Row, y: Row)
    requires p + x + y == Schedule(b, |p| + 16)
    ensures p + x + y + NextRow(x, y) == Schedule(b, |p| + 24)
  {
    hide *;
    var s := x + y + NextRow(x, y);
    assert s[..16] == x + y && p + s[..16] == p + x + y;
    for i := 0 to 8
      invariant p + s[..16 + i] == Schedule(b, |p| + 16 + i)
    {
      NextRowWords(x, y, i);
      RowStep(b, p, s, i);
    }
    assert p + s[..24] == p + x + y + NextRow(x, y);
  }

  lemma RoundMore(h: State, w: seq<word>, n: nat, k: Row, x: Row)
    requires n + 8 <= 64 <= |w|
    requires forall i :: 0 <= i < 8 ==> K[n + i] == k[i] && w[n + i] == x[i]
    ensures Rounds(h, w, n + 8) == EightRounds(Rounds(h, w, n), k, x)
  {
    OneRound(h, w, n, k[0], x[0]);
    OneRound(h, w, n + 1, k[1], x[1]);
    OneRound(h, w, n + 2, k[2], x[2]);
    OneRound(h, w, n + 3, k[3], x[3]);
    OneRound(h, w, n + 4, k[4], x[4]);
    OneRound(h, w, n + 5, k[5], x[5]);
    OneRound(h, w, n + 6, k[6], x[6]);
    OneRound(h, w, n + 7, k[7], x[7]);
    hide Round, Rounds;
  }

  lemma OneRound(h: State, w: seq<word>, n: nat, k: word, x: word)
    requires n < 64 <= |w| && K[n] == k && w[n] == x
    ensures Rounds(h, w, n + 1) == Round(Rounds(h, w, n), k, x)
  {
    hide Round;
  }

  /** Eight rows one after the other. */
  function Rows(a: Row, b: Row, c: Row, d: Row, e: Row, f: Row, g: Row, h: Row): (r: seq<word>)
    ensures |r| == 64
  {
    a + b + c + d + e + f + g + h
  }

  lemma {:induction false} RowsAt(a: Row, b: Row, c: Row, d: Row, e: Row, f: Row, g: Row, h: Row)
    ensures var r := Rows(a, b, c, d, e, f, g, h);
      && (forall i :: 0 <= i < 8 ==> r[i] == a[i]) && (forall i :: 0 <= i < 8 ==> r[8 + i] == b[i])
      && (forall i :: 0 <= i < 8 ==> r[16 + i] == c[i]) && (forall i :: 0 <= i < 8 ==> r[24 + i] == d[i])
      && (forall i :: 0 <= i < 8 ==> r[32 + i] == e[i]) && (forall i :: 0 <= i < 8 ==> r[40 + i] == f[i])
      && (forall i :: 0 <= i < 8 ==> r[48 + i] == g[i]) && (forall i :: 0 <= i < 8 ==> r[56 + i] == h[i])
  {
  }

  lemma ConstantRows()
    ensures K == Rows(K0, K1, K2, K3, K4, K5, K6, K7)
  {
  }

  lemma AllWords(b: Block, w0: Row, w1: Row, w2: Row, w3: Row, w4: Row, w5: Row, w6: Row, w7: Row)
    requires b == w0 + w1 && w2 == NextRow(w0, w1) && w3 == NextRow(w1, w2) && w4 == NextRow(w2, w3)
    requires w5 == NextRow(w3, w4) && w6 == NextRow(w4, w5) && w7 == NextRow(w5, w6)
    ensures Schedule(b, 64) == Rows(w0, w1, w2, w3, w4, w5, w6, w7)
  {
    assert Schedule(b, 16) == b && [] + w0 == w0;
    hide Schedule, NextRow;
    RowMore(b, [], w0, w1);
    RowMore(b, w0, w1, w2);
    RowMore(b, w0 + w1, w2, w3);
    RowMore(b, w0 + w1 + w2, w3, w4);
    RowMore(b, w0 + w1 + w2 + w3, w4, w5);
    RowMore(b, w0 + w1 + w2 + w3 + w4, w5, w6);
  }

  lemma AbcSchedule(b: Block)
    requires b == W0 + W1
    ensures Schedule(b, 64) == Rows(W0, W1, W2, W3, W4, W5, W6, W7)
  {
    hide *;
    Words2();
    Words3();
    Words4();
    Words5();
    Words6();
    Words7();
    AllWords(b, W0, W1, W2, W3, W4, W5, W6, W7);
  }

  lemma AllRounds(h: State, w0: Row, w1: Row, w2: Row, w3: Row, w4: Row, w5: Row, w6: Row, w7: Row)
    ensures var w := Rows(w0, w1, w2, w3, w4, w5, w6, w7);
      var v4 := EightRounds(EightRounds(EightRounds(EightRounds(h, K0, w0), K1, w1), K2, w2), K3, w3);
      Rounds(h, w, 64) == EightRounds(EightRounds(EightRounds(EightRounds(v4, K4, w4), K5, w5), K6, w6), K7, w7)
  {
    var w := Rows(w0, w1, w2, w3, w4, w5, w6, w7);
    assert Rounds(h, w, 0) == h;
    ConstantRows();
    hide *;
    RowsAt(K0, K1, K2, K3, K4, K5, K6, K7);
    RowsAt(w0, w1, w2, w3, w4, w5, w6, w7);
    RoundMore(h, w, 0, K0, w0);
    RoundMore(h, w, 8, K1, w1);
    RoundMore(h, w, 16, K2, w2);
    RoundMore(h, w, 24, K3, w3);
    RoundMore(h, w, 32, K4, w4);
    RoundMore(h, w, 40, K5, w5);
    RoundMore(h, w, 48, K6, w6);
    RoundMore(h, w, 56, K7, w7);
  }

  lemma AbcRounds()
    ensures Rounds(H0, Rows(W0, W1, W2, W3, W4, W5, W6, W7), 64) == V8
  {
    hide *;
    AllRounds(H0, W0, W1, W2, W3, W4, W5, W6, W7);
    Rounds0();
    Rounds1();
    Rounds2();
    Rounds3();
    Rounds4();
    Rounds5();
    Rounds6();
    Rounds7();
  }

  lemma WordsZero(n: nat)
    ensures WordsBE(Zeros(4 * n)) == seq(n, _ => 0)
  {
    if n == 0 {
    } else {
      WordsZero(n - 1);
      assert Zeros(4 * n)[4..] == Zeros(4 * (n - 1));
    }
  }

  lemma ShortNumber(n: nat, b: byte)
    requires n < 256 && n as byte == b
    ensures BE32(n) == [0, 0, 0, b]
  {
    assert n / 0x100_0000 == 0 && n / 0x1_0000 == 0 && n / 0x100 == 0 && n % 0x100 == n;
  }

  lemma Literals()
    ensures 0 as byte == 0 && 24 as byte == 24
  {
  }

  lemma LengthField()
    ensures BE64(24) == [0, 0, 0, 0, 0, 0, 0, 24]
  {
    hide *;
    Literals();
    ShortNumber(0, 0);
    ShortNumber(24, 24);
    LongNumber(24);
  }

  lemma LongNumber(n: nat)
    requires n < 0x1_0000_0000
    ensures BE64(n) == BE32(0) + BE32(n)
  {
    hide BE32;
  }

  lemma AbcPadding()
    ensures ABC + Padding(3) == [0x61, 0x62, 0x63, 0x80] + Zeros(52) + [0, 0, 0, 0, 0, 0, 0, 24]
  {
    hide BE64, Zeros;
    LengthField();
    var l: seq<byte> := [0, 0, 0, 0, 0, 0, 0, 24];
    assert Padding(3) == [0x80] + Zeros(52) + l;
    assert ABC + [0x80] == [0x61, 0x62, 0x63, 0x80];
    Associative([0x80], Zeros(52), l);
    Associative(ABC, [0x80], Zeros(52) + l);
    Associative(ABC + [0x80], Zeros(52), l);
  }

  lemma AbcWord()
    ensures WordsBE([0x61, 0x62, 0x63, 0x80]) == [0x61626380]
  {
  }

  lemma LengthWords()
    ensures WordsBE([0, 0, 0, 0, 0, 0, 0, 24]) == [0, 24]
  {
    var l: seq<byte> := [0, 0, 0, 0, 0, 0, 0, 24];
    assert l[4..] == [0, 0, 0, 24];
  }

  lemma AbcRows()
    ensures [0x61626380] + seq(13, _ => 0) + [0, 24] == W0 + W1
  {
  }

  /** The message as one padded block. */
  lemma AbcBlock()
    ensures BlockWords(ABC + Padding(3)) == W0 + W1
  {
    hide *;
    AbcPadding();
    var a, z, l: seq<byte> := [0x61, 0x62, 0x63, 0x80], Zeros(52), [0, 0, 0, 0, 0, 0, 0, 24];
    AbcWord();
    WordsZero(13);
    LengthWords();
    WordsBEConcat(a, z);
    WordsBEConcat(a + z, l);
    AbcRows();
  }

  lemma AbcDigest()
    ensures AddStates(H0, V8) == ABC_DIGEST
  {
  }

  lemma OneBlock(m: seq<byte>, b: Block)
    requires BlockWords(m + Padding(|m|)) == b
    ensures Sha256(m) == BytesBE(AddStates(H0, Rounds(H0, Schedule(b, 64), 64)))
  {
    hide AddStates, Rounds, Schedule, Padding, BlockWords;
    FoldOne(H0, b);
  }

  /** The words of the digest of "abc". */
  lemma Sha256OfAbc()
    ensures Sha256(ABC) == BytesBE(ABC_DIGEST)
  {
    hide *;
    AbcBlock();
    OneBlock(ABC, W0 + W1);
    AbcSchedule(W0 + W1);
    AbcRounds();
    AbcDigest();
  }
}
