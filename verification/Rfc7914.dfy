/** scrypt as RFC 7914 defines it (sections 3 to 6). */
module Rfc7914 {
  import opened Words
  import opened Fips180
  import opened Rfc8018
  import opened ByteValues

  /** The sixteen words of a Salsa20 matrix. */
  datatype Matrix = Matrix(x0: word, x1: word, x2: word, x3: word, x4: word, x5: word, x6: word, x7: word,
                           x8: word, x9: word, x10: word, x11: word, x12: word, x13: word, x14: word, x15: word)

  datatype Quad = Quad(a: word, b: word, c: word, d: word)

  /** a ^ ((b + c) <<< n). */
  function Quarter(a: word, b: word, c: word, n: bv6): word
    requires n <= 32
  {
    a ^ (((b + c) << n) | ((b + c) >> (32 - n)))
  }

  function QuarterRound(y: Quad): Quad {
    var z1 := Quarter(y.b, y.a, y.d, 7);
    var z2 := Quarter(y.c, z1, y.a, 9);
    var z3 := Quarter(y.d, z2, z1, 13);
    Quad(Quarter(y.a, z3, z2, 18), z1, z2, z3)
  }

  function ColumnRound(y: Matrix): Matrix {
    var p := QuarterRound(Quad(y.x0, y.x4, y.x8, y.x12));
    var q := QuarterRound(Quad(y.x5, y.x9, y.x13, y.x1));
    var r := QuarterRound(Quad(y.x10, y.x14, y.x2, y.x6));
    var s := QuarterRound(Quad(y.x15, y.x3, y.x7, y.x11));
    Matrix(p.a, q.d, r.c, s.b, p.b, q.a, r.d, s.c, p.c, q.b, r.a, s.d, p.d, q.c, r.b, s.a)
  }

  function RowRound(y: Matrix): Matrix {
    var p := QuarterRound(Quad(y.x0, y.x1, y.x2, y.x3));
    var q := QuarterRound(Quad(y.x5, y.x6, y.x7, y.x4));
    var r := QuarterRound(Quad(y.x10, y.x11, y.x8, y.x9));
    var s := QuarterRound(Quad(y.x15, y.x12, y.x13, y.x14));
    Matrix(p.a, p.b, p.c, p.d, q.d, q.a, q.b, q.c, r.c, r.d, r.a, r.b, s.b, s.c, s.d, s.a)
  }

  function DoubleRounds(y: Matrix, n: nat): Matrix {
    if n == 0 then y else RowRound(ColumnRound(DoubleRounds(y, n - 1)))
  }

  function MatrixOf(b: Block): Matrix {
    Matrix(b[0], b[1], b[2], b[3], b[4], b[5], b[6], b[7], b[8], b[9], b[10], b[11], b[12], b[13], b[14], b[15])
  }

  function WordsOf(m: Matrix): Block {
    [m.x0, m.x1, m.x2, m.x3, m.x4, m.x5, m.x6, m.x7, m.x8, m.x9, m.x10, m.x11, m.x12, m.x13, m.x14, m.x15]
  }

  function AddWords(a: seq<word>, b: seq<word>): (r: seq<word>)
    requires |a| == |b|
    ensures |r| == |a|
  {
    seq(|a|, i requires 0 <= i < |a| => Add32(a[i], b[i]))
  }

  function XorWords(a: seq<word>, b: seq<word>): (r: seq<word>)
    requires |a| == |b|
    ensures |r| == |a|
  {
    seq(|a|, i requires 0 <= i < |a| => Xor32(a[i], b[i]))
  }

  /** Section 3: the Salsa20/8 core, on little-endian words. */
  function Salsa208(b: Block): Block {
    AddWords(b, WordsOf(DoubleRounds(MatrixOf(b), 4)))
  }

  /** Step 2 of section 4: every block chained through the core, starting from x. */
  function Chain(x: Block, bs: seq<Block>): (ys: seq<Block>)
    ensures |ys| == |bs|
    decreases |bs|
  {
    if |bs| == 0 then []
    else
      var y := Salsa208(XorWords(x, bs[0]));
      [y] + Chain(y, bs[1..])
  }

  function Evens(ys: seq<Block>): (r: seq<Block>)
    ensures |r| == (|ys| + 1) / 2
  {
    if |ys| == 0 then [] else if |ys| == 1 then [ys[0]] else [ys[0]] + Evens(ys[2..])
  }

  function Odds(ys: seq<Block>): (r: seq<Block>)
    ensures |r| == |ys| / 2
  {
    if |ys| <= 1 then [] else [ys[1]] + Odds(ys[2..])
  }

  /** Section 4: scryptBlockMix on 2r blocks. */
  function BlockMix(bs: seq<Block>): (r: seq<Block>)
    requires |bs| > 0
    ensures |r| == |bs|
  {
    var ys := Chain(bs[|bs| - 1], bs);
    Evens(ys) + Odds(ys)
  }

  /** The 2r = 2 blocks of a 32-word string, and back. */
  type Vector = v: seq<word> | |v| == 32 witness seq(32, _ => 0)

  function BlockMix1(x: Vector): Vector {
    var y := BlockMix([x[..16], x[16..]]);
    var lo: seq<word>, hi: seq<word> := y[0], y[1];
    lo + hi
  }

  /** Integerify of section 5: the last 64-byte block as a little-endian integer. */
  function Integerify(x: Vector): nat {
    LittleEndian(BytesLE(x[16..]))
  }

  /** V_i of step 2 of section 5. */
  function Fill(b: Vector, i: nat): Vector {
    if i == 0 then b else BlockMix1(Fill(b, i - 1))
  }

  /** X after i iterations of step 3 of section 5. */
  function MixLoop(b: Vector, n: nat, i: nat): Vector
    requires n > 0
  {
    if i == 0 then Fill(b, n)
    else
      var x := MixLoop(b, n, i - 1);
      BlockMix1(XorWords(x, Fill(b, Integerify(x) % n)))
  }

  /** Section 5: scryptROMix with r = 1. */
  function RoMix(b: Vector, n: nat): Vector
    requires n > 0
  {
    MixLoop(b, n, n)
  }

  /** Section 6: scrypt with r = 1, p = 1. */
  function Scrypt(p: seq<byte>, s: seq<byte>, n: nat, dkLen: nat): (r: seq<byte>)
    requires n > 0 && dkLen <= 32 * 0xffff_ffff
    ensures |r| == dkLen
  {
    Pbkdf2(p, BytesLE(RoMix(WordsLE(Pbkdf2(p, s, 1, 128)), n)), 1, dkLen)
  }

  /** For r = 1 the mix is two cores: the new first block, then the new second. */
  lemma BlockMixIsTwoCores(x: Vector)
    ensures BlockMix1(x)
      == Salsa208(XorWords(x[16..], x[..16])) + Salsa208(XorWords(Salsa208(XorWords(x[16..], x[..16])), x[16..]))
  {
    hide Salsa208, XorWords;
    var a, b: Block := x[..16], x[16..];
    var y0 := Salsa208(XorWords(b, a));
    var y1 := Salsa208(XorWords(y0, b));
    assert [a, b][1..] == [b] && [b][1..] == [];
    assert Chain(b, [a, b]) == [y0] + Chain(y0, [b]);
    assert Chain(y0, [b]) == [y1] + Chain(y1, []);
    assert Chain(b, [a, b]) == [y0, y1];
    assert [y0, y1][2..] == [];
    assert Evens([y0, y1]) == [y0] + Evens([]) && Odds([y0, y1]) == [y1] + Odds([]);
    assert BlockMix([a, b]) == [y0, y1];
  }
}
