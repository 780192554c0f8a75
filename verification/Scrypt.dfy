/** The scrypt of scrypt.c: salsa20_8 and the two-way-unrolled ROMix over one flat scratchpad. */
module Scrypt {
  import opened Words
  import opened Fips180
  import opened Rfc8018
  import opened Rfc7914
  import opened Division
  import opened ScryptIndex
  import opened ScryptKdf

  const N: nat := 1024

  /** One pass of the loop of salsa20_8: columns, then rows, each four quarter-rounds interleaved. */
  method DoubleRound(y: Matrix) returns (z: Matrix)
    ensures z == RowRound(ColumnRound(y))
  {
    hide Quarter;
    var x00, x01, x02, x03 := y.x0, y.x1, y.x2, y.x3;
    var x04, x05, x06, x07 := y.x4, y.x5, y.x6, y.x7;
    var x08, x09, x10, x11 := y.x8, y.x9, y.x10, y.x11;
    var x12, x13, x14, x15 := y.x12, y.x13, y.x14, y.x15;
    x04 := Quarter(x04, x00, x12, 7);
    x09 := Quarter(x09, x05, x01, 7);
    x14 := Quarter(x14, x10, x06, 7);
    x03 := Quarter(x03, x15, x11, 7);
    x08 := Quarter(x08, x04, x00, 9);
    x13 := Quarter(x13, x09, x05, 9);
    x02 := Quarter(x02, x14, x10, 9);
    x07 := Quarter(x07, x03, x15, 9);
    x12 := Quarter(x12, x08, x04, 13);
    x01 := Quarter(x01, x13, x09, 13);
    x06 := Quarter(x06, x02, x14, 13);
    x11 := Quarter(x11, x07, x03, 13);
    x00 := Quarter(x00, x12, x08, 18);
    x05 := Quarter(x05, x01, x13, 18);
    x10 := Quarter(x10, x06, x02, 18);
    x15 := Quarter(x15, x11, x07, 18);

    x01 := Quarter(x01, x00, x03, 7);
    x06 := Quarter(x06, x05, x04, 7);
    x11 := Quarter(x11, x10, x09, 7);
    x12 := Quarter(x12, x15, x14, 7);
    x02 := Quarter(x02, x01, x00, 9);
    x07 := Quarter(x07, x06, x05, 9);
    x08 := Quarter(x08, x11, x10, 9);
    x13 := Quarter(x13, x12, x15, 9);
    x03 := Quarter(x03, x02, x01, 13);
    x04 := Quarter(x04, x07, x06, 13);
    x09 := Quarter(x09, x08, x11, 13);
    x14 := Quarter(x14, x13, x12, 13);
    x00 := Quarter(x00, x03, x02, 18);
    x05 := Quarter(x05, x04, x07, 18);
    x10 := Quarter(x10, x09, x08, 18);
    x15 := Quarter(x15, x14, x13, 18);
    z := Matrix(x00, x01, x02, x03, x04, x05, x06, x07, x08, x09, x10, x11, x12, x13, x14, x15);
  }

  /** B[i] ^= Bx[i] for the sixteen words. */
  method XorInto(x: array<word>, b: nat, bx: nat)
    requires b + 16 <= x.Length && bx + 16 <= x.Length && (b + 16 <= bx || bx + 16 <= b)
    modifies x
    ensures x[..] == old(x[..b]) + XorWords(old(x[b..b + 16]), old(x[bx..bx + 16])) + old(x[b + 16..])
  {
    hide Xor32;
    ghost var t := XorWords(x[b..b + 16], x[bx..bx + 16]);
    for i := 0 to 16
      invariant forall k :: 0 <= k < x.Length ==> x[k] == if b <= k < b + i then t[k - b] else old(x[k])
    {
      x[b + i] := Xor32(x[b + i], x[bx + i]);
    }
  }

  /** B[i] += x_i for the sixteen words. */
  method AddMatrix(x: array<word>, b: nat, m: Matrix)
    requires b + 16 <= x.Length
    modifies x
    ensures x[..] == old(x[..b]) + AddWords(old(x[b..b + 16]), WordsOf(m)) + old(x[b + 16..])
  {
    hide Add32;
    var ws := WordsOf(m);
    hide WordsOf;
    ghost var t := AddWords(x[b..b + 16], ws);
    for i := 0 to 16
      invariant forall k :: 0 <= k < x.Length ==> x[k] == if b <= k < b + i then t[k - b] else old(x[k])
    {
      x[b + i] := Add32(x[b + i], ws[i]);
    }
  }

  /** salsa20_8: the core of the exclusive or of two blocks, in place over the first. */
  method Salsa20_8(x: array<word>, b: nat, bx: nat)
    requires b + 16 <= x.Length && bx + 16 <= x.Length && (b + 16 <= bx || bx + 16 <= b)
    modifies x
    ensures x[..] == old(x[..b]) + Salsa208(XorWords(old(x[b..b + 16]), old(x[bx..bx + 16]))) + old(x[b + 16..])
  {
    hide XorWords, AddWords, MatrixOf, WordsOf, RowRound, ColumnRound;
    ghost var t := XorWords(x[b..b + 16], x[bx..bx + 16]);
    XorInto(x, b, bx);
    ghost var after := x[..];
    assert after[b..b + 16] == t && after[..b] == old(x[..b]) && after[b + 16..] == old(x[b + 16..]);
    var m := MatrixOf(x[b..b + 16]);
    var i := 0;
    while i < 8
      invariant 0 <= i <= 8 && i % 2 == 0 && x[..] == after
      invariant m == DoubleRounds(MatrixOf(t), i / 2)
    {
      m := DoubleRound(m);
      assert (i + 2) / 2 == i / 2 + 1;
      i := i + 2;
    }
    assert x[b..b + 16] == after[b..b + 16] && x[..b] == after[..b] && x[b + 16..] == after[b + 16..];
    AddMatrix(x, b, m);
  }

  /** The pair of in-place calls that scrypt.c makes after every store or xor is one block mix. */
  method BlockMixInPlace(x: array<word>)
    requires x.Length == 32
    modifies x
    ensures x[..] == BlockMix1(old(x[..]))
  {
    hide XorWords, Salsa208, BlockMix1;
    XorCommutes(x[..16], x[16..]);
    BlockMixIsTwoCores(x[..]);
    ghost var v := x[..];
    assert x[0..0 + 16] == v[..16] && x[16..16 + 16] == v[16..];
    Salsa20_8(x, 0, 16);
    ghost var y0 := Salsa208(XorWords(v[..16], v[16..]));
    assert x[0..0 + 16] == y0 && x[16..16 + 16] == v[16..];
    XorCommutes(v[16..], y0);
    Salsa20_8(x, 16, 0);
  }

  lemma XorCommutes(a: seq<word>, b: seq<word>)
    requires |a| == |b|
    ensures XorWords(a, b) == XorWords(b, a)
  {
    forall i | 0 <= i < |a|
      ensures XorWords(a, b)[i] == XorWords(b, a)[i]
    {
      XorCommutesWord(a[i], b[i]);
      hide Xor32;
    }
  }

  lemma XorCommutesWord(a: word, b: word)
    ensures Xor32(a, b) == Xor32(b, a)
  {
  }

  /** The 64-bit view of two neighbouring words on a little-endian host. */
  function Join64(lo: word, hi: word): bv64 { ((hi as bv64) << 32) | (lo as bv64) }
  function Low64(q: bv64): word { (q & 0xffff_ffff) as word }
  function High64(q: bv64): word { (q >> 32) as word }

  /** One 64-bit exclusive or is two 32-bit ones. */
  lemma WideXor(a: word, b: word, c: word, d: word)
    ensures Low64(Join64(a, b) ^ Join64(c, d)) == Xor32(a, c)
    ensures High64(Join64(a, b) ^ Join64(c, d)) == Xor32(b, d)
  {
  }

  /** One 64-bit exclusive or, on the two words it covers. */
  method XorPair(a0: word, a1: word, b0: word, b1: word) returns (c0: word, c1: word)
    ensures c0 == Xor32(a0, b0) && c1 == Xor32(a1, b1)
  {
    hide Xor32, Low64, High64, Join64;
    var q := Join64(a0, a1) ^ Join64(b0, b1);
    WideXor(a0, a1, b0, b1);
    c0, c1 := Low64(q), High64(q);
  }

  /** p1[k] ^= p2[k] over sixteen 64-bit words. */
  method XorWide(x: array<word>, v: array<word>, off: nat)
    requires x.Length == 32 && off + 32 <= v.Length && x != v
    modifies x
    ensures x[..] == XorWords(old(x[..]), v[off..off + 32])
  {
    hide Xor32;
    ghost var t := XorWords(x[..], v[off..off + 32]);
    for k := 0 to 16
      invariant forall i :: 0 <= i < 32 ==> x[i] == if i < 2 * k then t[i] else old(x[i])
    {
      var i := 2 * k;
      x[i], x[i + 1] := XorPair(x[i], x[i + 1], v[off + i], v[off + i + 1]);
    }
    assert x[..] == t;
  }

  /** Slot k of the scratchpad. */
  function Slot(v: seq<word>, k: nat): Vector
    requires 32 * k + 32 <= |v|
  {
    v[32 * k..32 * k + 32]
  }

  /** memcpy(&V[i * 32], X, 128). */
  method StoreSlot(v: array<word>, i: nat, x: array<word>, ghost n: nat)
    requires x.Length == 32 && v.Length == 32 * n && i < n && v != x
    modifies v
    ensures Slot(v[..], i) == x[..]
    ensures forall k :: 0 <= k < n && k != i ==> Slot(v[..], k) == Slot(old(v[..]), k)
  {
    CopyWords(v, 32 * i, x, 0, 32);
  }

  /** V[k] holds V_k for every k below i. */
  ghost predicate Filled(v: seq<word>, b: Vector, n: nat, i: nat) {
    |v| == 32 * n && i <= n && forall k :: 0 <= k < i ==> Slot(v, k) == Fill(b, k)
  }

  /** Half an iteration of the first loop: store X, mix X. */
  method FillStep(x: array<word>, v: array<word>, i: nat, ghost n: nat, ghost b: Vector)
    requires x.Length == 32 && v.Length == 32 * n && v != x && i < n
    requires Filled(v[..], b, n, i) && x[..] == Fill(b, i)
    modifies x, v
    ensures Filled(v[..], b, n, i + 1) && x[..] == Fill(b, i + 1)
  {
    hide BlockMix1, Slot;
    StoreSlot(v, i, x, n);
    BlockMixInPlace(x);
  }

  /** Half an iteration of the second loop: xor the indexed slot in, mix X. V is indexed within its n slots. */
  method MixStep(x: array<word>, v: array<word>, mask: word, ghost i: nat, ghost k: nat, ghost b: Vector)
    requires k <= 32 && mask == MaskOf(k) && x.Length == 32 && v.Length == 32 * Pow2(k) && v != x
    requires Filled(v[..], b, Pow2(k), Pow2(k)) && x[..] == MixLoop(b, Pow2(k), i)
    modifies x
    ensures x[..] == MixLoop(b, Pow2(k), i + 1)
  {
    hide BlockMix1, ValueOf, Integerify, Fill, Pow2, MaskOf;
    ghost var y := x[..];
    IndexIsIntegerify(y, k);
    var j := ValueOf(x[16] & mask);
    assert Slot(v[..], j) == v[32 * j..32 * j + 32];
    XorWide(x, v, 32 * j);
    BlockMixInPlace(x);
  }

  /** One iteration of the first loop. */
  method FillPair(x: array<word>, v: array<word>, i: nat, ghost n: nat, ghost b: Vector)
    requires x.Length == 32 && v.Length == 32 * n && v != x && i + 2 <= n
    requires Filled(v[..], b, n, i) && x[..] == Fill(b, i)
    modifies x, v
    ensures Filled(v[..], b, n, i + 2) && x[..] == Fill(b, i + 2)
  {
    hide *;
    FillStep(x, v, i, n, b);
    FillStep(x, v, i + 1, n, b);
  }

  /** One iteration of the second loop. */
  method MixPair(x: array<word>, v: array<word>, mask: word, ghost i: nat, ghost k: nat, ghost b: Vector)
    requires k <= 32 && mask == MaskOf(k) && x.Length == 32 && v.Length == 32 * Pow2(k) && v != x
    requires Filled(v[..], b, Pow2(k), Pow2(k)) && x[..] == MixLoop(b, Pow2(k), i)
    modifies x
    ensures x[..] == MixLoop(b, Pow2(k), i + 2)
  {
    hide *;
    MixStep(x, v, mask, i, k, b);
    MixStep(x, v, mask, i + 1, k, b);
  }

  /** The first loop, two slots an iteration. */
  method FillLoop(x: array<word>, v: array<word>, n: nat, ghost b: Vector)
    requires n % 2 == 0 && x.Length == 32 && v.Length == 32 * n && v != x
    requires Filled(v[..], b, n, 0) && x[..] == Fill(b, 0)
    modifies x, v
    ensures Filled(v[..], b, n, n) && x[..] == Fill(b, n)
  {
    hide *;
    var i := 0;
    while i < n
      invariant 0 <= i <= n && i % 2 == 0
      invariant Filled(v[..], b, n, i) && x[..] == Fill(b, i)
    {
      FillPair(x, v, i, n, b);
      i := i + 2;
    }
  }

  /** The second loop, two steps an iteration. */
  method MixPairs(x: array<word>, v: array<word>, n: nat, mask: word, ghost k: nat, ghost b: Vector)
    requires n % 2 == 0 && k <= 32 && n == Pow2(k) && mask == MaskOf(k)
    requires x.Length == 32 && v.Length == 32 * n && v != x
    requires Filled(v[..], b, n, n) && x[..] == MixLoop(b, n, 0)
    modifies x
    ensures x[..] == MixLoop(b, n, n)
  {
    hide *;
    var i := 0;
    while i < n
      invariant 0 <= i <= n && i % 2 == 0
      invariant x[..] == MixLoop(b, n, i)
    {
      MixPair(x, v, mask, i, k, b);
      i := i + 2;
    }
  }

  /**
   * The two loops of scrypt_1024_1_1_256_sp over one flat scratchpad, for any n that is a power of two from 2 to 2^32
   * and the mask that goes with it.
   */
  method RoMixInPlace(x: array<word>, v: array<word>, n: nat, mask: word, ghost k: nat)
    requires 1 <= k <= 32 && n == Pow2(k) && mask == MaskOf(k)
    requires x.Length == 32 && v.Length == 32 * n && v != x
    modifies x, v
    ensures x[..] == RoMix(old(x[..]), n)
  {
    ghost var b: Vector := x[..];
    FillStart(v[..], b, n);
    MixStart(b, n);
    Even(k);
    hide Fill, Filled, MixLoop, Pow2, MaskOf;
    FillLoop(x, v, n, b);
    MixPairs(x, v, n, mask, k, b);
  }

  lemma Even(k: nat)
    requires k > 0
    ensures Pow2(k) % 2 == 0
  {
    var half := Pow2(k - 1);
    assert Pow2(k) == 2 * half;
  }

  lemma FillStart(v: seq<word>, b: Vector, n: nat)
    requires |v| == 32 * n
    ensures Filled(v, b, n, 0) && Fill(b, 0) == b
  {
  }

  lemma MixStart(b: Vector, n: nat)
    requires n > 0
    ensures MixLoop(b, n, 0) == Fill(b, n)
  {
    hide Fill;
  }

  /** scrypt_1024_1_1_256_sp: scrypt with the 80-byte input as password and salt, N = 1024, r = p = 1. */
  method Scrypt_1024_1_1_256_sp(input: array<word>, v: array<word>, ostate: array<word>)
    requires input.Length == 20 && v.Length == 32 * N && ostate.Length == 8
    requires v != input && ostate != input && ostate != v
    modifies v, ostate
    ensures BytesBE(ostate[..]) == Scrypt(BytesLE(input[..]), BytesLE(input[..]), N, 32)
  {
    hide BytesLE, BytesBE, RoMix, Pbkdf2, WordsLE;
    var x := new word[32];
    ghost var p := BytesLE(input[..]);
    Pbkdf2_80_128(input, x);
    WordsLEOfBytesLE(x[..]);
    ghost var b := x[..];
    TenBits();
    RoMixInPlace(x, v, N, 1023, 10);
    assert input[..] == old(input[..]);
    Pbkdf2_80_128_32(input, x, ostate);
    assert input[..] == old(input[..]);
  }

  /** flip32: the byte order of eight words reversed in place. */
  method Flip32InPlace(h: array<word>)
    requires h.Length == 8
    modifies h
    ensures h[..] == SwabAll(old(h[..]))
  {
    hide Swab32;
    for i := 0 to 8
      invariant forall k :: 0 <= k < 8 ==> h[k] == if k < i then Swab32(old(h[k])) else old(h[k])
    {
      h[i] := Swab32(h[i]);
    }
  }

  /**
   * scrypt_regenhash on the first 20 words of work->data: every header word is byte-swapped before hashing,
   * and work->hash ends up holding the scrypt digest byte for byte.
   */
  method RegenHash(data: array<word>, hash: array<word>)
    requires data.Length >= 20 && hash.Length == 8 && data != hash
    modifies hash
    ensures var header := BytesLE(SwabAll(data[..20]));
      BytesLE(hash[..]) == Scrypt(header, header, N, 32)
  {
    hide BytesLE, BytesBE, SwabAll, Scrypt;
    var swapped := new word[20];
    ghost var d20 := data[..20];
    Be32EncVect(swapped, 0, data[..20]);
    assert swapped[..] == SwabAll(d20);
    var scratchbuf := new word[32 * N];
    Scrypt_1024_1_1_256_sp(swapped, scratchbuf, hash);
    ghost var digest := hash[..];
    Flip32InPlace(hash);
    BytesLEOfSwabAll(digest);
    assert data[..20] == d20;
  }
}
