/** HMAC-SHA256 of word-aligned strings, block by block: what the pre-folded constants of scrypt.c stand for. */
module HmacWords {
  import opened Words
  import opened Fips180
  import opened Rfc8018

  function ZeroWords(n: nat): (r: seq<word>)
    ensures |r| == n
  {
    seq(n, _ => 0)
  }

  lemma {:induction false} WordsOfZeros(k: nat)
    ensures WordsBE(Zeros(4 * k)) == ZeroWords(k)
  {
    if k == 0 {
    } else {
      WordsOfZeros(k - 1);
      assert Zeros(4 * k)[4..] == Zeros(4 * (k - 1));
      assert Pack32(0, 0, 0, 0) == 0;
      assert ZeroWords(k) == [0] + ZeroWords(k - 1);
    }
  }

  /** The words the padding of a string of n words turns into. */
  function PadWords(n: nat, zeros: nat): (r: seq<word>)
    ensures |r| == zeros + 3
  {
    [0x80000000] + ZeroWords(zeros) + WordsBE(BE64(32 * n))
  }

  lemma PaddingWords(n: nat, zeros: nat)
    requires (119 - (4 * n) % 64) % 64 == 4 * zeros + 3
    ensures |Padding(4 * n)| == 4 * (zeros + 3) && |Padding(4 * n)| % 4 == 0
    ensures WordsBE(Padding(4 * n)) == PadWords(n, zeros)
  {
    hide *;
    WholeWords(zeros + 3);
    WholeWords(zeros);
    WholeWords(zeros + 1);
    PaddingBytes(n, zeros);
    var marker: seq<byte> := [0x80, 0, 0, 0];
    var field := BE64(32 * n);
    WordsBEConcat(marker + Zeros(4 * zeros), field);
    WordsBEConcat(marker, Zeros(4 * zeros));
    WordsOfZeros(zeros);
    MarkerWord();
    PadWordsIs(n, zeros);
  }

  lemma PaddingBytes(n: nat, zeros: nat)
    requires (119 - (4 * n) % 64) % 64 == 4 * zeros + 3
    ensures Padding(4 * n) == ([0x80, 0, 0, 0] + Zeros(4 * zeros)) + BE64(32 * n)
    ensures |Zeros(4 * zeros)| == 4 * zeros && |BE64(32 * n)| == 8
  {
    hide BE64;
    assert 8 * (4 * n) == 32 * n;
  }

  lemma PadWordsIs(n: nat, zeros: nat)
    ensures |BE64(32 * n)| == 8 && PadWords(n, zeros) == [0x80000000] + ZeroWords(zeros) + WordsBE(BE64(32 * n))
  {
    hide BE64, ZeroWords, WordsBE;
  }

  lemma WholeWords(k: nat)
    ensures (4 * k) % 4 == 0
  {
  }

  lemma MarkerWord()
    ensures WordsBE([0x80, 0, 0, 0]) == [0x80000000]
  {
    var b: seq<byte> := [0x80, 0, 0, 0];
    assert b[4..] == [];
  }

  /** SHA-256 of a string of whole words. */
  lemma ShaOfWords(ws: seq<word>, pad: seq<word>)
    requires |Padding(4 * |ws|)| % 4 == 0 && WordsBE(Padding(4 * |ws|)) == pad
    ensures |ws + pad| % 16 == 0
    ensures Sha256(BytesBE(ws)) == BytesBE(Fold(H0, ws + pad))
  {
    hide BytesBE, WordsBE, Padding, Fold;
    var m := BytesBE(ws);
    WordsBEConcat(m, Padding(|m|));
    WordsOfBytes(ws);
    BlocksAreWords(|m + Padding(|m|)|);
  }

  lemma XorEachByte36(w: word)
    ensures Xor8(Byte0(w), 0x36) == Byte0(Xor32(w, 0x36363636)) && Xor8(Byte1(w), 0x36) == Byte1(Xor32(w, 0x36363636))
    ensures Xor8(Byte2(w), 0x36) == Byte2(Xor32(w, 0x36363636)) && Xor8(Byte3(w), 0x36) == Byte3(Xor32(w, 0x36363636))
  {
    assert (((w >> 24) & 0xff) as byte) ^ 0x36 == (((w ^ 0x36363636) >> 24) & 0xff) as byte;
    assert (((w >> 16) & 0xff) as byte) ^ 0x36 == (((w ^ 0x36363636) >> 16) & 0xff) as byte;
    assert (((w >> 8) & 0xff) as byte) ^ 0x36 == (((w ^ 0x36363636) >> 8) & 0xff) as byte;
    assert ((w & 0xff) as byte) ^ 0x36 == ((w ^ 0x36363636) & 0xff) as byte;
  }

  lemma XorEachByte5c(w: word)
    ensures Xor8(Byte0(w), 0x5c) == Byte0(Xor32(w, 0x5c5c5c5c)) && Xor8(Byte1(w), 0x5c) == Byte1(Xor32(w, 0x5c5c5c5c))
    ensures Xor8(Byte2(w), 0x5c) == Byte2(Xor32(w, 0x5c5c5c5c)) && Xor8(Byte3(w), 0x5c) == Byte3(Xor32(w, 0x5c5c5c5c))
  {
    assert (((w >> 24) & 0xff) as byte) ^ 0x5c == (((w ^ 0x5c5c5c5c) >> 24) & 0xff) as byte;
    assert (((w >> 16) & 0xff) as byte) ^ 0x5c == (((w ^ 0x5c5c5c5c) >> 16) & 0xff) as byte;
    assert (((w >> 8) & 0xff) as byte) ^ 0x5c == (((w ^ 0x5c5c5c5c) >> 8) & 0xff) as byte;
    assert ((w & 0xff) as byte) ^ 0x5c == ((w ^ 0x5c5c5c5c) & 0xff) as byte;
  }

  /** Every word xored with a constant. */
  function XorWord(ws: seq<word>, x: word): (r: seq<word>)
    ensures |r| == |ws|
    ensures forall i :: 0 <= i < |ws| ==> r[i] == Xor32(ws[i], x)
  {
    seq(|ws|, i requires 0 <= i < |ws| => Xor32(ws[i], x))
  }

  const IPAD: word := 0x36363636
  const OPAD: word := 0x5c5c5c5c

  lemma {:induction false} BytesBEFirst(ws: seq<word>)
    requires |ws| > 0
    ensures var b := BytesBE(ws);
      && |b| >= 4 && b[0] == Byte0(ws[0]) && b[1] == Byte1(ws[0]) && b[2] == Byte2(ws[0]) && b[3] == Byte3(ws[0])
      && b[4..] == BytesBE(ws[1..]) && b == [Byte0(ws[0]), Byte1(ws[0]), Byte2(ws[0]), Byte3(ws[0])] + BytesBE(ws[1..])
  {
    hide Byte0, Byte1, Byte2, Byte3;
  }

  lemma {:induction false} XorByteFirst(b: seq<byte>, x: byte)
    requires |b| >= 4
    ensures XorByte(b, x) == [Xor8(b[0], x), Xor8(b[1], x), Xor8(b[2], x), Xor8(b[3], x)] + XorByte(b[4..], x)
  {
    hide Xor8;
  }

  lemma {:induction false} XorWordFirst(ws: seq<word>, x: word)
    requires |ws| > 0
    ensures |XorWord(ws, x)| > 0 && XorWord(ws, x)[0] == Xor32(ws[0], x) && XorWord(ws, x)[1..] == XorWord(ws[1..], x)
  {
    hide Xor32;
  }

  lemma {:induction false} XorIpad(ws: seq<word>)
    ensures XorByte(BytesBE(ws), 0x36) == BytesBE(XorWord(ws, IPAD))
  {
    if |ws| == 0 {
    } else {
      hide *;
      XorIpad(ws[1..]);
      XorEachByte36(ws[0]);
      BytesBEFirst(ws);
      XorByteFirst(BytesBE(ws), 0x36);
      XorWordFirst(ws, IPAD);
      BytesBEFirst(XorWord(ws, IPAD));
    }
  }

  lemma {:induction false} XorOpad(ws: seq<word>)
    ensures XorByte(BytesBE(ws), 0x5c) == BytesBE(XorWord(ws, OPAD))
  {
    if |ws| == 0 {
    } else {
      hide *;
      XorOpad(ws[1..]);
      XorEachByte5c(ws[0]);
      BytesBEFirst(ws);
      XorByteFirst(BytesBE(ws), 0x5c);
      XorWordFirst(ws, OPAD);
      BytesBEFirst(XorWord(ws, OPAD));
    }
  }

  lemma {:induction false} BytesOfZeros(k: nat)
    ensures BytesBE(ZeroWords(k)) == Zeros(4 * k)
  {
    if k == 0 {
    } else {
      BytesOfZeros(k - 1);
      assert ZeroWords(k)[1..] == ZeroWords(k - 1);
      assert Byte0(0) == 0 && Byte1(0) == 0 && Byte2(0) == 0 && Byte3(0) == 0;
      assert Zeros(4 * k) == [0, 0, 0, 0] + Zeros(4 * (k - 1));
    }
  }

  /** The hash of an 80-byte password, which stands in for it as the HMAC key. */
  function PasswordKey(p: seq<word>): State
    requires |p| == 20
  {
    hide PadWords;
    Fold(H0, p + PadWords(20, 9))
  }

  /** The key block xored with one of the pad constants. */
  function KeyBlock(k: State, x: word): Block {
    XorWord(k + ZeroWords(8), x)
  }

  /** HMAC from precomputed key states, for a message of words and its inner padding. */
  function HmacFrom(k: State, m: seq<word>, pad: seq<word>): State
    requires |m + pad| % 16 == 0
  {
    Compress(Compress(H0, KeyBlock(k, OPAD)), Fold(Compress(H0, KeyBlock(k, IPAD)), m + pad) + PadWords(24, 5))
  }

  lemma BlockKeyWords(p: seq<word>)
    requires |p| == 20
    ensures BlockKey(BytesBE(p)) == BytesBE(PasswordKey(p) + ZeroWords(8))
  {
    hide BytesBE, WordsBE, Padding, PadWords, Fold, Zeros, ZeroWords, Sha256;
    PaddingWords(20, 9);
    ShaOfWords(p, PadWords(20, 9));
    BytesOfZeros(8);
    BytesBEConcat(PasswordKey(p), ZeroWords(8));
  }

  lemma FoldAfterBlock(b: Block, m: seq<word>)
    requires |m| % 16 == 0
    ensures |b + m| % 16 == 0
    ensures Fold(H0, b + m) == Fold(Compress(H0, b), m)
  {
    hide Compress, Fold;
    FoldConcat(H0, b, m);
    FoldOne(H0, b);
  }

  /** HMAC with an 80-byte key, computed from the two key states and the pre-padded inner and outer blocks. */
  lemma HmacOfWords(p: seq<word>, m: seq<word>, pad: seq<word>)
    requires |p| == 20
    requires |Padding(4 * (16 + |m|))| % 4 == 0 && pad == WordsBE(Padding(4 * (16 + |m|)))
    ensures |m + pad| % 16 == 0
    ensures Hmac(BytesBE(p), BytesBE(m)) == BytesBE(HmacFrom(PasswordKey(p), m, pad))
  {
    hide BytesBE, WordsBE, Padding, PadWords, Fold, Sha256, BlockKey, PasswordKey, XorWord, XorByte, Compress;
    var k := PasswordKey(p);
    BlockKeyWords(p);
    HmacInner(k, m, pad);
    HmacOuter(k, Fold(Compress(H0, KeyBlock(k, IPAD)), m + pad));
  }

  lemma HmacInner(k: State, m: seq<word>, pad: seq<word>)
    requires |Padding(4 * (16 + |m|))| % 4 == 0 && pad == WordsBE(Padding(4 * (16 + |m|)))
    ensures |m + pad| % 16 == 0
    ensures Sha256(XorByte(BytesBE(k + ZeroWords(8)), 0x36) + BytesBE(m))
         == BytesBE(Fold(Compress(H0, KeyBlock(k, IPAD)), m + pad))
  {
    hide BytesBE, WordsBE, Padding, Fold, Sha256, XorWord, XorByte, Compress;
    var b := KeyBlock(k, IPAD);
    XorIpad(k + ZeroWords(8));
    BytesBEConcat(b, m);
    ShaOfWords(b + m, pad);
    assert (b + m) + pad == b + (m + pad);
    WholeAfterBlock(|m + pad|);
    FoldAfterBlock(b, m + pad);
  }

  lemma WholeAfterBlock(n: nat)
    ensures (16 + n) % 16 == 0 ==> n % 16 == 0
  {
  }

  /** An inner digest and the padding behind it. */
  function OuterBlock(inner: State): (b: Block)
    ensures b == inner + PadWords(24, 5)
  {
    hide PadWords;
    inner + PadWords(24, 5)
  }

  lemma HmacOuter(k: State, inner: State)
    ensures Sha256(XorByte(BytesBE(k + ZeroWords(8)), 0x5c) + BytesBE(inner))
         == BytesBE(Compress(Compress(H0, KeyBlock(k, OPAD)), OuterBlock(inner)))
  {
    hide BytesBE, WordsBE, Padding, PadWords, Fold, Sha256, XorWord, XorByte, Compress;
    var b := KeyBlock(k, OPAD);
    PaddingWords(24, 5);
    XorOpad(k + ZeroWords(8));
    BytesBEConcat(b, inner);
    ShaOfWords(b + inner, PadWords(24, 5));
    assert (b + inner) + PadWords(24, 5) == b + (inner + PadWords(24, 5));
    FoldAfterBlock(b, inner + PadWords(24, 5));
    FoldOne(Compress(H0, b), inner + PadWords(24, 5));
  }
}
