/** The two PBKDF2 routines of scrypt.c, with their padding folded into constants. */
module ScryptKdf {
  import opened Words
  import opened Fips180
  import opened Rfc8018
  import opened HmacWords
  import opened ScryptSha

  const PASSWD_PAD: seq<word> := [0x00000080, 0, 0, 0, 0, 0, 0, 0, 0, 0, 0, 0x80020000]
  const OUTER_PAD: seq<word> := [0x80000000, 0, 0, 0, 0, 0, 0, 0x00000300]
  const INNER_PAD: seq<word> := [0x00000080, 0, 0, 0, 0, 0, 0, 0, 0, 0, 0xa0040000]
  const IHASH_FINAL_BLK: Block := [0x00000001, 0x80000000, 0, 0, 0, 0, 0, 0, 0, 0, 0, 0, 0, 0, 0, 0x00000620]

  lemma LengthWords(b6: byte, b7: byte, lo: word)
    requires lo == Pack32(0, 0, b6, b7)
    ensures WordsBE([0, 0, 0, 0, 0, 0, b6, b7]) == [0, lo]
  {
    var b: seq<byte> := [0, 0, 0, 0, 0, 0, b6, b7];
    ZeroWord();
    hide Pack32;
    assert b[4..] == [0, 0, b6, b7];
    assert b[4..][4..] == [];
  }

  lemma ZeroWord()
    ensures Pack32(0, 0, 0, 0) == 0
  {
  }

  lemma Lengths()
    ensures WordsBE(BE64(640)) == [0, 0x280]
    ensures WordsBE(BE64(768)) == [0, 0x300]
    ensures WordsBE(BE64(1184)) == [0, 0x4a0]
    ensures WordsBE(BE64(1568)) == [0, 0x620]
  {
    LengthBytes();
    LengthValues();
    hide Pack32, WordsBE, BE64;
    LengthWords(2, 0x80, 0x280);
    LengthWords(3, 0, 0x300);
    LengthWords(4, 0xa0, 0x4a0);
    LengthWords(6, 0x20, 0x620);
  }

  lemma ShortLength(hi: nat, lo: nat)
    requires hi < 256 && lo < 256
    ensures BE64(256 * hi + lo) == [0, 0, 0, 0, 0, 0, hi as byte, lo as byte]
  {
    var n := 256 * hi + lo;
    assert n / 0x1_0000_0000 == 0 && n % 0x1_0000_0000 == n;
    assert n / 0x100_0000 == 0 && n / 0x1_0000 == 0 && n / 0x100 == hi && n % 0x100 == lo;
    assert BE32(n) == [0, 0, hi as byte, lo as byte];
    assert BE32(0) == [0, 0, 0, 0];
  }

  lemma LengthBytes()
    ensures BE64(640) == [0, 0, 0, 0, 0, 0, 2, 0x80]
    ensures BE64(768) == [0, 0, 0, 0, 0, 0, 3, 0]
    ensures BE64(1184) == [0, 0, 0, 0, 0, 0, 4, 0xa0]
    ensures BE64(1568) == [0, 0, 0, 0, 0, 0, 6, 0x20]
  {
    hide BE64;
    ShortLength(2, 0x80);
    ShortLength(3, 0);
    ShortLength(4, 0xa0);
    ShortLength(6, 0x20);
  }

  lemma LengthValues()
    ensures Pack32(0, 0, 2, 0x80) == 0x280 && Pack32(0, 0, 3, 0) == 0x300
    ensures Pack32(0, 0, 4, 0xa0) == 0x4a0 && Pack32(0, 0, 6, 0x20) == 0x620
    ensures Swab32(0x00000080) == 0x80000000 && Swab32(0x80020000) == 0x280 && Swab32(0xa0040000) == 0x4a0
    ensures Swab32(0) == 0
  {
  }

  /** The constants are the padding FIPS 180-4 prescribes for strings of 80, 96, 148 and 196 bytes. */
  lemma PadConstants()
    ensures SwabAll(PASSWD_PAD) == PadWords(20, 9)
    ensures OUTER_PAD == PadWords(24, 5)
    ensures SwabAll(INNER_PAD) == PadWords(37, 8)
    ensures IHASH_FINAL_BLK == [1] + PadWords(49, 12)
  {
    Lengths();
    LengthValues();
    hide Pack32, WordsBE, BE64, Swab32;
  }

  /** memcpy of words between distinct buffers. */
  method CopyWords(dst: array<word>, dstOff: nat, src: array<word>, srcOff: nat, n: nat)
    requires dst != src && dstOff + n <= dst.Length && srcOff + n <= src.Length
    modifies dst
    ensures dst[..] == old(dst[..dstOff]) + src[srcOff..srcOff + n] + old(dst[dstOff + n..])
  {
    for i := 0 to n
      invariant dst[..] == old(dst[..dstOff]) + src[srcOff..srcOff + i] + old(dst[dstOff + i..])
    {
      dst[dstOff + i] := src[srcOff + i];
    }
  }

  /** A buffer whose words from off onwards were replaced by ws. */
  ghost function Filled(was: seq<word>, off: nat, ws: seq<word>): seq<word>
    requires off + |ws| <= |was|
  {
    was[..off] + ws + was[off + |ws|..]
  }

  lemma FillNext(was: seq<word>, off: nat, ws: seq<word>, i: nat)
    requires off + |ws| <= |was| && i < |ws|
    ensures |Filled(was, off, ws[..i])| == |was|
    ensures Filled(was, off, ws[..i])[off + i := ws[i]] == Filled(was, off, ws[..i + 1])
  {
  }

  lemma FillEnds(was: seq<word>, off: nat, ws: seq<word>)
    requires off + |ws| <= |was|
    ensures Filled(was, off, ws[..0]) == was
    ensures Filled(was, off, ws[..|ws|]) == was[..off] + ws + was[off + |ws|..]
  {
  }

  /** memcpy from one of the constant tables. */
  method CopyTable(dst: array<word>, dstOff: nat, table: seq<word>)
    requires dstOff + |table| <= dst.Length
    modifies dst
    ensures dst[..] == old(dst[..dstOff]) + table + old(dst[dstOff + |table|..])
  {
    hide *;
    ghost var was := dst[..];
    FillEnds(was, dstOff, table);
    for i := 0 to |table|
      invariant dst[..] == Filled(was, dstOff, table[..i])
    {
      FillNext(was, dstOff, table, i);
      dst[dstOff + i] := table[i];
    }
  }

  /** be32enc_vect. */
  method Be32EncVect(dst: array<word>, dstOff: nat, src: seq<word>)
    requires dstOff + |src| <= dst.Length
    modifies dst
    ensures dst[..] == old(dst[..dstOff]) + SwabAll(src) + old(dst[dstOff + |src|..])
  {
    hide *;
    ghost var was, ws := dst[..], SwabAll(src);
    FillEnds(was, dstOff, ws);
    for i := 0 to |src|
      invariant dst[..] == Filled(was, dstOff, ws[..i])
    {
      FillNext(was, dstOff, ws, i);
      dst[dstOff + i] := Swab32(src[i]);
    }
  }
  /** SHA256_InitState. */
  method InitState(state: array<word>)
    requires state.Length == 8
    modifies state
    ensures state[..] == H0
  {
    CopyTable(state, 0, H0);
  }

  lemma FoldTwo(h: State, a: Block, b: Block)
    ensures |a + b| % 16 == 0
    ensures Fold(h, a + b) == Compress(Compress(h, a), b)
  {
    hide Compress, Fold;
    FoldConcat(h, a, b);
    FoldOne(h, a);
    FoldOne(Compress(h, a), b);
  }

  /** The last four words of the password and their padding. */
  method FillPassword(pad: array<word>, passwd: array<word>)
    requires pad.Length == 16 && passwd.Length == 20 && pad != passwd
    modifies pad
    ensures pad[0..0 + 16] == passwd[16..] + PASSWD_PAD
  {
    CopyWords(pad, 0, passwd, 16, 4);
    CopyTable(pad, 4, PASSWD_PAD);
  }

  /** SHA256(K) of the 80-byte password, whose padding is PASSWD_PAD. */
  method HashPassword(passwd: array<word>) returns (ihash: array<word>)
    requires passwd.Length == 20
    ensures fresh(ihash) && ihash.Length == 8
    ensures ihash[..] == PasswordKey(SwabAll(passwd[..]))
  {
    hide Compress, SwabAll, Fold, PadWords, PasswordKey;
    var tstate := new word[8];
    var pad := new word[16];
    InitState(tstate);
    assert passwd[0..0 + 16] == passwd[..16];
    Transform(tstate, passwd, 0, true);
    FillPassword(pad, passwd);
    Transform(tstate, pad, 0, true);
    PasswordBlocks(passwd[..]);
    ihash := tstate;
  }

  lemma PasswordBlocks(pw: seq<word>)
    requires |pw| == 20
    ensures Compress(Compress(H0, SwabAll(pw[..16])), SwabAll(pw[16..] + PASSWD_PAD)) == PasswordKey(SwabAll(pw))
  {
    hide Compress, Fold, PadWords, Swab32;
    PadConstants();
    SwabAllConcat(pw[16..], PASSWD_PAD);
    var p := SwabAll(pw);
    assert p + PadWords(20, 9) == SwabAll(pw[..16]) + SwabAll(pw[16..] + PASSWD_PAD);
    FoldTwo(H0, SwabAll(pw[..16]), SwabAll(pw[16..] + PASSWD_PAD));
  }

  /** The key state: the block of the hashed key xored with one of the pad constants. */
  method KeyState(state: array<word>, ihash: array<word>, x: word)
    requires state.Length == 8 && ihash.Length == 8 && state != ihash
    modifies state
    ensures state[..] == Compress(H0, KeyBlock(ihash[..], x))
  {
    hide Compress, Xor32;
    InitState(state);
    var pad := new word[16];
    var i := 0;
    while i < 8
      invariant 0 <= i <= 8
      invariant forall j :: 0 <= j < i ==> pad[j] == Xor32(ihash[j], x)
      modifies pad
    {
      pad[i] := Xor32(ihash[i], x);
      i := i + 1;
    }
    while i < 16
      invariant 8 <= i <= 16
      invariant forall j :: 0 <= j < 8 ==> pad[j] == Xor32(ihash[j], x)
      invariant forall j :: 8 <= j < i ==> pad[j] == x
      modifies pad
    {
      pad[i] := x;
      i := i + 1;
    }
    XorZero(x);
    ghost var k := ihash[..];
    assert pad[0..0 + 16] == KeyBlock(k, x);
    assert state[..] == H0;
    Transform(state, pad, 0, false);
    assert ihash[..] == k;
  }

  lemma XorZero(x: word)
    ensures Xor32(0, x) == x
  {
  }

  /** The 32-bit value of a block number. */
  function BlockIndex(i: nat): word
    requires 1 <= i <= 4
  {
    if i == 1 then 1 else if i == 2 then 2 else if i == 3 then 3 else 4
  }

  lemma IndexWord(i: nat)
    requires 1 <= i <= 4
    ensures BE32(i) == BytesBE([BlockIndex(i)])
  {
    var w := BlockIndex(i);
    assert i / 0x100_0000 == 0 && i / 0x1_0000 == 0 && i / 0x100 == 0 && i % 0x100 == i;
    assert BytesBE([w]) == [Byte0(w), Byte1(w), Byte2(w), Byte3(w)] + BytesBE([w][1..]);
  }

  /** Block i of the derived key, in words: HMAC of the salt followed by i. */
  function KeyWords(p: seq<word>, i: nat): State
    requires |p| == 20 && 1 <= i <= 4
  {
    hide PasswordKey, HmacFrom, Fold, Compress, WordsBE, BE64;
    var m := p + [BlockIndex(i)];
    assert |m + PadWords(37, 8)| == 32;
    HmacFrom(PasswordKey(p), m, PadWords(37, 8))
  }

  /** Each 32-byte block is T_i of RFC 8018. */
  lemma DerivedBlock(p: seq<word>, i: nat)
    requires |p| == 20 && 1 <= i <= 4
    ensures BytesBE(KeyWords(p, i)) == F(BytesBE(p), BytesBE(p), 1, i)
  {
    hide BytesBE, HmacFrom, PadWords, Padding, Hmac, BE32, WordsBE, PasswordKey, BlockIndex;
    PaddingWords(37, 8);
    IndexWord(i);
    BytesBEConcat(p, [BlockIndex(i)]);
    HmacOfWords(p, p + [BlockIndex(i)], PadWords(37, 8));
  }

  /** The last block of the inner hash: the end of the salt, the block number and the padding. */
  function LastInner(pw: seq<word>, index: word): Block
    requires |pw| == 20
  {
    SwabAll(pw[16..]) + [index] + SwabAll(INNER_PAD)
  }

  lemma LastInnerIndex(pw: seq<word>, x: word, y: word)
    requires |pw| == 20
    ensures LastInner(pw, x)[4 := y] == LastInner(pw, y)
  {
    hide SwabAll;
  }

  /** The key state after the first block of the salt. */
  function InnerStart(k: State, pw: seq<word>): State
    requires |pw| == 20
  {
    Compress(Compress(H0, KeyBlock(k, IPAD)), SwabAll(pw[..16]))
  }

  /** Block i as the loop computes it: one more inner block, then the outer one. */
  lemma InnerBlock(pw: seq<word>, i: nat)
    requires |pw| == 20 && 1 <= i <= 4
    ensures var k := PasswordKey(SwabAll(pw));
      KeyWords(SwabAll(pw), i)
      == Compress(Compress(H0, KeyBlock(k, OPAD)),
                  Compress(InnerStart(k, pw), LastInner(pw, BlockIndex(i))) + OUTER_PAD)
  {
    PadConstants();
    hide Compress, PadWords, KeyBlock, Swab32, BlockIndex, Fold, PasswordKey;
    var p := SwabAll(pw);
    var last := LastInner(pw, BlockIndex(i));
    assert (p + [BlockIndex(i)]) + PadWords(37, 8) == SwabAll(pw[..16]) + last;
    FoldTwo(Compress(H0, KeyBlock(PasswordKey(p), IPAD)), SwabAll(pw[..16]), last);
  }

  /** The inner hash of a block goes in front of the outer padding. */
  method InnerHash(istate0: array<word>, ibuf: array<word>, obuf: array<word>)
    requires istate0.Length == 8 && ibuf.Length == 16 && obuf.Length == 16 && istate0 != obuf && ibuf != obuf
    requires obuf[8..] == OUTER_PAD
    modifies obuf
    ensures obuf[..] == Compress(istate0[..], ibuf[..]) + OUTER_PAD
  {
    hide Compress, OUTER_PAD;
    var istate := new word[8];
    CopyWords(istate, 0, istate0, 0, 8);
    assert istate[..] == istate0[..];
    assert ibuf[0..0 + 16] == ibuf[..];
    Transform(istate, ibuf, 0, false);
    CopyWords(obuf, 0, istate, 0, 8);
  }

  /** The outer hash, in the byte order of the result. */
  method OuterHash(ostate0: array<word>, obuf: array<word>, buf: array<word>, off: nat)
    requires ostate0.Length == 8 && obuf.Length == 16 && off + 8 <= buf.Length && ostate0 != buf && obuf != buf
    modifies buf
    ensures buf[..] == old(buf[..off]) + SwabAll(Compress(ostate0[..], obuf[..])) + old(buf[off + 8..])
  {
    hide Compress, SwabAll;
    var ostate := new word[8];
    CopyWords(ostate, 0, ostate0, 0, 8);
    assert ostate[..] == ostate0[..];
    assert obuf[0..0 + 16] == obuf[..];
    Transform(ostate, obuf, 0, false);
    Be32EncVect(buf, off, ostate[..]);
  }

  /** The loop body: T_i into slot i - 1 of the output. */
  method DeriveBlock(istate0: array<word>, ibuf: array<word>, ostate0: array<word>, obuf: array<word>,
                     buf: array<word>, i: nat)
    requires istate0.Length == 8 && ostate0.Length == 8 && ibuf.Length == 16 && obuf.Length == 16 && buf.Length == 32
    requires 1 <= i <= 4
    requires istate0 != ibuf && istate0 != obuf && istate0 != buf
    requires ostate0 != ibuf && ostate0 != obuf && ostate0 != buf
    requires ibuf != obuf && ibuf != buf && obuf != buf
    requires obuf[8..] == OUTER_PAD
    modifies ibuf, obuf, buf
    ensures ibuf[..] == old(ibuf[..])[4 := BlockIndex(i)] && obuf[8..] == OUTER_PAD
    ensures buf[..] == old(buf[..8 * i - 8])
                     + SwabAll(Compress(ostate0[..], Compress(istate0[..], ibuf[..]) + OUTER_PAD))
                     + old(buf[8 * i..])
  {
    hide Compress, SwabAll, BlockIndex, OUTER_PAD;
    ibuf[4] := BlockIndex(i);
    InnerHash(istate0, ibuf, obuf);
    OuterHash(ostate0, obuf, buf, 8 * i - 8);
  }

  /** The output words after the first n blocks. */
  function DerivedWords(pw: seq<word>, n: nat): (r: seq<word>)
    requires |pw| == 20 && n <= 4
    ensures |r| == 8 * n
  {
    if n == 0 then [] else DerivedWords(pw, n - 1) + SwabAll(KeyWords(SwabAll(pw), n))
  }

  lemma {:induction false} DerivedBlocks(pw: seq<word>, n: nat)
    requires |pw| == 20 && n <= 4
    ensures BytesLE(DerivedWords(pw, n)) == Blocks(BytesLE(pw), BytesLE(pw), 1, n)
  {
    hide KeyWords, SwabAll, F, BytesBE;
    if n == 0 {
    } else {
      DerivedBlocks(pw, n - 1);
      var t := KeyWords(SwabAll(pw), n);
      BytesLEConcat(DerivedWords(pw, n - 1), SwabAll(t));
      BytesLEOfSwabAll(t);
      DerivedBlock(SwabAll(pw), n);
      PasswordBytes(pw);
    }
  }

  lemma PasswordBytes(pw: seq<word>)
    ensures BytesBE(SwabAll(pw)) == BytesLE(pw)
  {
    hide SwabAll, BytesBE, BytesLE;
    BytesLEOfSwabAll(SwabAll(pw));
    SwabAllTwice(pw);
  }

  /** PShictx: the inner key state advanced over the salt's first block, and the buffer for its second. */
  method PrepareInner(passwd: array<word>, ihash: array<word>) returns (istate: array<word>, ibuf: array<word>)
    requires passwd.Length == 20 && ihash.Length == 8
    ensures fresh(istate) && fresh(ibuf) && istate != ibuf && istate.Length == 8 && ibuf.Length == 16
    ensures istate[..] == InnerStart(ihash[..], passwd[..])
    ensures ibuf[..] == LastInner(passwd[..], ibuf[4])
  {
    hide Compress, SwabAll, KeyBlock;
    istate := new word[8];
    KeyState(istate, ihash, IPAD);
    assert passwd[0..0 + 16] == passwd[..16];
    Transform(istate, passwd, 0, true);
    ibuf := new word[16];
    FillInner(ibuf, passwd);
  }

  method FillInner(ibuf: array<word>, passwd: array<word>)
    requires ibuf.Length == 16 && passwd.Length == 20 && ibuf != passwd
    modifies ibuf
    ensures ibuf[..] == LastInner(passwd[..], ibuf[4])
  {
    hide SwabAll;
    assert passwd[16..20] == passwd[16..];
    Be32EncVect(ibuf, 0, passwd[16..20]);
    Be32EncVect(ibuf, 5, INNER_PAD);
  }

  /** PShoctx: the outer key state, and the padded second half of its block. */
  method PrepareOuter(ihash: array<word>) returns (ostate: array<word>, obuf: array<word>)
    requires ihash.Length == 8
    ensures fresh(ostate) && fresh(obuf) && ostate != obuf && ostate.Length == 8 && obuf.Length == 16
    ensures ostate[..] == Compress(H0, KeyBlock(ihash[..], OPAD))
    ensures obuf[8..] == OUTER_PAD
  {
    hide Compress, KeyBlock;
    ostate := new word[8];
    KeyState(ostate, ihash, OPAD);
    obuf := new word[16];
    CopyTable(obuf, 8, OUTER_PAD);
  }

  /** PBKDF2_SHA256_80_128: PBKDF2 with the password as its own salt, one iteration, 128 bytes. */
  method Pbkdf2_80_128(passwd: array<word>, buf: array<word>)
    requires passwd.Length == 20 && buf.Length == 32 && passwd != buf
    modifies buf
    ensures BytesLE(buf[..]) == Pbkdf2(BytesLE(passwd[..]), BytesLE(passwd[..]), 1, 128)
  {
    hide Compress, SwabAll, PasswordKey, KeyBlock, KeyWords, BlockIndex, BytesLE, F, InnerStart;
    ghost var pw := passwd[..];
    var ihash := HashPassword(passwd);
    var istate, ibuf := PrepareInner(passwd, ihash);
    var ostate, obuf := PrepareOuter(ihash);
    ghost var x := ibuf[4];
    for i := 0 to 4
      invariant istate[..] == InnerStart(PasswordKey(SwabAll(pw)), pw)
      invariant ostate[..] == Compress(H0, KeyBlock(PasswordKey(SwabAll(pw)), OPAD))
      invariant ibuf[..] == LastInner(pw, x) && obuf[8..] == OUTER_PAD
      invariant buf[..8 * i] == DerivedWords(pw, i)
      modifies ibuf, obuf, buf
    {
      hide LastInner;
      LastInnerIndex(pw, x, BlockIndex(i + 1));
      DeriveBlock(istate, ibuf, ostate, obuf, buf, i + 1);
      x := BlockIndex(i + 1);
      InnerBlock(pw, i + 1);
    }
    assert buf[..] == buf[..8 * 4];
    DerivedBlocks(pw, 4);
  }

  /** The inner hash of the second routine: the 32-word salt and the constant final block. */
  lemma InnerOfSalt(k: State, salt: seq<word>)
    requires |salt| == 32
    ensures |SwabAll(salt) + [1] + PadWords(49, 12)| % 16 == 0
    ensures Compress(
      Compress(Compress(Compress(H0, KeyBlock(k, IPAD)), SwabAll(salt[..16])), SwabAll(salt[16..])), IHASH_FINAL_BLK)
         == Fold(Compress(H0, KeyBlock(k, IPAD)), SwabAll(salt) + [1] + PadWords(49, 12))
  {
    PadConstants();
    hide Compress, PadWords, KeyBlock, Swab32, Fold;
    var h, a, b := Compress(H0, KeyBlock(k, IPAD)), SwabAll(salt[..16]), SwabAll(salt[16..]);
    assert SwabAll(salt) + [1] + PadWords(49, 12) == (a + b) + IHASH_FINAL_BLK;
    FoldTwo(h, a, b);
    FoldConcat(h, a + b, IHASH_FINAL_BLK);
    FoldOne(Fold(h, a + b), IHASH_FINAL_BLK);
  }

  /** The eight words the second routine leaves, as a function of password and salt words. */
  function FinalWords(pw: seq<word>, salt: seq<word>): State
    requires |pw| == 20 && |salt| == 32
  {
    hide Compress, Fold, PadWords, PasswordKey;
    InnerOfSalt(PasswordKey(SwabAll(pw)), salt);
    assert SwabAll(salt) + [1] + PadWords(49, 12) == (SwabAll(salt) + [1]) + PadWords(49, 12);
    HmacFrom(PasswordKey(SwabAll(pw)), SwabAll(salt) + [1], PadWords(49, 12))
  }

  lemma FinalBytes(pw: seq<word>, salt: seq<word>)
    requires |pw| == 20 && |salt| == 32
    ensures BytesBE(FinalWords(pw, salt)) == Pbkdf2(BytesLE(pw), BytesLE(salt), 1, 32)
  {
    hide BytesBE, BytesLE, FinalWords, Pbkdf2, Hmac, BE32;
    OneBlock(BytesLE(pw), BytesLE(salt));
    FinalHmac(pw, salt);
  }

  lemma OneBlock(p: seq<byte>, s: seq<byte>)
    ensures Pbkdf2(p, s, 1, 32) == Hmac(p, s + BE32(1))
  {
    hide Hmac, BE32;
    assert Blocks(p, s, 1, 1) == Blocks(p, s, 1, 0) + F(p, s, 1, 1);
  }

  lemma FinalHmac(pw: seq<word>, salt: seq<word>)
    requires |pw| == 20 && |salt| == 32
    ensures BytesBE(FinalWords(pw, salt)) == Hmac(BytesLE(pw), BytesLE(salt) + BE32(1))
  {
    hide BytesBE, BytesLE, HmacFrom, PadWords, Padding, Hmac, BE32, WordsBE, PasswordKey, SwabAll;
    PaddingWords(49, 12);
    PasswordBytes(pw);
    PasswordBytes(salt);
    FirstIndex();
    BytesBEConcat(SwabAll(salt), [1]);
    HmacOfWords(SwabAll(pw), SwabAll(salt) + [1], PadWords(49, 12));
  }

  lemma FirstIndex()
    ensures BE32(1) == BytesBE([1])
  {
    IndexWord(1);
  }

  /** The inner state and the padding of the outer hash. */
  method FillOuter(pad: array<word>, tstate: array<word>)
    requires pad.Length == 16 && tstate.Length == 8 && pad != tstate
    modifies pad
    ensures pad[0..0 + 16] == tstate[..] + OUTER_PAD
  {
    CopyWords(pad, 0, tstate, 0, 8);
    CopyTable(pad, 8, OUTER_PAD);
  }

  /** PBKDF2_SHA256_80_128_32: 128-byte salt, one iteration, 32 bytes, left as big-endian words in ostate. */
  method Pbkdf2_80_128_32(passwd: array<word>, salt: array<word>, ostate: array<word>)
    requires passwd.Length == 20 && salt.Length == 32 && ostate.Length == 8 && ostate != passwd && ostate != salt
    modifies ostate
    ensures BytesBE(ostate[..]) == Pbkdf2(BytesLE(passwd[..]), BytesLE(salt[..]), 1, 32)
  {
    hide Compress, SwabAll, PasswordKey, KeyBlock, BytesBE, BytesLE, Pbkdf2, Fold, PadWords;
    ghost var pw, sw := passwd[..], salt[..];
    ghost var k := PasswordKey(SwabAll(pw));
    var ihash := HashPassword(passwd);
    KeyState(ostate, ihash, OPAD);
    var tstate := new word[8];
    KeyState(tstate, ihash, IPAD);
    assert salt[0..0 + 16] == sw[..16] && salt[16..16 + 16] == sw[16..];
    Transform(tstate, salt, 0, true);
    Transform(tstate, salt, 16, true);
    var pad := new word[16];
    CopyTable(pad, 0, IHASH_FINAL_BLK);
    assert pad[0..0 + 16] == IHASH_FINAL_BLK;
    Transform(tstate, pad, 0, false);
    InnerOfSalt(k, sw);
    FillOuter(pad, tstate);
    Transform(ostate, pad, 0, false);
    PadConstants();
    FinalBytes(pw, sw);
  }
}
