/** The buffered context of sha2.c: sha256_init, sha256_update, sha256_final and sha256. */
module Sha2Stream {
  import opened Words
  import opened Fips180
  import opened Sha2
  import opened ByteValues

  /** memcpy between distinct buffers. */
  method CopyBytes(dst: array<byte>, dstOff: nat, src: array<byte>, srcOff: nat, n: nat)
    requires dst != src && dstOff + n <= dst.Length && srcOff + n <= src.Length
    modifies dst
    ensures dst[..dstOff] == old(dst[..dstOff])
    ensures dst[dstOff..dstOff + n] == src[srcOff..srcOff + n]
    ensures dst[dstOff + n..] == old(dst[dstOff + n..])
  {
    for i := 0 to n
      invariant dst[..dstOff] == old(dst[..dstOff])
      invariant dst[dstOff..dstOff + i] == src[srcOff..srcOff + i]
      invariant dst[dstOff + i..] == old(dst[dstOff + i..])
    {
      dst[dstOff + i] := src[srcOff + i];
    }
  }

  /** The 32-bit bit count that sha256_final stores, in an otherwise zero 8-byte field. */
  function ShortLengthField(n: nat): (f: seq<byte>)
    ensures |f| == 8
  {
    Zeros(4) + BE32((8 * n) % UINT_RANGE)
  }

  /** The digest sha256_final computes for a message of any length. */
  ghost function ShortLengthDigest(m: seq<byte>): seq<byte> {
    BytesBE(FoldBytes(H0, m + PaddingWith(|m|, ShortLengthField(|m|))))
  }

  lemma TopWordZero(n: nat)
    requires n < 0x1_0000_0000
    ensures BE32(n) == Zeros(4) <==> n == 0
  {
    var b0, b1, b2, b3 := n / 0x100_0000, (n / 0x1_0000) % 0x100, (n / 0x100) % 0x100, n % 0x100;
    BytesOf(n);
    ByteZero(b0);
    ByteZero(b1);
    ByteZero(b2);
    ByteZero(b3);
    DigitsZero(n);
    FourZeros(BE32(n));
    hide BE32, Zeros;
  }

  lemma BytesOf(n: nat)
    requires n < 0x1_0000_0000
    ensures n / 0x100_0000 < 0x100 && |BE32(n)| == 4
    ensures BE32(n)[0] == (n / 0x100_0000) as byte && BE32(n)[1] == ((n / 0x1_0000) % 0x100) as byte
    ensures BE32(n)[2] == ((n / 0x100) % 0x100) as byte && BE32(n)[3] == (n % 0x100) as byte
  {
  }

  lemma FourZeros(b: seq<byte>)
    requires |b| == 4
    ensures b == Zeros(4) <==> b[0] == 0 && b[1] == 0 && b[2] == 0 && b[3] == 0
  {
    if b[0] == 0 && b[1] == 0 && b[2] == 0 && b[3] == 0 {
      assert b == [0, 0, 0, 0] == Zeros(4);
    } else {
      assert Zeros(4)[0] == 0 && Zeros(4)[1] == 0 && Zeros(4)[2] == 0 && Zeros(4)[3] == 0;
    }
  }

  lemma DigitsZero(n: nat)
    requires n < 0x1_0000_0000
    ensures n / 0x100_0000 == 0 && (n / 0x1_0000) % 0x100 == 0 && (n / 0x100) % 0x100 == 0 && n % 0x100 == 0 <==> n == 0
  {
    if n / 0x100_0000 == 0 && (n / 0x1_0000) % 0x100 == 0 {
      assert n < 0x100_0000;
      assert n / 0x1_0000 < 0x100;
      assert n < 0x1_0000;
      assert n / 0x100 < 0x100;
    }
  }

  /**
   * The padding of sha256_final is the padding of section 5.1.1 exactly for messages under 2^29 bytes:
   * past that the high half of the bit count is lost.
   */
  lemma ShortFieldExact(n: nat)
    requires n < 0x2000_0000_0000_0000
    ensures ShortLengthField(n) == BE64(8 * n) <==> n < 0x2000_0000
  {
    hide BE32, Zeros;
    var top := ((8 * n) / 0x1_0000_0000) % 0x1_0000_0000;
    TopWordZero(top);
    assert BE64(8 * n)[..4] == BE32(top);
    assert ShortLengthField(n)[..4] == Zeros(4);
    assert BE64(8 * n)[4..] == ShortLengthField(n)[4..];
    assert top == 0 <==> n < 0x2000_0000;
    if top == 0 {
      assert BE64(8 * n) == BE64(8 * n)[..4] + BE64(8 * n)[4..];
      assert ShortLengthField(n) == ShortLengthField(n)[..4] + ShortLengthField(n)[4..];
    }
  }

  lemma ShortDigestExact(m: seq<byte>)
    requires |m| < 0x2000_0000
    ensures ShortLengthDigest(m) == Sha256(m)
  {
    hide Fold, WordsBE, BytesBE, PaddingWith;
    ShortFieldExact(|m|);
  }

  lemma WholeBlocks(k: nat)
    ensures (64 * k) % 64 == 0
  {
  }

  /** The state after the first blocks of a message. */
  ghost function Hashed(m: seq<byte>, blocks: nat): State
    requires 64 * blocks <= |m|
  {
    hide FoldBytes;
    WholeBlocks(blocks);
    FoldBytes(H0, m[..64 * blocks])
  }

  lemma SameHashed(m: seq<byte>, m': seq<byte>, blocks: nat)
    requires 64 * blocks <= |m| && 64 * blocks <= |m'| && m[..64 * blocks] == m'[..64 * blocks]
    ensures Hashed(m, blocks) == Hashed(m', blocks)
  {
    hide FoldBytes;
  }

  /** Completing the buffered tail and hashing the following whole blocks extends the compressed prefix. */
  lemma Absorb(a: seq<byte>, full: seq<byte>, mid: seq<byte>)
    requires |a| % 64 == 0 && |full| == 64 && |mid| % 64 == 0 && |a + full| % 64 == 0 && |a + full + mid| % 64 == 0
    ensures FoldBytes(FoldBytes(FoldBytes(H0, a), full), mid) == FoldBytes(H0, a + full + mid)
  {
    hide FoldBytes;
    FoldBytesConcat(H0, a, full);
    FoldBytesConcat(H0, a + full, mid);
  }

  lemma DropMultiple(q: nat, y: nat)
    ensures (UINT_RANGE * q + y) % UINT_RANGE == y % UINT_RANGE
  {
  }

  lemma SliceOfSlice(s: seq<byte>, a: nat, n: nat, i: nat, j: nat)
    requires a + n <= |s| && i <= j <= n
    ensures s[a..a + n][i..j] == s[a + i..a + j]
  {
    var t := s[a..a + n][i..j];
    forall k | 0 <= k < |t|
      ensures t[k] == s[a + i..a + j][k]
    {
      assert t[k] == s[a..a + n][i + k];
    }
  }

  lemma CountStep(t: nat, blocks: nat, nb: nat)
    requires t == (64 * blocks) % UINT_RANGE
    ensures (t + 64 * (nb + 1)) % UINT_RANGE == (64 * (blocks + nb + 1)) % UINT_RANGE
  {
    var q := (64 * blocks) / UINT_RANGE;
    DropMultiple(q, t + 64 * (nb + 1));
    assert 64 * (blocks + nb + 1) == UINT_RANGE * q + (t + 64 * (nb + 1));
  }

  lemma Regroup(p: seq<byte>, m: seq<byte>, blocks: nat, rem: nat, nb: nat)
    requires 64 * blocks + 64 == |p| + rem && rem <= 64 && rem + 64 * nb <= |m|
    ensures |p[64 * blocks..] + m[..rem]| == 64
    ensures (p + m)[..64 * (blocks + nb + 1)]
         == p[..64 * blocks] + (p[64 * blocks..] + m[..rem]) + m[rem..rem + 64 * nb]
    ensures (p + m)[64 * (blocks + nb + 1)..] == m[rem + 64 * nb..]
  {
  }

  lemma SmallMod(x: nat, y: nat)
    requires y < UINT_RANGE && x < 64
    ensures x + y < UINT_RANGE ==> (x + y) % UINT_RANGE == x + y
    ensures x + y >= UINT_RANGE ==> (x + y) % UINT_RANGE == x + y - UINT_RANGE < x
  {
  }

  /** Pieces that sha256_update can take: what it compresses can be addressed, unless the test wraps and nothing is. */
  predicate Addressable(len: nat, n: nat) {
    len + n < 64 * (MAX_BLOCKS + 2) || len + n >= UINT_RANGE
  }

  class Sha256Ctx {
    var totLen: nat
    var len: nat
    const block: array<byte>
    const h: array<word>
    /** The bytes accepted so far and how many whole blocks of them are compressed. */
    ghost var Message: seq<byte>
    ghost var blocks: nat

    ghost predicate Valid()
      reads this, block, h
    {
      && block.Length == 2 * BLOCK_SIZE && h.Length == 8
      && len < BLOCK_SIZE
      && |Message| == 64 * blocks + len
      && totLen == (64 * blocks) % UINT_RANGE
      && block[..len] == Message[64 * blocks..]
      && h[..] == Hashed(Message, blocks)
    }

    /** sha256_init. */
    constructor ()
      ensures Valid() && Message == []
      ensures fresh(block) && fresh(h)
    {
      block := new byte[2 * BLOCK_SIZE];
      h := new word[8];
      new;
      for i := 0 to 8
        invariant h[..i] == H0[..i]
        modifies h
      {
        h[i] := H0[i];
      }
      assert h[..] == H0;
      len, totLen := 0, 0;
      Message, blocks := [], 0;
      assert Message[..64 * blocks] == [];
      FoldBytesEmpty(H0);
    }
  
    /**
     * sha256_update. The length test adds two 32-bit numbers, so a call within 63 bytes of 2^32 can wrap:
     * then nothing is hashed and the context forgets the last 2^32 - n buffered bytes.
     */
    method Update(message: array<byte>, off: nat, n: nat)
      requires Valid() && off + n <= message.Length && n < UINT_RANGE
      requires message != block && Addressable(len, n)
      modifies this, block, h
      ensures Valid()
      ensures old(len) + n < UINT_RANGE ==> Message == old(Message) + message[off..off + n]
      ensures old(len) + n >= UINT_RANGE ==>
        UINT_RANGE - n <= old(len) && Message == old(Message)[..|old(Message)| - (UINT_RANGE - n)]
    {
      hide FoldBytes;
      var tmpLen := BLOCK_SIZE - len;
      var remLen := if n < tmpLen then n else tmpLen;
      CopyBytes(block, len, message, off, remLen);
      SmallMod(len, n);
      if (len + n) % UINT_RANGE < BLOCK_SIZE {
        if len + n < UINT_RANGE {
          assert block[..len + n] == Message[64 * blocks..] + message[off..off + n];
        }
        CountBuffered(n, message[off..off + n]);
        return;
      }
      HashFull(message, off, n, remLen);
    }

    lemma SmallPiece(n: nat)
      requires Valid() && n < 0x2000_0000
      ensures len < BLOCK_SIZE && Addressable(len, n) && len + n < UINT_RANGE
    {
    }

    /** ctx->len += len in 32-bit arithmetic, and nothing else. */
    method CountBuffered(n: nat, ghost m: seq<byte>)
      requires block.Length == 2 * BLOCK_SIZE && h.Length == 8 && len < BLOCK_SIZE && n == |m| < UINT_RANGE
      requires |Message| == 64 * blocks + len && totLen == (64 * blocks) % UINT_RANGE
      requires h[..] == Hashed(Message, blocks)
      requires (len + |m|) % UINT_RANGE < BLOCK_SIZE
      requires len + |m| < UINT_RANGE ==> block[..len + |m|] == Message[64 * blocks..] + m
      requires block[..len] == Message[64 * blocks..]
      modifies this
      ensures Valid()
      ensures old(len) + |m| < UINT_RANGE ==> Message == old(Message) + m
      ensures old(len) + |m| >= UINT_RANGE ==>
        UINT_RANGE - |m| <= old(len) && Message == old(Message)[..|old(Message)| - (UINT_RANGE - |m|)]
    {
      hide Hashed;
      SmallMod(len, |m|);
      ghost var before := Message;
      Message := if len + |m| >= UINT_RANGE then Message[..|Message| - (UINT_RANGE - |m|)] else Message + m;
      len := (len + n) % UINT_RANGE;
      SameHashed(before, Message, blocks);
    }

    /** The rest of sha256_update once the buffer holds a full block. */
    method HashFull(message: array<byte>, off: nat, n: nat, remLen: nat)
      requires block.Length == 2 * BLOCK_SIZE && h.Length == 8 && message != block
      requires len < BLOCK_SIZE && len + remLen == BLOCK_SIZE && remLen <= n && off + n <= message.Length
      requires n - remLen < 64 * (MAX_BLOCKS + 1)
      requires |Message| == 64 * blocks + len && totLen == (64 * blocks) % UINT_RANGE
      requires h[..] == Hashed(Message, blocks)
      requires block[..64] == Message[64 * blocks..] + message[off..off + remLen]
      modifies this, block, h
      ensures Valid() && Message == old(Message) + message[off..off + n]
    {
      hide Hashed;
      var newLen := n - remLen;
      var blockNb := newLen / BLOCK_SIZE;
      CompressFull(message, off, n, remLen, blockNb);
      KeepRest(message, off, n, remLen, blockNb);
    }

    /** What does not fill a block is kept for the next call. */
    method KeepRest(message: array<byte>, off: nat, n: nat, remLen: nat, blockNb: nat)
      requires block.Length == 2 * BLOCK_SIZE && h.Length == 8 && message != block
      requires len < BLOCK_SIZE && len + remLen == BLOCK_SIZE && remLen <= n && off + n <= message.Length
      requires blockNb == (n - remLen) / BLOCK_SIZE
      requires |Message| == 64 * blocks + len && totLen == (64 * blocks) % UINT_RANGE
      requires 64 * (blocks + blockNb + 1) <= |Message| + n
      requires h[..] == Hashed(Message + message[off..off + n], blocks + blockNb + 1)
      modifies this, block
      ensures Valid() && Message == old(Message) + message[off..off + n]
    {
      hide Hashed;
      ghost var m := message[off..off + n];
      Regroup(Message, m, blocks, remLen, blockNb);
      CountStep(totLen, blocks, blockNb);
      var rest := (n - remLen) % BLOCK_SIZE;
      CopyBytes(block, 0, message, off + remLen + 64 * blockNb, rest);
      len := rest;
      totLen := (totLen + 64 * (blockNb + 1)) % UINT_RANGE;
      Message, blocks := Message + m, blocks + blockNb + 1;
      assert block[..len] == m[remLen + 64 * blockNb..];
    }

    /** The two sha256_transf calls of sha256_update. */
    method CompressFull(message: array<byte>, off: nat, n: nat, remLen: nat, blockNb: nat)
      requires block.Length == 2 * BLOCK_SIZE && h.Length == 8
      requires remLen <= BLOCK_SIZE && remLen + 64 * blockNb <= n && off + n <= message.Length && blockNb <= MAX_BLOCKS
      requires |Message| + remLen == 64 * blocks + 64
      requires h[..] == Hashed(Message, blocks)
      requires block[..64] == Message[64 * blocks..] + message[off..off + remLen]
      modifies h
      ensures 64 * (blocks + blockNb + 1) <= |Message| + n
      ensures h[..] == Hashed(Message + message[off..off + n], blocks + blockNb + 1)
    {
      hide FoldBytes;
      ghost var m := message[off..off + n];
      ghost var a, full, mid := Message[..64 * blocks], block[..64], m[remLen..remLen + 64 * blockNb];
      assert block[0..0 + 64 * 1] == full;
      Transf(h, block, 0, 1);
      SliceOfSlice(message[..], off, n, remLen, remLen + 64 * blockNb);
      Transf(h, message, off + remLen, blockNb);
      Absorb(a, full, mid);
      assert full == Message[64 * blocks..] + m[..remLen];
      Regroup(Message, m, blocks, remLen, blockNb);
    }

    /** memset of block[len..pmLen], the 0x80 marker and UNPACK32 of the bit count. */
    method WritePadding(pmLen: nat, lenB: nat)
      requires block.Length == 2 * BLOCK_SIZE && len + 9 <= pmLen <= 2 * BLOCK_SIZE && lenB < UINT_RANGE
      modifies block
      ensures block[..pmLen] == old(block[..len]) + [0x80] + Zeros(pmLen - 9 - len) + (Zeros(4) + BE32(lenB))
    {
      hide BE32;
      for i := len to pmLen
        invariant block[..len] == old(block[..len])
        invariant forall k :: len <= k < i ==> block[k] == 0
      {
        block[i] := 0;
      }
      block[len] := 0x80;
      var be := BE32(lenB);
      block[pmLen - 4], block[pmLen - 3], block[pmLen - 2], block[pmLen - 1] := be[0], be[1], be[2], be[3];
    }

    /** The padding and its one or two blocks. */
    method CompressPadding() returns (ghost last: seq<byte>)
      requires Valid()
      modifies block, h
      ensures last == Message[64 * blocks..] + PaddingWith(|Message|, ShortLengthField(|Message|)) && |last| % 64 == 0
      ensures h[..] == FoldBytes(Hashed(Message, blocks), last)
    {
      hide FoldBytes, Hashed, PaddingWith, ShortLengthField, BE32, Zeros;
      var blockNb := 1 + if BLOCK_SIZE - 9 < len % BLOCK_SIZE then 1 else 0;
      var lenB := (8 * ((totLen + len) % UINT_RANGE)) % UINT_RANGE;
      var pmLen := 64 * blockNb;
      FinalPadding(Message, totLen, len, blocks);
      WritePadding(pmLen, lenB);
      last := block[..pmLen];
      assert block[0..0 + 64 * blockNb] == last;
      Transf(h, block, 0, blockNb);
    }

    /** sha256_final. */
    method Final(digest: array<byte>)
      requires Valid() && digest.Length >= 32 && digest != block
      modifies block, h, digest
      ensures digest[..32] == ShortLengthDigest(old(Message)) && digest[32..] == old(digest[32..])
    {
      hide FoldBytes, PaddingWith, ShortLengthField, ShortLengthDigest, BytesBE;
      WholeBlocks(blocks);
      ghost var last := CompressPadding();
      assert Message == Message[..64 * blocks] + Message[64 * blocks..];
      FinalFold(Message[..64 * blocks], Message[64 * blocks..], last);
      StoreDigest(h, digest);
    }
  }

  lemma BitCount(t: nat, len: nat, blocks: nat)
    requires t == (64 * blocks) % UINT_RANGE
    ensures (8 * ((t + len) % UINT_RANGE)) % UINT_RANGE == (8 * (64 * blocks + len)) % UINT_RANGE
  {
    var q := (64 * blocks) / UINT_RANGE;
    var q' := (t + len) / UINT_RANGE;
    var u := (t + len) % UINT_RANGE;
    assert 64 * blocks + len == UINT_RANGE * (q + q') + u;
    DropMultiple(8 * (q + q'), 8 * u);
  }

  /** One or two final blocks are exactly enough for the padding. */
  lemma PaddedTail(n: nat, blocks: nat, len: nat)
    requires n == 64 * blocks + len && len < 64
    ensures len + 1 + (119 - n % 64) % 64 + 8 == if 55 < len then 128 else 64
  {
    assert n % 64 == len;
  }

  /** The bytes sha256_final leaves in the buffer are the tail of the padded message. */
  lemma FinalPadding(m: seq<byte>, t: nat, len: nat, blocks: nat)
    requires |m| == 64 * blocks + len && len < 64 && t == (64 * blocks) % UINT_RANGE
    ensures var pmLen := if 55 < len then 128 else 64;
      m[64 * blocks..] + [0x80] + Zeros(pmLen - 9 - len)
        + (Zeros(4) + BE32((8 * ((t + len) % UINT_RANGE)) % UINT_RANGE))
      == m[64 * blocks..] + PaddingWith(|m|, ShortLengthField(|m|))
  {
    hide BE32, Zeros;
    BitCount(t, len, blocks);
    PaddedTail(|m|, blocks, len);
  }

  lemma FinalFold(a: seq<byte>, tail: seq<byte>, last: seq<byte>)
    requires |a| % 64 == 0 && |last| % 64 == 0
    requires last == tail + PaddingWith(|a + tail|, ShortLengthField(|a + tail|))
    ensures BytesBE(FoldBytes(FoldBytes(H0, a), last)) == ShortLengthDigest(a + tail)
  {
    hide FoldBytes, PaddingWith, ShortLengthField;
    FoldBytesConcat(H0, a, last);
    assert (a + tail) + PaddingWith(|a + tail|, ShortLengthField(|a + tail|)) == a + last;
  }

  /** UNPACK32. */
  method StoreWord(digest: array<byte>, off: nat, w: word)
    requires off + 4 <= digest.Length
    modifies digest
    ensures digest[..off + 4] == old(digest[..off]) + BytesBE([w])
    ensures digest[off + 4..] == old(digest[off + 4..])
  {
    hide Byte0, Byte1, Byte2, Byte3;
    digest[off], digest[off + 1], digest[off + 2], digest[off + 3] := Byte0(w), Byte1(w), Byte2(w), Byte3(w);
    assert [w][1..] == [];
    assert BytesBE([w]) == [Byte0(w), Byte1(w), Byte2(w), Byte3(w)] + BytesBE([w][1..]);
  }

  /** The eight state words, big-endian. */
  method StoreDigest(h: array<word>, digest: array<byte>)
    requires h.Length == 8 && digest.Length >= 32
    modifies digest
    ensures digest[..32] == BytesBE(h[..]) && digest[32..] == old(digest[32..])
  {
    hide BytesBE;
    BytesBENone();
    for i := 0 to 8
      invariant digest[..4 * i] == BytesBE(h[..i]) && digest[32..] == old(digest[32..])
    {
      StoreWord(digest, 4 * i, h[i]);
      BytesBEConcat(h[..i], [h[i]]);
      assert h[..i + 1] == h[..i] + [h[i]];
    }
    assert h[..8] == h[..];
  }

  lemma BytesBENone()
    ensures BytesBE([]) == []
  {
  }

  /** sha256: the SHA-256 of every message under 2^29 bytes. */
  method Sha256Of(message: array<byte>, off: nat, n: nat, digest: array<byte>)
    requires off + n <= message.Length && Addressable(0, n) && n < UINT_RANGE && digest.Length >= 32
    modifies digest
    ensures digest[..32] == ShortLengthDigest(old(message[off..off + n])) && digest[32..] == old(digest[32..])
    ensures n < 0x2000_0000 ==> digest[..32] == Sha256(old(message[off..off + n]))
  {
    hide ShortLengthDigest, FoldBytes, Sha256;
    var ctx := new Sha256Ctx();
    ctx.Update(message, off, n);
    assert ctx.Message == message[off..off + n];
    ctx.Final(digest);
    if n < 0x2000_0000 {
      ShortDigestExact(ctx.Message);
    }
  }

  /** The concatenation of a list of buffers. */
  ghost function Flatten(pieces: seq<array<byte>>): (b: seq<byte>)
    reads set p | p in pieces
  {
    if |pieces| == 0 then [] else Flatten(pieces[..|pieces| - 1]) + pieces[|pieces| - 1][..]
  }

  lemma {:induction false} FlattenPrefix(pieces: seq<array<byte>>, k: nat)
    requires k < |pieces|
    ensures |Flatten(pieces[..k])| + pieces[k].Length <= |Flatten(pieces)|
    ensures Flatten(pieces[..k + 1]) == Flatten(pieces[..k]) + pieces[k][..]
    decreases |pieces|
  {
    assert pieces[..k + 1][..k] == pieces[..k];
    if k + 1 < |pieces| {
      var front := pieces[..|pieces| - 1];
      FlattenPrefix(front, k);
      assert front[..k] == pieces[..k] && front[..k + 1] == pieces[..k + 1];
    } else {
      assert pieces[..k + 1] == pieces;
    }
  }

  lemma FlattenNone(pieces: seq<array<byte>>)
    ensures Flatten(pieces[..0]) == []
  {
  }

  /** However a message under 2^29 bytes is cut into updates, the digest is the SHA-256 of the whole. */
  method HashPieces(pieces: seq<array<byte>>, digest: array<byte>)
    requires digest.Length >= 32 && |Flatten(pieces)| < 0x2000_0000
    modifies digest
    ensures digest[..32] == Sha256(old(Flatten(pieces)))
  {
    hide ShortLengthDigest, FoldBytes, Sha256, Sha256Ctx.Valid, Flatten, Addressable;
    var ctx := new Sha256Ctx();
    FlattenNone(pieces);
    for i := 0 to |pieces|
      invariant ctx.Valid() && ctx.Message == Flatten(pieces[..i])
      invariant fresh(ctx) && fresh(ctx.block) && fresh(ctx.h)
      modifies ctx, ctx.block, ctx.h
    {
      FlattenPrefix(pieces, i);
      ctx.SmallPiece(pieces[i].Length);
      ctx.Update(pieces[i], 0, pieces[i].Length);
      assert pieces[i][0..0 + pieces[i].Length] == pieces[i][..];
    }
    assert pieces[..|pieces|] == pieces;
    ctx.Final(digest);
    ShortDigestExact(ctx.Message);
  }
}
