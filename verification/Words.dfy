/** Bytes, 32-bit words and the two byte orders the hashing code moves between. */
module Words {
  import opened Sequences

  type byte = bv8
  type word = bv32

  /** The big-endian word of four bytes, as the PACK32 macro of sha2.c builds it. */
  function Pack32(a: byte, b: byte, c: byte, d: byte): word {
    ((((a as word) << 24) | ((b as word) << 16)) | ((c as word) << 8)) | (d as word)
  }

  /** The four bytes of a word, most significant first, as the UNPACK32 macro of sha2.c stores them. */
  function Byte0(w: word): byte { ((w >> 24) & 0xff) as byte }
  function Byte1(w: word): byte { ((w >> 16) & 0xff) as byte }
  function Byte2(w: word): byte { ((w >> 8) & 0xff) as byte }
  function Byte3(w: word): byte { (w & 0xff) as byte }

  /** Addition modulo 2^32 and exclusive or, named so that proofs about data movement can hide them. */
  function Add32(a: word, b: word): word { a + b }
  function Sum5(a: word, b: word, c: word, d: word, e: word): word { (((a + b) + c) + d) + e }
  function Xor8(a: byte, b: byte): byte { a ^ b }
  function Xor32(a: word, b: word): word { a ^ b }

  /** bswap_32, which is also htobe32 on a little-endian host. */
  function Swab32(w: word): word {
    (((w << 24) | ((w << 8) & 0xff0000)) | ((w >> 8) & 0xff00)) | (w >> 24)
  }

  /** The big-endian words of a byte string (section 5.2.1 of FIPS 180-4). */
  function WordsBE(b: seq<byte>): (ws: seq<word>)
    requires |b| % 4 == 0
    ensures 4 * |ws| == |b|
  {
    if |b| == 0 then [] else [Pack32(b[0], b[1], b[2], b[3])] + WordsBE(b[4..])
  }

  /** The big-endian bytes of a word string. */
  function BytesBE(ws: seq<word>): (b: seq<byte>)
    ensures |b| == 4 * |ws|
  {
    if |ws| == 0 then []
    else [Byte0(ws[0]), Byte1(ws[0]), Byte2(ws[0]), Byte3(ws[0])] + BytesBE(ws[1..])
  }

  /** What a little-endian host finds in memory under an array of words. */
  function BytesLE(ws: seq<word>): (b: seq<byte>)
    ensures |b| == 4 * |ws|
  {
    if |ws| == 0 then []
    else [Byte3(ws[0]), Byte2(ws[0]), Byte1(ws[0]), Byte0(ws[0])] + BytesLE(ws[1..])
  }

  /** The words a little-endian host loads from a byte string. */
  function WordsLE(b: seq<byte>): (ws: seq<word>)
    requires |b| % 4 == 0
    ensures 4 * |ws| == |b|
  {
    if |b| == 0 then [] else [Pack32(b[3], b[2], b[1], b[0])] + WordsLE(b[4..])
  }

  /** Byte-swapping every word. */
  function SwabAll(ws: seq<word>): (r: seq<word>)
    ensures |r| == |ws|
    ensures forall i :: 0 <= i < |ws| ==> r[i] == Swab32(ws[i])
  {
    seq(|ws|, i requires 0 <= i < |ws| => Swab32(ws[i]))
  }

  /** Exclusive or: what either has but not both. */
  lemma XorIsExclusive(a: byte, b: byte, v: word, w: word)
    ensures Xor8(a, b) == (a | b) & !(a & b) && Xor32(v, w) == (v | w) & !(v & w)
  {
  }

  lemma PackBytes(w: word)
    ensures Pack32(Byte0(w), Byte1(w), Byte2(w), Byte3(w)) == w
  {
  }

  lemma BytesOfPack(a: byte, b: byte, c: byte, d: byte)
    ensures Byte0(Pack32(a, b, c, d)) == a && Byte1(Pack32(a, b, c, d)) == b
    ensures Byte2(Pack32(a, b, c, d)) == c && Byte3(Pack32(a, b, c, d)) == d
  {
  }

  lemma SwabTwice(w: word)
    ensures Swab32(Swab32(w)) == w
  {
  }

  lemma SwabBytes(w: word)
    ensures Byte0(Swab32(w)) == Byte3(w) && Byte1(Swab32(w)) == Byte2(w)
    ensures Byte2(Swab32(w)) == Byte1(w) && Byte3(Swab32(w)) == Byte0(w)
  {
  }

  /** bswap_32 reverses the four bytes. */
  lemma SwabReverses(w: word)
    ensures Pack32(Byte3(w), Byte2(w), Byte1(w), Byte0(w)) == Swab32(w)
    ensures Byte0(Swab32(w)) == Byte3(w) && Byte1(Swab32(w)) == Byte2(w)
    ensures Byte2(Swab32(w)) == Byte1(w) && Byte3(Swab32(w)) == Byte0(w)
  {
    hide Pack32, Byte0, Byte1, Byte2, Byte3, Swab32;
    SwabBytes(w);
    PackBytes(Swab32(w));
  }

  /** Storing words big-endian and reading them back changes nothing. */
  lemma {:induction false} WordsOfBytes(ws: seq<word>)
    ensures WordsBE(BytesBE(ws)) == ws
  {
    hide Pack32, Byte0, Byte1, Byte2, Byte3;
    if |ws| == 0 {
    } else {
      PackBytes(ws[0]);
      WordsOfBytes(ws[1..]);
      assert BytesBE(ws)[4..] == BytesBE(ws[1..]);
    }
  }

  lemma WordsBEFirst(b: seq<byte>)
    requires |b| >= 4 && |b| % 4 == 0
    ensures |b[4..]| % 4 == 0
    ensures WordsBE(b) == [Pack32(b[0], b[1], b[2], b[3])] + WordsBE(b[4..])
  {
    hide Pack32;
  }

  lemma {:induction false} WordsBEConcat(a: seq<byte>, b: seq<byte>)
    requires |a| % 4 == 0 && |b| % 4 == 0
    ensures WordsBE(a + b) == WordsBE(a) + WordsBE(b)
  {
    if |a| == 0 {
      assert a + b == b;
    } else {
      hide *;
      WordsBEFirst(a);
      WordsBEConcat(a[4..], b);
      var c := a + b;
      assert c[4..] == a[4..] + b;
      assert c[0] == a[0] && c[1] == a[1] && c[2] == a[2] && c[3] == a[3];
      WordsBEFirst(c);
      Associative([Pack32(a[0], a[1], a[2], a[3])], WordsBE(a[4..]), WordsBE(b));
    }
  }

  lemma {:induction false} BytesBEConcat(a: seq<word>, b: seq<word>)
    ensures BytesBE(a + b) == BytesBE(a) + BytesBE(b)
  {
    hide Byte0, Byte1, Byte2, Byte3;
    if |a| == 0 {
      assert a + b == b;
    } else {
      BytesBEConcat(a[1..], b);
      assert (a + b)[1..] == a[1..] + b;
      Associative([Byte0(a[0]), Byte1(a[0]), Byte2(a[0]), Byte3(a[0])], BytesBE(a[1..]), BytesBE(b));
    }
  }

  lemma {:induction false} BytesLEConcat(a: seq<word>, b: seq<word>)
    ensures BytesLE(a + b) == BytesLE(a) + BytesLE(b)
  {
    hide Byte0, Byte1, Byte2, Byte3;
    if |a| == 0 {
      assert a + b == b;
    } else {
      BytesLEConcat(a[1..], b);
      assert (a + b)[1..] == a[1..] + b;
      Associative([Byte3(a[0]), Byte2(a[0]), Byte1(a[0]), Byte0(a[0])], BytesLE(a[1..]), BytesLE(b));
    }
  }

  /** Loading little-endian and swapping reads big-endian. */
  lemma {:induction false} WordsBEOfBytesLE(ws: seq<word>)
    ensures WordsBE(BytesLE(ws)) == SwabAll(ws)
  {
    hide Pack32, Byte0, Byte1, Byte2, Byte3, Swab32;
    if |ws| == 0 {
    } else {
      SwabReverses(ws[0]);
      WordsBEOfBytesLE(ws[1..]);
      assert BytesLE(ws)[4..] == BytesLE(ws[1..]);
      assert SwabAll(ws) == [Swab32(ws[0])] + SwabAll(ws[1..]);
    }
  }

  lemma {:induction false} BytesLEOfSwabAll(ws: seq<word>)
    ensures BytesLE(SwabAll(ws)) == BytesBE(ws)
  {
    hide Byte0, Byte1, Byte2, Byte3, Swab32;
    if |ws| == 0 {
    } else {
      SwabReverses(ws[0]);
      BytesLEOfSwabAll(ws[1..]);
      assert SwabAll(ws)[1..] == SwabAll(ws[1..]);
    }
  }

  lemma {:induction false} WordsLEOfBytesLE(ws: seq<word>)
    ensures WordsLE(BytesLE(ws)) == ws
  {
    hide Pack32, Byte0, Byte1, Byte2, Byte3;
    if |ws| == 0 {
    } else {
      PackBytes(ws[0]);
      WordsLEOfBytesLE(ws[1..]);
      assert BytesLE(ws)[4..] == BytesLE(ws[1..]);
    }
  }

  lemma SwabAllTwice(ws: seq<word>)
    ensures SwabAll(SwabAll(ws)) == ws
  {
    forall i | 0 <= i < |ws|
      ensures SwabAll(SwabAll(ws))[i] == ws[i]
    {
      hide Swab32;
      SwabTwice(ws[i]);
    }
  }

  lemma SwabAllConcat(a: seq<word>, b: seq<word>)
    ensures SwabAll(a + b) == SwabAll(a) + SwabAll(b)
  {
  }
}
