/** SHA-256 as FIPS 180-4 defines it: the specification both compressions and the streaming code are held to. */
module Fips180 {
  import opened Words

  type State = s: seq<word> | |s| == 8 witness [0, 0, 0, 0, 0, 0, 0, 0]
  type Block = b: seq<word> | |b| == 16 witness [0, 0, 0, 0, 0, 0, 0, 0, 0, 0, 0, 0, 0, 0, 0, 0]

  /** Section 4.2.2. */
  const K0: seq<word> := [
    0x428a2f98, 0x71374491, 0xb5c0fbcf, 0xe9b5dba5, 0x3956c25b, 0x59f111f1, 0x923f82a4, 0xab1c5ed5]
  const K1: seq<word> := [
    0xd807aa98, 0x12835b01, 0x243185be, 0x550c7dc3, 0x72be5d74, 0x80deb1fe, 0x9bdc06a7, 0xc19bf174]
  const K2: seq<word> := [
    0xe49b69c1, 0xefbe4786, 0x0fc19dc6, 0x240ca1cc, 0x2de92c6f, 0x4a7484aa, 0x5cb0a9dc, 0x76f988da]
  const K3: seq<word> := [
    0x983e5152, 0xa831c66d, 0xb00327c8, 0xbf597fc7, 0xc6e00bf3, 0xd5a79147, 0x06ca6351, 0x14292967]
  const K4: seq<word> := [
    0x27b70a85, 0x2e1b2138, 0x4d2c6dfc, 0x53380d13, 0x650a7354, 0x766a0abb, 0x81c2c92e, 0x92722c85]
  const K5: seq<word> := [
    0xa2bfe8a1, 0xa81a664b, 0xc24b8b70, 0xc76c51a3, 0xd192e819, 0xd6990624, 0xf40e3585, 0x106aa070]
  const K6: seq<word> := [
    0x19a4c116, 0x1e376c08, 0x2748774c, 0x34b0bcb5, 0x391c0cb3, 0x4ed8aa4a, 0x5b9cca4f, 0x682e6ff3]
  const K7: seq<word> := [
    0x748f82ee, 0x78a5636f, 0x84c87814, 0x8cc70208, 0x90befffa, 0xa4506ceb, 0xbef9a3f7, 0xc67178f2]
  const K: seq<word> := (((K0 + K1) + (K2 + K3)) + ((K4 + K5) + (K6 + K7)))

  /** Section 5.3.3. */
  const H0: State := [
    0x6a09e667, 0xbb67ae85, 0x3c6ef372, 0xa54ff53a, 0x510e527f, 0x9b05688c, 0x1f83d9ab, 0x5be0cd19]

  /** Section 4.1.2. */
  function Ch(x: word, y: word, z: word): word { (x & y) ^ (!x & z) }
  function Maj(x: word, y: word, z: word): word { ((x & y) ^ (x & z)) ^ (y & z) }
  function RotR(x: word, n: bv6): word
    requires n <= 32
  {
    (x >> n) | (x << (32 - n))
  }
  function BigSigma0(x: word): word { (RotR(x, 2) ^ RotR(x, 13)) ^ RotR(x, 22) }
  function BigSigma1(x: word): word { (RotR(x, 6) ^ RotR(x, 11)) ^ RotR(x, 25) }
  function SmallSigma0(x: word): word { (RotR(x, 7) ^ RotR(x, 18)) ^ (x >> 3) }
  function SmallSigma1(x: word): word { (RotR(x, 17) ^ RotR(x, 19)) ^ (x >> 10) }

  /** The first n words of the message schedule (step 1 of section 6.2.2). */
  function Schedule(b: Block, n: nat): (w: seq<word>)
    requires 16 <= n
    ensures |w| == n
  {
    if n == 16 then b
    else
      var w := Schedule(b, n - 1);
      w + [Add32(Add32(Add32(SmallSigma1(w[n - 3]), w[n - 8]), SmallSigma0(w[n - 16])), w[n - 17])]
  }

  /** A schedule with the word behind it is the schedule that is one longer. */
  lemma {:induction false} OneWordMore(b: Block, w: seq<word>, n: nat)
    requires 16 <= n && |w| == n + 1 && w[..n] == Schedule(b, n)
    requires w[n] == Add32(Add32(Add32(SmallSigma1(w[n - 2]), w[n - 7]), SmallSigma0(w[n - 15])), w[n - 16])
    ensures w == Schedule(b, n + 1)
  {
    hide SmallSigma0, SmallSigma1, Add32;
    var v := w[..n];
    assert v[n - 2] == w[n - 2] && v[n - 7] == w[n - 7] && v[n - 15] == w[n - 15] && v[n - 16] == w[n - 16];
    assert w == v + [w[n]];
  }

  /** T1 and T2 of step 3 of section 6.2.2. */
  function Temp1(e: word, f: word, g: word, h: word, k: word, w: word): word {
    Sum5(h, BigSigma1(e), Ch(e, f, g), k, w)
  }
  function Temp2(a: word, b: word, c: word): word {
    Add32(BigSigma0(a), Maj(a, b, c))
  }

  /** The working variables a..h after one round (step 3 of section 6.2.2). */
  function Round(v: State, k: word, w: word): State {
    var t1 := Temp1(v[4], v[5], v[6], v[7], k, w);
    var t2 := Temp2(v[0], v[1], v[2]);
    [Add32(t1, t2), v[0], v[1], v[2], Add32(v[3], t1), v[4], v[5], v[6]]
  }

  /** The working variables after the first n rounds. */
  function Rounds(h: State, w: seq<word>, n: nat): State
    requires n <= |w| && n <= 64
  {
    if n == 0 then h else Round(Rounds(h, w, n - 1), K[n - 1], w[n - 1])
  }

  function AddStates(a: State, b: State): State {
    seq(8, i requires 0 <= i < 8 => Add32(a[i], b[i]))
  }

  /** Section 6.2.2: one block. */
  function Compress(h: State, b: Block): State {
    AddStates(h, Rounds(h, Schedule(b, 64), 64))
  }

  /** The hash value after every 16-word block of a word string. */
  function Fold(h: State, ws: seq<word>): State
    requires |ws| % 16 == 0
    decreases |ws|
  {
    if |ws| == 0 then h
    else Compress(Fold(h, ws[..|ws| - 16]), ws[|ws| - 16..])
  }

  lemma {:induction false} FoldConcat(h: State, a: seq<word>, b: seq<word>)
    requires |a| % 16 == 0 && |b| % 16 == 0
    ensures Fold(h, a + b) == Fold(Fold(h, a), b)
    decreases |b|
  {
    hide Compress;
    if |b| == 0 {
      assert a + b == a;
    } else {
      var k := |b| - 16;
      FoldConcat(h, a, b[..k]);
      assert (a + b)[..|a + b| - 16] == a + b[..k];
      assert (a + b)[|a + b| - 16..] == b[k..];
    }
  }

  lemma FoldOne(h: State, b: Block)
    ensures Fold(h, b) == Compress(h, b)
  {
    hide Compress;
    assert b[..0] == [] && b[0..] == b;
    assert Fold(h, b[..0]) == h;
  }

  /** Big-endian 8-byte encoding of a length. */
  function BE64(n: nat): (b: seq<byte>)
    ensures |b| == 8
  {
    BE32((n / 0x1_0000_0000) % 0x1_0000_0000) + BE32(n % 0x1_0000_0000)
  }

  function BE32(n: nat): (b: seq<byte>)
    requires n < 0x1_0000_0000
    ensures |b| == 4
  {
    [(n / 0x100_0000) as byte, ((n / 0x1_0000) % 0x100) as byte, ((n / 0x100) % 0x100) as byte, (n % 0x100) as byte]
  }

  function Zeros(n: nat): (b: seq<byte>)
    ensures |b| == n
  {
    seq(n, _ => 0)
  }

  /** The bytes section 5.1.1 appends to a message of n bytes, with the given length field. */
  function PaddingWith(n: nat, lengthField: seq<byte>): (p: seq<byte>)
    requires |lengthField| == 8
    ensures (n + |p|) % 64 == 0
  {
    [0x80] + Zeros((119 - n % 64) % 64) + lengthField
  }

  function Padding(n: nat): (p: seq<byte>)
    ensures (n + |p|) % 64 == 0
  {
    PaddingWith(n, BE64(8 * n))
  }

  lemma BlocksAreWords(n: nat)
    requires n % 64 == 0
    ensures n % 4 == 0 && (n / 4) % 16 == 0
  {
    assert n == 4 * (16 * (n / 64));
  }

  /** The message blocks of section 5.2.1 for a byte string of whole blocks. */
  function BlockWords(b: seq<byte>): (ws: seq<word>)
    requires |b| % 64 == 0
    ensures |b| % 4 == 0 && |ws| % 16 == 0 && ws == WordsBE(b)
  {
    BlocksAreWords(|b|);
    WordsBE(b)
  }

  /** Section 6.2. */
  function Sha256(m: seq<byte>): (d: seq<byte>)
    ensures |d| == 32
  {
    BytesBE(Fold(H0, BlockWords(m + Padding(|m|))))
  }
}
