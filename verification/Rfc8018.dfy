/** HMAC-SHA256 (RFC 2104) and PBKDF2 (section 5.2 of RFC 8018) over byte strings. */
module Rfc8018 {
  import opened Words
  import opened Fips180

  function XorByte(b: seq<byte>, x: byte): (r: seq<byte>)
    ensures |r| == |b|
  {
    seq(|b|, i requires 0 <= i < |b| => Xor8(b[i], x))
  }

  function XorBytes(a: seq<byte>, b: seq<byte>): (r: seq<byte>)
    requires |a| == |b|
    ensures |r| == |a|
  {
    seq(|a|, i requires 0 <= i < |a| => Xor8(a[i], b[i]))
  }

  /** The key as one block: hashed if longer than a block, then zero-padded. */
  function BlockKey(k: seq<byte>): (r: seq<byte>)
    ensures |r| == 64
  {
    var short := if |k| > 64 then Sha256(k) else k;
    short + Zeros(64 - |short|)
  }

  /** Section 2 of RFC 2104. */
  function Hmac(k: seq<byte>, m: seq<byte>): (r: seq<byte>)
    ensures |r| == 32
  {
    Sha256(XorByte(BlockKey(k), 0x5c) + Sha256(XorByte(BlockKey(k), 0x36) + m))
  }

  /** U_j of block i. */
  function U(p: seq<byte>, s: seq<byte>, i: nat, j: nat): (r: seq<byte>)
    requires 1 <= j && i < 0x1_0000_0000
    ensures |r| == 32
  {
    if j == 1 then Hmac(p, s + BE32(i)) else Hmac(p, U(p, s, i, j - 1))
  }

  /** F(P, S, c, i): the exclusive or of U_1 .. U_c. */
  function F(p: seq<byte>, s: seq<byte>, c: nat, i: nat): (r: seq<byte>)
    requires 1 <= c && i < 0x1_0000_0000
    ensures |r| == 32
  {
    if c == 1 then U(p, s, i, 1) else XorBytes(F(p, s, c - 1, i), U(p, s, i, c))
  }

  /** T_1 .. T_l, concatenated. */
  function Blocks(p: seq<byte>, s: seq<byte>, c: nat, l: nat): (r: seq<byte>)
    requires 1 <= c && l < 0x1_0000_0000
    ensures |r| == 32 * l
  {
    if l == 0 then [] else Blocks(p, s, c, l - 1) + F(p, s, c, l)
  }

  function Pbkdf2(p: seq<byte>, s: seq<byte>, c: nat, dkLen: nat): (r: seq<byte>)
    requires 1 <= c && dkLen <= 32 * 0xffff_ffff
    ensures |r| == dkLen
  {
    Blocks(p, s, c, (dkLen + 31) / 32)[..dkLen]
  }
}
