/** The little-endian nonce2 bytes a work generator stamps into the coinbase. */
module Nonce2 {
  import opened Words
  import opened Division
  import opened ByteValues

  /** The low k bytes of a counter, least significant first: memcpy of htole64(nonce2). */
  function LowBytes(v: nat, k: nat): (b: seq<byte>)
    ensures |b| == k
  {
    if k == 0 then [] else [ByteOf(v % 256)] + LowBytes(v / 256, k - 1)
  }

  function Pow256(k: nat): (p: nat)
    ensures p > 0
  {
    if k == 0 then 1 else 256 * Pow256(k - 1)
  }

  lemma ModSplit(v: nat, p: nat)
    requires p > 0
    ensures v % (256 * p) == v % 256 + 256 * ((v / 256) % p)
  {
    var q, r := v / 256, v % 256;
    var s, t := q / p, q % p;
    assert q == p * s + t;
    assert 256 * (p * s) == (256 * p) * s;
    assert v == (256 * p) * s + (256 * t + r);
    DivUnique(v, 256 * p, s, 256 * t + r);
  }

  /** Read as a little-endian number, the bytes are the counter modulo 256^k. */
  lemma {:induction false} LowBytesValue(v: nat, k: nat)
    ensures LittleEndian(LowBytes(v, k)) == v % Pow256(k)
  {
    hide ByteOf;
    if k == 0 {
    } else {
      LowBytesValue(v / 256, k - 1);
      ByteValue(v % 256);
      ModSplit(v, Pow256(k - 1));
      var b := LowBytes(v, k);
      assert b[0] == ByteOf(v % 256) && b[1..] == LowBytes(v / 256, k - 1);
    }
  }

  lemma {:induction false} LittleEndianBound(b: seq<byte>)
    ensures LittleEndian(b) < Pow256(|b|)
  {
    if |b| == 0 {
    } else {
      LittleEndianBound(b[1..]);
    }
  }

  /** There is only one string of a length for a number. */
  lemma {:induction false} LittleEndianUnique(a: seq<byte>, b: seq<byte>)
    requires |a| == |b| && LittleEndian(a) == LittleEndian(b)
    ensures a == b
  {
    if |a| == 0 {
    } else {
      assert a[0] as int == b[0] as int && LittleEndian(a[1..]) == LittleEndian(b[1..]);
      LittleEndianUnique(a[1..], b[1..]);
      assert a == [a[0]] + a[1..] && b == [b[0]] + b[1..];
    }
  }

  lemma SameByte(a: nat, b: nat)
    requires a < 256 && b < 256
    ensures ByteOf(a) == ByteOf(b) <==> a == b
  {
    hide ByteOf;
    ByteValue(a);
    ByteValue(b);
    if ByteOf(a) == ByteOf(b) {
      assert ByteOf(a) as int == ByteOf(b) as int;
    }
  }

  /** Two counters stamp the same bytes exactly when they agree modulo 256^k. */
  lemma {:induction false} SameLowBytes(a: nat, b: nat, k: nat)
    ensures LowBytes(a, k) == LowBytes(b, k) <==> a % Pow256(k) == b % Pow256(k)
  {
    hide ByteOf;
    if k == 0 {
    } else {
      SameLowBytes(a / 256, b / 256, k - 1);
      ModSplit(a, Pow256(k - 1));
      ModSplit(b, Pow256(k - 1));
      SameByte(a % 256, b % 256);
      var x, y := LowBytes(a, k), LowBytes(b, k);
      assert x[0] == ByteOf(a % 256) && y[0] == ByteOf(b % 256);
      assert x[1..] == LowBytes(a / 256, k - 1) && y[1..] == LowBytes(b / 256, k - 1);
      assert x == [x[0]] + x[1..] && y == [y[0]] + y[1..];
    }
  }

  /** While the counter fits in the nonce2 field, different counters give different bytes. */
  lemma DistinctLowBytes(a: nat, b: nat, k: nat)
    requires a != b && a < Pow256(k) && b < Pow256(k)
    ensures LowBytes(a, k) != LowBytes(b, k)
  {
    hide LowBytes;
    SameLowBytes(a, b, k);
    DivUnique(a, Pow256(k), 0, a);
    DivUnique(b, Pow256(k), 0, b);
  }

  lemma {:induction false} PowSplit(i: nat, j: nat)
    ensures Pow256(i + j) == Pow256(i) * Pow256(j)
  {
    if i == 0 {
    } else {
      PowSplit(i - 1, j);
      assert 256 * (Pow256(i - 1) * Pow256(j)) == (256 * Pow256(i - 1)) * Pow256(j);
    }
  }

  lemma Regroup(v: nat, p: nat, m: nat, q: nat, s: nat, t: nat)
    requires v == (p * m) * q + (p * s + t)
    ensures v == p * (m * q + s) + t
  {
    assert (p * m) * q == p * (m * q);
    assert p * (m * q) + p * s == p * (m * q + s);
  }

  lemma ModOfMultiple(v: nat, p: nat, m: nat)
    requires p > 0 && m > 0 && p * m > 0
    ensures (v % (p * m)) % p == v % p
  {
    var q := v / (p * m);
    var r := v % (p * m);
    DivMod(v, p * m);
    DivMod(r, p);
    Regroup(v, p, m, q, r / p, r % p);
    DivUnique(v, p, m * q + r / p, r % p);
  }

  /** Keeping the counter in 64 bits loses nothing: the field is at most 8 bytes wide. */
  lemma WrapIsInvisible(v: nat, k: nat)
    requires k <= 8
    ensures LowBytes(v % Pow256(8), k) == LowBytes(v, k)
  {
    hide LowBytes, Pow256;
    PowSplit(k, 8 - k);
    ModOfMultiple(v, Pow256(k), Pow256(8 - k));
    SameLowBytes(v % Pow256(8), v, k);
  }
}
