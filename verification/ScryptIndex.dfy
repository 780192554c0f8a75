/** The index into V: masking a word of X is reducing a 64-byte integer modulo a power of two. */
module ScryptIndex {
  import opened Words
  import opened Fips180
  import opened Rfc7914
  import opened ByteValues
  import opened Division

  /** The low j bits of a byte, all of them from 8 on. */
  function ByteMask(j: int): byte {
    if j <= 0 then 0
    else if j == 1 then 1
    else if j == 2 then 3
    else if j == 3 then 7
    else if j == 4 then 15
    else if j == 5 then 31
    else if j == 6 then 63
    else if j == 7 then 127
    else 255
  }

  /** The low k bits of a word. */
  function MaskOf(k: nat): word {
    Pack32(ByteMask(k - 24), ByteMask(k - 16), ByteMask(k - 8), ByteMask(k))
  }

  lemma TenBits()
    ensures MaskOf(10) == 1023 && Pow2(10) == 1024
  {
  }

  lemma MaskedBytes(w: word, a: byte, b: byte, c: byte, d: byte)
    ensures Byte0(w & Pack32(a, b, c, d)) == Byte0(w) & a && Byte1(w & Pack32(a, b, c, d)) == Byte1(w) & b
    ensures Byte2(w & Pack32(a, b, c, d)) == Byte2(w) & c && Byte3(w & Pack32(a, b, c, d)) == Byte3(w) & d
  {
  }

  lemma Bits1(b: byte)
    ensures (b & 1) as int == (b as int) % 2
  {
  }

  lemma Bits2(b: byte)
    ensures (b & 3) as int == (b as int) % 4
  {
  }

  lemma Bits3(b: byte)
    ensures (b & 7) as int == (b as int) % 8
  {
  }

  lemma Bits4(b: byte)
    ensures (b & 15) as int == (b as int) % 16
  {
  }

  lemma Bits5(b: byte)
    ensures (b & 31) as int == (b as int) % 32
  {
  }

  lemma Bits6(b: byte)
    ensures (b & 63) as int == (b as int) % 64
  {
  }

  lemma Bits7(b: byte)
    ensures (b & 127) as int == (b as int) % 128
  {
  }

  lemma Bits8(b: byte)
    ensures b & 255 == b && b & 0 == 0
  {
  }

  /** The low k bits of a digit to base 256. */
  function Low(b: nat, k: int): nat {
    if k <= 0 then 0 else if k >= 8 then b else b % Pow2(k)
  }

  lemma SmallPowers()
    ensures Pow2(1) == 2 && Pow2(2) == 4 && Pow2(3) == 8 && Pow2(4) == 16
    ensures Pow2(5) == 32 && Pow2(6) == 64 && Pow2(7) == 128 && Pow2(8) == 256
  {
  }

  lemma MaskedByte(b: byte, k: int)
    ensures (b & ByteMask(k)) as int == Low(b as int, k)
  {
    SmallPowers();
    Bits1(b);
    Bits2(b);
    Bits3(b);
    Bits4(b);
    Bits5(b);
    Bits6(b);
    Bits7(b);
    Bits8(b);
    hide Pow2;
  }

  /** One digit of a remainder modulo a power of two. */
  lemma OneDigit(b: nat, rest: nat, k: nat)
    requires b < 256
    ensures (b + 256 * rest) % Pow2(k) == Low(b, k) + 256 * if k <= 8 then 0 else rest % Pow2(k - 8)
  {
    SmallPowers();
    if k <= 8 {
      LowDigit(b, rest, k);
    } else {
      Pow2Add(8, k - 8);
      hide Pow2;
      var m := Pow2(k - 8);
      DivMod(rest, m);
      assert 256 * (m * (rest / m)) == (256 * m) * (rest / m);
      DivUnique(b + 256 * rest, 256 * m, rest / m, b + 256 * (rest % m));
    }
  }

  lemma LowDigit(b: nat, rest: nat, k: nat)
    requires b < 256 && k <= 8
    ensures (b + 256 * rest) % Pow2(k) == Low(b, k)
  {
    SmallPowers();
    Pow2Add(k, 8 - k);
    hide Pow2;
    ModOfBlock(b, rest, Pow2(k), Pow2(8 - k));
    if k == 0 {
      assert Pow2(0) == 1;
    }
  }

  lemma ModOfBlock(b: nat, rest: nat, p: nat, m: nat)
    requires p > 0 && p * m == 256
    ensures (b + 256 * rest) % p == b % p
  {
    DivMod(b, p);
    assert (p * m) * rest == p * (m * rest);
    assert p * (b / p + m * rest) == p * (b / p) + p * (m * rest);
    DivUnique(b + 256 * rest, p, b / p + m * rest, b % p);
  }

  /** A number by its four lowest digits to base 256. */
  function Digits(b0: nat, b1: nat, b2: nat, b3: nat, rest: nat): nat {
    b0 + 256 * (b1 + 256 * (b2 + 256 * (b3 + 256 * rest)))
  }

  lemma FourDigits(b0: nat, b1: nat, b2: nat, b3: nat, rest: nat, k: nat)
    requires b0 < 256 && b1 < 256 && b2 < 256 && b3 < 256 && k <= 32
    ensures Digits(b0, b1, b2, b3, rest) % Pow2(k)
      == Digits(Low(b0, k), Low(b1, k - 8), Low(b2, k - 16), Low(b3, k - 24), 0)
  {
    hide Pow2;
    OneDigit(b0, b1 + 256 * (b2 + 256 * (b3 + 256 * rest)), k);
    if k > 8 {
      OneDigit(b1, b2 + 256 * (b3 + 256 * rest), k - 8);
    }
    if k > 16 {
      OneDigit(b2, b3 + 256 * rest, k - 16);
    }
    if k > 24 {
      OneDigit(b3, rest, k - 24);
    }
  }

  /** The unsigned value of a word. */
  function ValueOf(w: word): nat {
    Digits(Byte3(w) as int, Byte2(w) as int, Byte1(w) as int, Byte0(w) as int, 0)
  }

  lemma LittleEndianNext(b: seq<byte>)
    requires |b| > 0
    ensures LittleEndian(b) == (b[0] as int) + 256 * LittleEndian(b[1..])
  {
  }

  lemma {:induction false} FirstBytes(ws: seq<word>)
    requires |ws| > 0
    ensures LittleEndian(BytesLE(ws)) == Digits(Byte3(ws[0]) as int, Byte2(ws[0]) as int, Byte1(ws[0]) as int,
      Byte0(ws[0]) as int, LittleEndian(BytesLE(ws[1..])))
  {
    hide Byte0, Byte1, Byte2, Byte3, LittleEndian;
    var b := BytesLE(ws);
    assert b == [Byte3(ws[0]), Byte2(ws[0]), Byte1(ws[0]), Byte0(ws[0])] + BytesLE(ws[1..]);
    assert b[1..][1..] == b[2..] && b[2..][1..] == b[3..] && b[3..][1..] == b[4..] == BytesLE(ws[1..]);
    LittleEndianNext(b);
    LittleEndianNext(b[1..]);
    LittleEndianNext(b[2..]);
    LittleEndianNext(b[3..]);
  }

  lemma LowByte3(w: word, k: nat)
    ensures Byte3(w & MaskOf(k)) as int == Low(Byte3(w) as int, k)
  {
    hide Byte0, Byte1, Byte2, Byte3, Low, ByteMask, Pack32;
    MaskedBytes(w, ByteMask(k - 24), ByteMask(k - 16), ByteMask(k - 8), ByteMask(k));
    MaskedByte(Byte3(w), k);
  }

  lemma LowByte2(w: word, k: nat)
    ensures Byte2(w & MaskOf(k)) as int == Low(Byte2(w) as int, k - 8)
  {
    hide Byte0, Byte1, Byte2, Byte3, Low, ByteMask, Pack32;
    MaskedBytes(w, ByteMask(k - 24), ByteMask(k - 16), ByteMask(k - 8), ByteMask(k));
    MaskedByte(Byte2(w), k - 8);
  }

  lemma LowByte1(w: word, k: nat)
    ensures Byte1(w & MaskOf(k)) as int == Low(Byte1(w) as int, k - 16)
  {
    hide Byte0, Byte1, Byte2, Byte3, Low, ByteMask, Pack32;
    MaskedBytes(w, ByteMask(k - 24), ByteMask(k - 16), ByteMask(k - 8), ByteMask(k));
    MaskedByte(Byte1(w), k - 16);
  }

  lemma LowByte0(w: word, k: nat)
    ensures Byte0(w & MaskOf(k)) as int == Low(Byte0(w) as int, k - 24)
  {
    hide Byte0, Byte1, Byte2, Byte3, Low, ByteMask, Pack32;
    MaskedBytes(w, ByteMask(k - 24), ByteMask(k - 16), ByteMask(k - 8), ByteMask(k));
    MaskedByte(Byte0(w), k - 24);
  }

  lemma ValueDigits(w: word)
    ensures ValueOf(w) == Digits(Byte3(w) as int, Byte2(w) as int, Byte1(w) as int, Byte0(w) as int, 0)
  {
    hide Byte0, Byte1, Byte2, Byte3, Digits;
  }

  lemma ValueMasked(w: word, k: nat)
    ensures ValueOf(w & MaskOf(k))
      == Digits(Low(Byte3(w) as int, k), Low(Byte2(w) as int, k - 8), Low(Byte1(w) as int, k - 16),
                Low(Byte0(w) as int, k - 24), 0)
  {
    hide *;
    LowByte0(w, k);
    LowByte1(w, k);
    LowByte2(w, k);
    LowByte3(w, k);
    ValueDigits(w & MaskOf(k));
  }

  /** A masked word of X is Integerify of section 5 of RFC 7914 modulo N, for every power of two N up to 2^32. */
  lemma {:induction false} IndexIsIntegerify(x: Vector, k: nat)
    requires k <= 32
    ensures ValueOf(x[16] & MaskOf(k)) == Integerify(x) % Pow2(k)
  {
    hide *;
    var w, rest := x[16], LittleEndian(BytesLE(x[16..][1..]));
    IntegerifyDigits(x, w, rest);
    ByteRange(w);
    ValueMasked(w, k);
    FourDigits(Byte3(w) as int, Byte2(w) as int, Byte1(w) as int, Byte0(w) as int, rest, k);
  }

  lemma ByteRange(w: word)
    ensures Byte0(w) as int < 256 && Byte1(w) as int < 256 && Byte2(w) as int < 256 && Byte3(w) as int < 256
  {
    hide *;
  }

  lemma {:induction false} IntegerifyDigits(x: Vector, w: word, rest: nat)
    requires w == x[16] && rest == LittleEndian(BytesLE(x[16..][1..]))
    ensures Integerify(x) == Digits(Byte3(w) as int, Byte2(w) as int, Byte1(w) as int, Byte0(w) as int, rest)
  {
    hide Byte0, Byte1, Byte2, Byte3, LittleEndian, BytesLE, Digits;
    assert x[16..][0] == w;
    FirstBytes(x[16..]);
  }
}
