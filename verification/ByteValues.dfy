/** Numbers below 256 as bytes, and byte strings as numbers. */
module ByteValues {

  /** The byte with a given value. */
  function ByteOf(v: nat): bv8
    requires v < 256
  {
    if v == 0 then 0 else ByteOf(v - 1) + 1
  }

  lemma {:induction false} ByteValue(v: nat)
    requires v < 256
    ensures ByteOf(v) as int == v
  {
    if v == 0 {
    } else {
      ByteValue(v - 1);
      assert ByteOf(v - 1) != 255;
    }
  }

  lemma ByteZero(v: nat)
    requires v < 256
    ensures v as bv8 == 0 <==> v == 0
  {
  }

  /** An octet string as a little-endian integer. */
  function LittleEndian(b: seq<bv8>): nat {
    if |b| == 0 then 0 else (b[0] as int) + 256 * LittleEndian(b[1..])
  }
}
