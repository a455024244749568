/** The little-endian byte layout of the ten packed-BCD bytes as fbld
    receives them and fbstp returns them (rosettaRuntime/X87.cpp, x87_fbld
    and x87_fbstp): bytes 0-7 are the low 64-bit word, low byte first, and
    bytes 8-9 are the low two bytes of the high word. */
module ByteOrder {
  import opened Bcd

  /** fbstp's return value, cut to the bytes the source defines. */
  datatype Image = Image(low: bv64, high: bv16)

  /** The byte of `w` at bit offset `shift`. */
  function Byte64(w: bv64, shift: bv64): (b: bv8)
    requires shift <= 56
    ensures b as bv64 == (w >> shift) & 0xFF
  {
    ((w >> shift) & 0xFF) as bv8
  }

  /** x87_fbld's two memcpy calls: all eight bytes of `low`, then the two
      low bytes of `high`. */
  function Split(low: bv64, high: bv64): (b: Bytes10)
    ensures b[0] as bv64 == low & 0xFF && b[8] as bv64 == high & 0xFF
    ensures b[7] as bv64 == low >> 56 && b[9] as bv64 == (high >> 8) & 0xFF
  {
    [Byte64(low, 0), Byte64(low, 8), Byte64(low, 16), Byte64(low, 24),
     Byte64(low, 32), Byte64(low, 40), Byte64(low, 48), Byte64(low, 56),
     Byte64(high, 0), Byte64(high, 8)]
  }

  /** The little-endian words over the ten bytes, as x87_fbstp reads them
      back. */
  function Join(b: Bytes10): (m: Image)
    ensures m.low & 0xFF == b[0] as bv64 && m.low >> 56 == b[7] as bv64
    ensures m.high & 0xFF == b[8] as bv16 && m.high >> 8 == b[9] as bv16
  {
    Image(JoinLow(b[0], b[1], b[2], b[3], b[4], b[5], b[6], b[7]), (b[8] as bv16) | ((b[9] as bv16) << 8))
  }

  function JoinLow(b0: bv8, b1: bv8, b2: bv8, b3: bv8, b4: bv8, b5: bv8, b6: bv8, b7: bv8): bv64 {
    (b0 as bv64) | ((b1 as bv64) << 8) | ((b2 as bv64) << 16) | ((b3 as bv64) << 24)
      | ((b4 as bv64) << 32) | ((b5 as bv64) << 40) | ((b6 as bv64) << 48) | ((b7 as bv64) << 56)
  }

  /** Splitting two words and joining the bytes gives back the low word and
      the part of the high word fbld copies. */
  lemma JoinSplit(low: bv64, high: bv64)
    ensures Join(Split(low, high)) == Image(low, (high & 0xFFFF) as bv16)
  {
    var b := Split(low, high);
    LowWordBack(low);
    HighWordBack(high, b[8], b[9]);
  }

  lemma LowWordBack(w: bv64)
    ensures JoinLow(Byte64(w, 0), Byte64(w, 8), Byte64(w, 16), Byte64(w, 24),
                    Byte64(w, 32), Byte64(w, 40), Byte64(w, 48), Byte64(w, 56)) == w
  {
  }

  lemma HighWordBack(w: bv64, b8: bv8, b9: bv8)
    requires b8 == Byte64(w, 0) && b9 == Byte64(w, 8)
    ensures (b8 as bv16) | ((b9 as bv16) << 8) == (w & 0xFFFF) as bv16
  {
  }
}
