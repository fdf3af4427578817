/** Bytes as numbers and as bit vectors. */
module ByteBits {
  lemma FromBits(b: bv8)
    ensures (b as int) as bv8 == b
  {}

  lemma NextBits(v: bv8)
    requires v < 255
    ensures (v + 1) as int == v as int + 1
  {}

  /** Every byte value is that of some bits. */
  lemma SomeBits(b: nat) returns (v: bv8)
    requires b < 256
    ensures v as int == b
  {
    v := 0;
    if b > 0 {
      v := SomeBits(b - 1);
      NextBits(v);
      v := v + 1;
    }
  }

  lemma FromNumber(b: nat)
    requires b < 256
    ensures (b as bv8) as int == b
  {
    var v := SomeBits(b);
    FromBits(v);
  }
}
