/** Single bytes and the masks and shifts the generator applies to them. */
module Bytes {
  type Byte = x: int | 0 <= x < 256 witness 0

  lemma RoundTrip(b: bv8)
    ensures (b as int) as bv8 == b
  {
  }

  lemma Successor(b: bv8)
    requires b < 255
    ensures (b + 1) as int == b as int + 1
  {
  }

  lemma {:induction false} BitsExist(v: Byte) returns (b: bv8)
    ensures b as int == v
  {
    b := 0;
    if v > 0 {
      b := BitsExist(v - 1);
      Successor(b);
      b := b + 1;
    }
  }

  lemma BackAgain(v: Byte)
    ensures (v as bv8) as int == v
  {
    var b := BitsExist(v);
    RoundTrip(b);
  }

  method Bits(v: Byte) returns (b: bv8)
    ensures b as int == v
  {
    BackAgain(v);
    b := v as bv8;
  }

  lemma VersionBits(b: bv8)
    ensures (0x70 | (b & 0x0f)) as int == 0x70 + b as int % 16
  {
  }

  lemma VariantBits(b: bv8)
    ensures (0x80 | (b & 0x3f)) as int == 0x80 + b as int % 64
  {
  }

  method WithVersion(r: Byte) returns (v: Byte)
    ensures v == 0x70 + r % 16
  {
    var b := Bits(r);
    VersionBits(b);
    v := (0x70 | (b & 0x0f)) as int;
  }

  method WithVariant(r: Byte) returns (v: Byte)
    ensures v == 0x80 + r % 64
  {
    var b := Bits(r);
    VariantBits(b);
    v := (0x80 | (b & 0x3f)) as int;
  }

  lemma NibbleBits(b: bv8)
    ensures (b >> 4) as int == b as int / 16
    ensures (b & 0x0f) as int == b as int % 16
  {
  }

  method Nibbles(v: Byte) returns (high: nat, low: nat)
    ensures high == v / 16 && low == v % 16
  {
    var b := Bits(v);
    NibbleBits(b);
    high, low := (b >> 4) as int, (b & 0x0f) as int;
  }
}
