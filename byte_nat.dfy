/** Conversion of small naturals to bytes and back. */
module ByteNat {
  /** A natural below 256 survives the round trip through `bv8`. The range is split so
      that each case stays small for the solver. */
  lemma SmallNatOfByte(n: nat)
    requires n < 256
    ensures (n as bv8) as nat == n
  {
    if n < 32 {
    } else if n < 64 {
    } else if n < 96 {
    } else if n < 128 {
    } else if n < 160 {
    } else if n < 192 {
    } else if n < 224 {
    } else {
    }
  }
}
