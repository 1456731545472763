/** The per-symbol record of the code table. */
module CharInfos {
  import opened Bits

  /** `bits` holds the code in its low `bitCount` bits, the root branch in bit
      `bitCount - 1`; `frequency` is how often the char occurs in the message. */
  datatype CharInfo = CharInfo(bits: int, bitCount: int, frequency: int)

  /** Only the low `bitCount` bits of `bits` are set, the code is at least one
      bit long and the symbol occurs at least once. */
  predicate WellFormed(info: CharInfo)
  {
    info.bitCount >= 1 && 0 <= info.bits < Pow2(info.bitCount) && info.frequency >= 1
  }

  /** The code as a root-to-leaf path: `bits` read from bit `bitCount - 1`
      down to bit 0 (false = Left, true = Right). */
  function Code(info: CharInfo): (path: seq<bool>)
    requires WellFormed(info)
    ensures |path| == info.bitCount
    ensures BitsValue(path) == info.bits
  {
    ToBitsValue(info.bits, info.bitCount);
    ToBits(info.bits, info.bitCount)
  }
}
