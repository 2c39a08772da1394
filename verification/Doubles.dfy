/** The double arithmetic of the reader's over-long integers, as far as any rounding agrees. */
module Doubles {
  import opened Bytes

  /** 1.7976931348623157e307, at which the scan of an over-long integer takes no further digit. No double lies
      between this decimal and the double that stands for it. */
  const LIMIT: nat := 17976931348623157 * Power10(291)

  predicate ReachesLimit(d: nat) {
    d >= LIMIT
  }

  /** The result of one conversion, or of one multiplication by ten and addition, for the exact result `n`: off by at
      most one part in 2^50. Both roundings to 53 bits together are, in every rounding mode, fused or not. */
  predicate Near(d: nat, n: nat) {
    n * 0x3_FFFF_FFFF_FFFF <= d * 0x4_0000_0000_0000 <= n * 0x4_0000_0000_0001
  }

  /** The conversion of a 64-bit integer, and d * 10 + c. */
  datatype Rounding = Rounding(cast: nat -> nat, step: (nat, nat) -> nat)

  ghost predicate Sane(r: Rounding) {
    && (forall n: nat :: n <= 0xFFFF_FFFF_FFFF_FFFF ==> Near(r.cast(n), n))
    && (forall d: nat, c: nat :: c < 10 && !ReachesLimit(d) ==> Near(r.step(d, c), d * 10 + c))
  }

  /** Whichever arithmetic the platform has. */
  type Arithmetic = r: Rounding | Sane(r) witness Rounding(n => n, (d, c) => d * 10 + c)
}
