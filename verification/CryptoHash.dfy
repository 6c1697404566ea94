/** Hash values.  They are unbounded words, so that assuming distinct digests for distinct inputs is
    consistent; zero stands for the all-zero hash. */
module CryptoHash {

  type Hash = nat

  type NonZeroHash = h: Hash | 0 < h witness 1

  const ZERO: Hash := 0
}
