/**
 * Commitments (the leaves of the tree) and the digests the tree is built from.
 *
 * The hash primitive is an external cryptographic library. Digests are modelled as free
 * terms: a digest records exactly what it was computed from. This makes hashing deterministic
 * and also collision-free (injective), which the real primitive only approximates.
 */
module Hashing {
  /** An opaque leaf value, compared only for equality. */
  datatype Commitment = Commitment(value: nat)

  /**
   * `Leaf(c)` is `Hash::of(c)`. `Node(height, children)` combines the digests of the slots of
   * one tier; `height` is 1 for a block, 2 for an epoch and 3 for the eternity.
   */
  datatype Hash = Leaf(commitment: Commitment) | Node(height: nat, children: seq<Hash>)

  /** `Hash::of`: the digest of a single commitment, never equal to the digest of a tier. */
  function HashOf(c: Commitment): (h: Hash)
    ensures !h.Node?
  {
    Leaf(c)
  }

  /** Distinct commitments have distinct digests. */
  lemma HashOfInjective(c: Commitment, d: Commitment)
    ensures HashOf(c) == HashOf(d) <==> c == d
  {
    if HashOf(c) == HashOf(d) {
      assert HashOf(c).commitment == c && HashOf(d).commitment == d;
    }
  }
}
