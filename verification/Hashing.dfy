/** What is assumed of a hash function, on the finite set of inputs that a situation hashes. */
module Hashing {

  /** No two of these inputs share a hash. */
  ghost predicate Separates<Q, H>(hash: Q -> H, inputs: set<Q>) {
    forall p, q | p in inputs && q in inputs && hash(p) == hash(q) :: p == q
  }

  /** No two of these inputs share a hash, and none hashes to zero. */
  ghost predicate CollisionFree<Q, H>(hash: Q -> H, zero: H, inputs: set<Q>) {
    && Separates(hash, inputs)
    && (forall q | q in inputs :: hash(q) != zero)
  }
}
