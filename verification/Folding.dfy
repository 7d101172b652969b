/** A definition written as `forall k :: Unfold(k) ==> …` stays folded for the
    verifier until a proof mentions `Unfold`, which keeps large proofs small. */
module Folding {
  ghost predicate Unfold(k: int) { true }
}
