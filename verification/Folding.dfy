/** Predicates that stay folded. */
module Folding {

  /**
    A predicate whose body stands behind `forall u :: Seen(u) ==> …` is unfolded in a proof that asserts
    `Seen(0)`; a proof that only passes the predicate on does not look inside.
   */
  ghost predicate Seen(u: nat) {
    true
  }
}
