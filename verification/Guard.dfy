module Guard {
  /**
   A name for the verifier to hang a definition on.  The definitions of a few large predicates are
   quantified over k with `Unfold(k)` as the only trigger, so the verifier looks into them only in a
   proof that mentions `Unfold`.  It always holds, so it changes no meaning.
   */
  ghost predicate Unfold(k: nat) {
    true
  }
}
