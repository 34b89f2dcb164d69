/** The skip-depth counter shared by every generation of the template
    engine.  Zero means output is being written; a positive depth counts the
    open elements of a subtree that is being dropped.  The counter is a
    `usize` in the source; it is unbounded here (see README). */
module SkipDepth {

  predicate IsSkipping(depth: nat) {
    depth > 0
  }

  /** Entering one more element of a dropped subtree. */
  function StartSkip(depth: nat): (r: nat)
    ensures IsSkipping(r)
    ensures r > depth
    ensures EndSkip(r) == depth
  {
    depth + 1
  }

  /** Leaving an element: a saturating decrement that is a no-op at zero. */
  function EndSkip(depth: nat): (r: nat)
    ensures IsSkipping(depth) ==> r + 1 == depth
    ensures !IsSkipping(depth) ==> r == 0
    ensures r <= depth
  {
    if depth > 0 then depth - 1 else 0
  }
}
