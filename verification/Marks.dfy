/** A mark for the verifier, shared by the modules that compare elements two by two. */
module Marks {

  /** Always true; naming two positions is what makes the verifier compare them. */
  ghost predicate Pair(i: int, j: int) {
    true
  }
}
