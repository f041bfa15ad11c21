/** Orderings of position lists shared by the pipeline's stages. */
module Sequences {

  /** Each entry is smaller than every later one (hence all are distinct). */
  predicate StrictlyIncreasing(s: seq<nat>) {
    forall i, j :: 0 <= i < j < |s| ==> s[i] < s[j]
  }
}
