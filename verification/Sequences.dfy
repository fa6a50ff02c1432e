/** Parts of sequences at a position. */
module Sequences {

  /** `p` stands in `s` at `pos`. */
  ghost predicate Stands<T>(s: seq<T>, pos: nat, p: seq<T>) {
    pos + |p| <= |s| && s[pos..pos + |p|] == p
  }

  lemma StandsSplit<T>(s: seq<T>, pos: nat, p: seq<T>, q: seq<T>)
    requires Stands(s, pos, p + q)
    ensures Stands(s, pos, p) && Stands(s, pos + |p|, q)
  {
    assert (p + q)[..|p|] == p && (p + q)[|p|..] == q;
  }
}
