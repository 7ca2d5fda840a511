/** Facts about sequences and sets that hold for any element type. Each is an
    extensionality step (two collections are equal because their elements
    are) that the solver finds quickly in a small context but slowly inside a
    proof about scanners, sheets or cards; stating it once here lets those
    proofs cite it instead of re-deriving it. */
module Seqs {

  /** A non-empty sequence is its front followed by its last element; used by
      every recursion that peels off the last element. */
  lemma DropLastSnoc<T>(s: seq<T>)
    requires |s| > 0
    ensures s[..|s| - 1] + [s[|s| - 1]] == s
  {
  }

  /** A slice up to the length is the suffix; used where a loop's final index
      meets the suffix a specification names. */
  lemma SliceToEnd<T>(s: seq<T>, i: int)
    requires 0 <= i <= |s|
    ensures s[i..|s|] == s[i..]
  {
  }

  /** Two singletons concatenate to the pair; used where two one-cell parses
      join into a two-cell row. */
  lemma PairConcat<T>(a: T, b: T)
    ensures [a] + [b] == [a, b]
  {
  }

  /** Adding at most one new element `x` to a set grows it by the size of
      what is added; used where a count of rows meets a set of row indices. */
  lemma AddFreshSize<T>(a: set<T>, extra: set<T>, x: T)
    requires x !in a && (extra == {} || extra == {x})
    ensures |a + extra| == |a| + |extra|
  {
  }
}
