/** Comparison callbacks: negative, zero or positive, as CFComparatorFunction answers. */
module Comparators {

  /** The answers of `cmp` come from a total preorder. */
  ghost predicate Ordering<T(!new)>(cmp: (T, T) -> int) {
    && (forall a, b :: cmp(a, b) < 0 <==> cmp(b, a) > 0)
    && (forall a, b, c :: cmp(a, b) <= 0 && cmp(b, c) <= 0 ==> cmp(a, c) <= 0)
  }

  /** `s` ascends from index `lo` up to `hi`. */
  ghost predicate SortedBetween<T(!new)>(cmp: (T, T) -> int, s: seq<T>, lo: nat, hi: nat) {
    hi <= |s| && forall i, j :: lo <= i <= j < hi ==> cmp(s[i], s[j]) <= 0
  }

  lemma Opposite<T(!new)>(cmp: (T, T) -> int, a: T, b: T)
    requires Ordering(cmp)
    ensures cmp(a, b) < 0 <==> cmp(b, a) > 0
    ensures cmp(a, b) == 0 <==> cmp(b, a) == 0
  {
    assert cmp(b, a) < 0 <==> cmp(a, b) > 0;
  }

  lemma Transitive<T(!new)>(cmp: (T, T) -> int, a: T, b: T, c: T)
    requires Ordering(cmp)
    ensures cmp(a, b) <= 0 && cmp(b, c) <= 0 ==> cmp(a, c) <= 0
  {
  }
}
