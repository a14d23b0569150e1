/**
  The contract the ranking relies on from the version module's `compare`.
  Its implementation is not part of this model: a version comparison is any
  three-way function whose "not after" relation is a total preorder.
 */
module Version {

  /**
    `cmp(x, y) < 0` means x ranks before y. The sign flips when the operands
    are swapped (so `cmp(x, x) == 0` and any two versions are comparable) and
    "not after" (`cmp(x, y) <= 0`) is transitive.
   */
  ghost predicate IsComparator<V(!new)>(cmp: (V, V) -> int) {
    && (forall x, y :: cmp(x, y) < 0 <==> cmp(y, x) > 0)
    && (forall x, y, z :: cmp(x, y) <= 0 && cmp(y, z) <= 0 ==> cmp(x, z) <= 0)
  }

}
