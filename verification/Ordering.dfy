/** Comparison functions as the library's callers pass them. */
module Ordering {
  type Compare = (int, int) -> int

  /** Keys are pointers; what they order is up to the comparison. */
  ghost predicate Preorder(cmp: Compare) {
    && (forall x, y :: cmp(x, y) < 0 <==> cmp(y, x) > 0)
    && (forall x, y, z :: cmp(x, y) <= 0 && cmp(y, z) <= 0 ==> cmp(x, z) <= 0)
  }

  lemma LessTrans(cmp: Compare, x: int, y: int, z: int)
    requires Preorder(cmp) && cmp(x, y) <= 0 && cmp(y, z) <= 0 && (cmp(x, y) < 0 || cmp(y, z) < 0)
    ensures cmp(x, z) < 0
  {
    assert !(cmp(z, x) <= 0);
  }

  lemma MoreIsLess(cmp: Compare, x: int, y: int)
    requires Preorder(cmp)
    ensures cmp(x, y) > 0 <==> cmp(y, x) < 0
  {
  }
}
