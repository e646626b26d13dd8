/**
 Concrete runs of the `list_int` operations on small lists.
 */
module ListIntScenarios {
  import opened ListInt
  import opened ListIntProperties

  /** `del(1)` on `[5, 6, 7]` gives `[5, 7]`. */
  lemma DelMiddle()
    ensures var r := Del(List(3, 4, [5, 6, 7, 0]), 1);
            r.Ok? && r.value.len == 2 && Elements(r.value) == [5, 7]
  {
  }

  /** `inc(1, 10)` on `[1, 2, 3]` gives `[1, 12, 3]`. */
  lemma IncMiddle()
    ensures var r := Inc(List(3, 4, [1, 2, 3, 0]), 1, 10);
            r.Ok? && Elements(r.value) == [1, 12, 3]
  {
  }

  /** Out-of-range indices on `[1, 2, 3]`: the error carries the length and
      the resolved index, not the requested one. */
  lemma GetOutOfRange()
    ensures Get(List(3, 4, [1, 2, 3, 0]), 5) == Err(IndexError(3, 5))
    ensures Get(List(3, 4, [1, 2, 3, 0]), -4) == Err(IndexError(3, -1))
  {
  }

  /** Ten appends to an empty one-cell list keep every value in order; the
      size doubles 1, 2, 4, 8, 16 on the way. */
  lemma TenAppends()
    ensures var r := AppendAll(List(0, 1, [0]), [0, 1, 2, 3, 4, 5, 6, 7, 8, 9]);
            r.Ok? && r.value.len == 10 && r.value.size == 16 &&
            Elements(r.value) == [0, 1, 2, 3, 4, 5, 6, 7, 8, 9]
  {
    AppendAllKeepsOrder(List(0, 1, [0]), [0, 1, 2, 3, 4, 5, 6, 7, 8, 9]);
  }

  /** The shrink rule halves the size once per removal, so a removal can
      leave `size >= 4 * len`: deleting from `[1, 2]` in 16 cells leaves one
      element in 8 cells. */
  lemma ShrinkHalvesOnce()
    ensures var r := Del(List(2, 16, seq(16, i => i + 1)), 0);
            r.Ok? && r.value.len == 1 && r.value.size == 8 && r.value.size >= 4 * r.value.len
  {
  }
}
