/**
 The two loops of `list_int.h`, written cell by cell as the C code runs them
 on a copy of the buffer, and proved to compute the closed forms `Del` and
 `RemoveAll` of module `ListInt`.
 */
module ListIntLoops {
  import opened ListInt

  /** `list_int_del`: shift cells `index + 1 .. len - 1` one place left,
      drop the length by one, then apply the shrink rule. */
  method DelInPlace(l: List, index: int) returns (r: Result<List>)
    requires Valid(l)
    ensures r == Del(l, index)
  {
    var values := l.values;
    var listLen := l.len;
    var i := index;
    while i < listLen - 1
      invariant index <= i
      invariant index < i ==> 0 <= index && i <= listLen - 1
      invariant |values| == l.size
      invariant forall j :: index <= j < i ==> values[j] == l.values[j + 1]
      invariant forall j :: 0 <= j < |values| && !(index <= j < i) ==> values[j] == l.values[j]
    {
      if i < 0 {
        return Err(BufferOverrun(i));
      }
      values := values[i := values[i + 1]];
      i := i + 1;
    }
    if index < listLen - 1 {
      var b := ShiftedLeft(l.values, index, listLen);
      assert forall j :: 0 <= j < |b| ==> values[j] == b[j];
      assert values == b;
    } else {
      assert values == l.values;
    }
    r := Ok(Shrink(listLen - 1, values));
  }

  /** `list_int_removeAll`: one pass that compares cell `i` with `value`,
      counts a match, and copies cell `i + removedItems` into cell `i`; then
      the length drops by the count and the shrink rule applies. */
  method RemoveAllInPlace(l: List, value: int) returns (r: Result<List>)
    requires Valid(l)
    ensures r == RemoveAll(l, value)
  {
    var values, i, removedItems, overrun := CompactionLoop(l.values, value, l.len);
    if overrun {
      RemoveAllOverrunsAt(l, value, i);
      return Err(BufferOverrun(i + removedItems));
    }
    RemoveAllStopsAt(l, value, i);
    r := Ok(Shrink(l.len - removedItems, values));
  }

  /** removeAll's loop over a buffer `a` holding a list of length `len`. It
      either stops at the first iteration `i` that fails the loop test, with
      the buffer compacted up to it, or stops at the iteration `i` whose copy
      would read cell `|a|` or beyond (`overrun`). */
  method CompactionLoop(a: seq<int>, value: int, len: nat) returns (values: seq<int>, i: nat, removedItems: nat, overrun: bool)
    requires len <= |a|
    ensures i <= len && (i == 0 || i - 1 + Count(a, value, i - 1) < len)
    ensures overrun ==> i < len && i + Count(a, value, i) < len &&
                        removedItems == Count(a, value, i + 1) && |a| <= i + removedItems
    ensures !overrun ==> removedItems == Count(a, value, i) && len <= i + removedItems <= |a| &&
                         values == Compacted(a, value, i)
  {
    values := a;
    removedItems := 0;
    i := 0;
    overrun := false;
    while i < len - removedItems
      invariant 0 <= i <= len
      invariant removedItems == Count(a, value, i)
      invariant i + removedItems <= |a|
      invariant i == 0 || i - 1 + Count(a, value, i - 1) < len
      invariant values == Compacted(a, value, i)
    {
      CompactedKeepsRest(a, value, i, i);
      if values[i] == value {
        removedItems := removedItems + 1;
      }
      assert removedItems == Count(a, value, i + 1);
      if i + removedItems >= |values| {
        return values, i, removedItems, true;
      }
      CompactedStep(a, value, i);
      values := values[i := values[i + removedItems]];
      i := i + 1;
    }
  }

  /** The loop's early exit: iteration `i` passes the loop test, and its
      copy reads cell `size` or beyond. */
  lemma RemoveAllOverrunsAt(l: List, value: int, i: nat)
    requires Valid(l) && i < l.len && i + Count(l.values, value, i) < l.len
    requires i == 0 || i - 1 + Count(l.values, value, i - 1) < l.len
    requires l.size <= i + Count(l.values, value, i + 1)
    ensures RemoveAll(l, value) == Err(BufferOverrun(i + Count(l.values, value, i + 1)))
  {
    PassesUnique(l.values, value, l.len, i + 1);
    RemoveAllOverruns(l, value, i + 1);
  }

  /** One more iteration of the loop: cell `i` takes the still untouched
      cell `Source(a, v, i)`. */
  lemma CompactedStep(a: seq<int>, v: int, i: nat)
    requires i < |a| && Source(a, v, i) < |a|
    ensures i + Count(a, v, i) <= |a| && i + 1 + Count(a, v, i + 1) <= |a|
    ensures Compacted(a, v, i + 1) == Compacted(a, v, i)[i := Compacted(a, v, i)[Source(a, v, i)]]
  {
    CountMonotone(a, v, i, i + 1);
    CompactedKeepsRest(a, v, i, Source(a, v, i));
  }

  /** The loop's normal exit: iteration `i` is the first to fail the loop
      test, and the buffer is compacted up to it. */
  lemma RemoveAllStopsAt(l: List, value: int, i: nat)
    requires Valid(l) && i <= l.len && l.len <= i + Count(l.values, value, i) <= l.size
    requires i == 0 || i - 1 + Count(l.values, value, i - 1) < l.len
    ensures RemoveAll(l, value) == Ok(Shrink(l.len - Count(l.values, value, i), Compacted(l.values, value, i)))
  {
    PassesUnique(l.values, value, l.len, i);
    RemoveAllCompacts(l, value, i);
  }
}
