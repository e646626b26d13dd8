/**
 Three places where `list_int.h` does not do what it evidently means to do.
 For each: inputs on which the as-written operation of module `ListInt`
 goes wrong, and a corrected operation with the intended property proved.
 */
module ListIntFindings {
  import opened ListInt
  import opened ListIntProperties

  // ---------------------------------------------------------------------
  // removeAll is not a filter when the value occurs twice or more.

  /** On `[1, 2, 3, 2, 4]` removeAll(2) keeps the second 2 and drops the 4,
      and its last iteration reads cell `len`; when the list is full that
      cell is outside the buffer. */
  lemma RemoveAllLeavesOccurrence()
    ensures var r := RemoveAll(List(5, 8, [1, 2, 3, 2, 4, 0, 0, 0]), 2);
            r.Ok? && Elements(r.value) == [1, 3, 2] && 2 in Elements(r.value)
    ensures RemoveAll(List(5, 5, [1, 2, 3, 2, 4]), 2) == Err(BufferOverrun(5))
  {
    var a := [1, 2, 3, 2, 4, 0, 0, 0];
    assert Count(a, 2, 1) == 0 && Count(a, 2, 2) == 1 && Count(a, 2, 3) == 1;
    assert Count(a, 2, 4) == 2 && Count(a, 2, 5) == 2;
    PassesUnique(a, 2, 5, 4);
    assert Elements(RemoveAll(List(5, 8, a), 2).value) == [1, 3, 2];
    var a' := [1, 2, 3, 2, 4];
    assert Count(a', 2, 1) == 0 && Count(a', 2, 2) == 1 && Count(a', 2, 3) == 1;
    assert Count(a', 2, 4) == 2;
    PassesUnique(a', 2, 5, 4);
  }

  /** The elements of `s` other than `v`, in order. */
  function Without(s: seq<int>, v: int): (w: seq<int>)
  {
    if |s| == 0 then [] else (if s[0] == v then [] else [s[0]]) + Without(s[1..], v)
  }

  /** `Without` drops exactly the occurrences of `v` and nothing else. */
  lemma {:induction false} WithoutDropsExactly(s: seq<int>, v: int)
    ensures |Without(s, v)| + multiset(s)[v] == |s|
    ensures forall x :: x in Without(s, v) <==> x in s && x != v
    decreases |s|
  {
    if |s| > 0 {
      assert s == [s[0]] + s[1..];
      WithoutDropsExactly(s[1..], v);
    }
  }

  lemma {:induction false} WithoutSnoc(s: seq<int>, x: int, v: int)
    ensures Without(s + [x], v) == Without(s, v) + (if x == v then [] else [x])
    decreases |s|
  {
    var tail := if x == v then [] else [x];
    if |s| == 0 {
      assert s + [x] == [x];
      assert Without([x], v) == tail + Without([], v);
    } else {
      var head := if s[0] == v then [] else [s[0]];
      assert (s + [x])[0] == s[0];
      assert (s + [x])[1..] == s[1..] + [x];
      assert Without(s + [x], v) == head + Without(s[1..] + [x], v);
      WithoutSnoc(s[1..], x, v);
      assert Without(s, v) == head + Without(s[1..], v);
    }
  }

  /** removeAll as intended: the kept elements move to the front in order,
      the cells behind them keep their contents, and the shrink rule applies
      to the new length. */
  function RemoveAllFiltered(l: List, value: int): (r: List)
    requires Valid(l)
    ensures Valid(r)
    ensures Elements(r) == Without(Elements(l), value)
    ensures value !in Elements(r)
    ensures r.len + multiset(Elements(l))[value] == l.len
  {
    var w := Without(Elements(l), value);
    WithoutDropsExactly(Elements(l), value);
    Shrink(|w|, w + l.values[|w|..])
  }

  /** The compaction pass written with a separate write position `kept`:
      cell `i` is copied to cell `kept` only when it is kept, so no cell is
      read twice and none beyond the elements is read at all. */
  method RemoveAllFilteredInPlace(l: List, value: int) returns (r: List)
    requires Valid(l)
    ensures r == RemoveAllFiltered(l, value)
  {
    assert Kept(l.values, value, 0) + l.values[0..] == l.values;
    var next := FilterFrom(l.values, value, l.len, 0, l.values, 0);
    var values, kept := next.0, next.1;
    KeptIsWithout(l.values, value, l.len);
    assert l.values[..l.len] == Elements(l);
    r := Shrink(kept, values);
  }

  /** The elements other than `v` among the first `n` cells of `a`, in
      order, built the way the pass visits them. */
  function Kept(a: seq<int>, v: int, n: nat): (kept: seq<int>)
    requires n <= |a|
  {
    if n == 0 then [] else Kept(a, v, n - 1) + (if a[n - 1] == v then [] else [a[n - 1]])
  }

  /** The pass's running result agrees with `Without` on the prefix. */
  lemma {:induction false} KeptIsWithout(a: seq<int>, v: int, n: nat)
    requires n <= |a|
    ensures Kept(a, v, n) == Without(a[..n], v)
  {
    if n > 0 {
      KeptIsWithout(a, v, n - 1);
      WithoutSnoc(a[..n - 1], a[n - 1], v);
      assert a[..n] == a[..n - 1] + [a[n - 1]];
    }
  }

  /** The pass of `RemoveAllFilteredInPlace` over the first `len` cells of
      `a`, from iteration `i` on: the kept elements end up in front, in
      order, and the cells behind them hold what they held before. */
  function FilterFrom(a: seq<int>, v: int, len: nat, i: nat, values: seq<int>, kept: nat): (r: (seq<int>, nat))
    requires kept <= i <= len <= |a| && kept == |Kept(a, v, i)| && values == Kept(a, v, i) + a[kept..]
    ensures r.1 == |Kept(a, v, len)| <= len
    ensures r.0 == Kept(a, v, len) + a[r.1..]
    decreases len - i
  {
    if i == len then (values, kept)
    else
      var next := FilterStep(a, v, i, values, kept);
      FilterFrom(a, v, len, i + 1, next.0, next.1)
  }

  /** One iteration of the filtering pass: cell `i` is still untouched; it
      is written over cell `kept` and kept, or skipped. */
  function FilterStep(a: seq<int>, v: int, i: nat, values: seq<int>, kept: nat): (r: (seq<int>, nat))
    requires kept <= i < |a| && kept == |Kept(a, v, i)| && values == Kept(a, v, i) + a[kept..]
    ensures r.1 == |Kept(a, v, i + 1)| <= i + 1
    ensures r.0 == Kept(a, v, i + 1) + a[r.1..]
  {
    var w := Kept(a, v, i);
    assert values[i] == a[i];
    if values[i] != v then
      OverwriteNext(w, a, kept, a[i]);
      assert Kept(a, v, i + 1) == w + [a[i]];
      (values[kept := values[i]], kept + 1)
    else
      assert Kept(a, v, i + 1) == w;
      (values, kept)
  }

  /** Writing `x` over the first cell behind the prefix `w` extends the prefix. */
  lemma OverwriteNext(w: seq<int>, b: seq<int>, k: nat, x: int)
    requires |w| == k < |b|
    ensures (w + b[k..])[k := x] == (w + [x]) + b[k + 1..]
  {
    var lhs, rhs := (w + b[k..])[k := x], (w + [x]) + b[k + 1..];
    assert forall j :: 0 <= j < |lhs| ==> lhs[j] == rhs[j];
  }

  /** The two agree when there is nothing to remove. */
  lemma {:induction false} WithoutAbsent(s: seq<int>, v: int)
    requires v !in s
    ensures Without(s, v) == s
    decreases |s|
  {
    if |s| > 0 {
      WithoutAbsent(s[1..], v);
    }
  }

  lemma RemoveAllFilteredAgreesWhenAbsent(l: List, value: int)
    requires Valid(l) && value !in Elements(l)
    ensures RemoveAll(l, value) == Ok(RemoveAllFiltered(l, value))
  {
    WithoutAbsent(Elements(l), value);
    assert Elements(l) + l.values[l.len..] == l.values;
    RemoveAllAbsent(l, value);
  }

  /** Dropping the one occurrence of `v`, at `p`, is cutting `p` out. */
  lemma {:induction false} WithoutOnlyAt(s: seq<int>, v: int, p: nat)
    requires p < |s| && s[p] == v && forall j :: 0 <= j < |s| && j != p ==> s[j] != v
    ensures Without(s, v) == s[..p] + s[p + 1..]
    decreases |s|
  {
    if p == 0 {
      WithoutAbsent(s[1..], v);
    } else {
      WithoutOnlyAt(s[1..], v, p - 1);
      assert s[..p] == [s[0]] + s[1..][..p - 1];
      assert s[p + 1..] == s[1..][p..];
    }
  }

  /** With one occurrence of `value`, at `p`, the intended removeAll is
      del at `p`: the same list when `p` is before the last element, and the
      same length, size and elements when it is the last. */
  lemma FilteredSingleIsDel(l: List, value: int, p: nat)
    requires Valid(l) && p < l.len && OnlyAt(l.values, l.len, value, p)
    ensures p < l.len - 1 ==> Del(l, p) == Ok(RemoveAllFiltered(l, value))
    ensures var d, f := Del(l, p).value, RemoveAllFiltered(l, value);
            d.len == f.len && d.size == f.size && Elements(d) == Elements(f)
  {
    var a, n := l.values, l.len;
    var e := Elements(l);
    WithoutOnlyAt(e, value, p);
    assert e[..p] == a[..p] && e[p + 1..] == a[p + 1..n];
  }

  /** With one occurrence of `value` the defect is not triggered: removeAll
      is the intended removeAll, exactly when the occurrence is before the
      last element, and on length, size and elements when it is the last
      element and the list has a spare cell. */
  lemma RemoveAllFilteredAgreesWhenSingle(l: List, value: int, p: nat)
    requires Valid(l) && p < l.len && OnlyAt(l.values, l.len, value, p)
    ensures p < l.len - 1 ==> RemoveAll(l, value) == Ok(RemoveAllFiltered(l, value))
    ensures RemoveAll(l, value).Ok? ==>
              var r, f := RemoveAll(l, value).value, RemoveAllFiltered(l, value);
              r.len == f.len && r.size == f.size && Elements(r) == Elements(f)
  {
    RemoveAllSingle(l, value, p);
    FilteredSingleIsDel(l, value, p);
  }

  // ---------------------------------------------------------------------
  // get, set and inc admit the index len.

  /** With room to spare, `get(len)` returns a cell past the last element and
      `set(len, x)` writes it, leaving the elements as they were; on a full
      list `get(len)` reads outside the buffer. */
  lemma IndexLenAdmitted()
    ensures Get(List(3, 4, [1, 2, 3, 9]), 3) == Ok(9)
    ensures var r := Set(List(3, 4, [1, 2, 3, 9]), 3, 5);
            r.Ok? && Elements(r.value) == [1, 2, 3]
    ensures Get(List(3, 3, [1, 2, 3]), 3) == Err(BufferOverrun(3))
  {
  }

  /** The index check as intended: the resolved index must name an element. */
  function CheckIndexStrict(l: List, index: int): (r: Result<nat>)
    requires Valid(l)
    ensures r.Ok? <==> -l.len <= index < l.len
    ensures r.Ok? ==> r.value < l.len && r.value == Resolve(l.len, index)
    ensures r.Err? ==> r.error == IndexError(l.len, Resolve(l.len, index))
  {
    var i := Resolve(l.len, index);
    if i < 0 || i >= l.len then Err(IndexError(l.len, i)) else Ok(i)
  }

  /** `get` with the intended check: it reads an element or reports an
      IndexError, and never touches a cell outside the elements. */
  function GetStrict(l: List, index: int): (r: Result<int>)
    requires Valid(l)
    ensures r.Ok? <==> -l.len <= index < l.len
    ensures 0 <= index < l.len ==> r == Ok(Elements(l)[index])
    ensures -l.len <= index < 0 ==> r == Ok(Elements(l)[l.len + index])
    ensures r.Err? ==> r.error.IndexError?
  {
    match CheckIndexStrict(l, index)
    case Err(e) => Err(e)
    case Ok(i) => Ok(l.values[i])
  }

  /** `set` with the intended check: it changes exactly one element, or reports an IndexError. */
  function SetStrict(l: List, index: int, value: int): (r: Result<List>)
    requires Valid(l)
    ensures r.Ok? <==> -l.len <= index < l.len
    ensures r.Ok? ==> Valid(r.value) && r.value.size == l.size &&
                      Elements(r.value) == Elements(l)[Resolve(l.len, index) := value]
    ensures r.Err? ==> r.error.IndexError?
  {
    match CheckIndexStrict(l, index)
    case Err(e) => Err(e)
    case Ok(i) => Ok(l.(values := l.values[i := value]))
  }

  /** `inc` with the intended check: it adds to exactly one element, or reports an IndexError. */
  function IncStrict(l: List, index: int, value: int): (r: Result<List>)
    requires Valid(l)
    ensures r.Ok? <==> -l.len <= index < l.len
    ensures r.Ok? ==> Valid(r.value) && r.value.size == l.size &&
                      var i := Resolve(l.len, index);
                      Elements(r.value) == Elements(l)[i := Elements(l)[i] + value]
    ensures r.Err? ==> r.error.IndexError?
  {
    match CheckIndexStrict(l, index)
    case Err(e) => Err(e)
    case Ok(i) => Ok(l.(values := l.values[i := l.values[i] + value]))
  }

  /** Away from index `len` the strict and the as-written operations agree. */
  lemma StrictAgreesBelowLen(l: List, index: int, value: int)
    requires Valid(l) && index != l.len
    ensures GetStrict(l, index) == Get(l, index)
    ensures SetStrict(l, index, value) == Set(l, index, value)
    ensures IncStrict(l, index, value) == Inc(l, index, value)
  {
  }

  // ---------------------------------------------------------------------
  // A list emptied by del or removeAll can reach size 0, and append then
  // writes into a zero-cell buffer.

  /** Deleting the only element of a one-cell list, or removing from an empty
      one-cell list, halves the size to 0; the next append fails. */
  lemma EmptiedListCannotAppend()
    ensures Del(List(1, 1, [7]), 0) == Ok(List(0, 0, []))
    ensures RemoveAll(List(0, 1, [7]), 3) == Ok(List(0, 0, []))
    ensures Append(List(0, 0, []), 5) == Err(BufferOverrun(0))
  {
    PassesUnique([7], 3, 0, 0);
  }

  /** `append` as intended: a full list grows to at least one cell. */
  function AppendGrowing(l: List, value: int): (r: List)
    requires Valid(l)
    ensures Valid(r) && r.len == l.len + 1 && r.size >= 1
    ensures Elements(r) == Elements(l) + [value]
  {
    var size := if l.len < l.size then l.size else if l.size == 0 then 1 else 2 * l.size;
    var values := Realloc(l.values, size)[l.len := value];
    assert values[..l.len + 1] == Elements(l) + [value];
    List(l.len + 1, size, values)
  }

  /** On a list with at least one cell the two appends agree. */
  lemma AppendGrowingAgrees(l: List, value: int)
    requires Valid(l) && l.size >= 1
    ensures Append(l, value) == Ok(AppendGrowing(l, value))
  {
    assert Realloc(l.values, l.size) == l.values;
  }
}
