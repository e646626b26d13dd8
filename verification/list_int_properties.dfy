/**
 Properties of the `list_int` operations that relate several calls: negative
 indexing, reading back what set, inc and append wrote, what removeAll does
 when the value occurs at most once, and the capacity invariant `len <= size`
 along any sequence of calls.
 */
module ListIntProperties {
  import opened ListInt

  /** `get(-k)` and `get(len - k)` name the same element; `get(-1)` is the last one. */
  lemma GetNegativeIndex(l: List, k: int)
    requires Valid(l) && 1 <= k <= l.len
    ensures Get(l, -k) == Get(l, l.len - k) == Ok(Elements(l)[l.len - k])
    ensures Get(l, -1) == Ok(Elements(l)[l.len - 1])
  {
  }

  /** After a successful `set`, `get` at the same index returns the new value
      and `get` at every index resolving elsewhere returns what it did before. */
  lemma SetThenGet(l: List, index: int, x: int)
    requires Valid(l) && Set(l, index, x).Ok?
    ensures Get(Set(l, index, x).value, index) == Ok(x)
    ensures forall j :: Resolve(l.len, j) != Resolve(l.len, index) ==>
              Get(Set(l, index, x).value, j) == Get(l, j)
  {
    var l' := Set(l, index, x).value;
    forall j | Resolve(l.len, j) != Resolve(l.len, index)
      ensures Get(l', j) == Get(l, j)
    {
      assert CheckIndex(l', j) == CheckIndex(l, j);
    }
  }

  /** After a successful `inc`, the element at the index has grown by exactly
      `v`; every index resolving elsewhere reads as before. */
  lemma IncThenGet(l: List, index: int, v: int)
    requires Valid(l) && Inc(l, index, v).Ok?
    ensures Get(Inc(l, index, v).value, index) == Ok(Get(l, index).value + v)
    ensures forall j :: Resolve(l.len, j) != Resolve(l.len, index) ==>
              Get(Inc(l, index, v).value, j) == Get(l, j)
  {
    var l' := Inc(l, index, v).value;
    forall j | Resolve(l.len, j) != Resolve(l.len, index)
      ensures Get(l', j) == Get(l, j)
    {
      assert CheckIndex(l', j) == CheckIndex(l, j);
    }
  }

  /** After `append(x)` the last element is `x` and every earlier index reads as before. */
  lemma AppendThenGet(l: List, x: int)
    requires Valid(l) && Append(l, x).Ok?
    ensures Get(Append(l, x).value, -1) == Ok(x)
    ensures forall j :: 0 <= j < l.len ==> Get(Append(l, x).value, j) == Get(l, j)
  {
  }

  /** A run of appends, stopping at the first failure. */
  function AppendAll(l: List, xs: seq<int>): (r: Result<List>)
    requires Valid(l)
    decreases |xs|
  {
    if |xs| == 0 then Ok(l)
    else match Append(l, xs[0])
      case Err(e) => Err(e)
      case Ok(l') => AppendAll(l', xs[1..])
  }

  /** Starting from a nonzero size, repeated appends never fail, keep every
      earlier element in place and in order, and never shrink the size. */
  lemma {:induction false} AppendAllKeepsOrder(l: List, xs: seq<int>)
    requires Valid(l) && l.size >= 1
    ensures AppendAll(l, xs).Ok?
    ensures Valid(AppendAll(l, xs).value)
    ensures Elements(AppendAll(l, xs).value) == Elements(l) + xs
    ensures AppendAll(l, xs).value.size >= l.size
    decreases |xs|
  {
    if |xs| > 0 {
      var l' := Append(l, xs[0]).value;
      AppendAllKeepsOrder(l', xs[1..]);
      assert Elements(l) + xs == Elements(l') + xs[1..];
    }
  }

  /** If `value` is not among the elements, removeAll never fails and leaves
      the length and the whole buffer as they were; only the shrink rule may
      halve the size. */
  lemma RemoveAllAbsent(l: List, value: int)
    requires Valid(l) && value !in Elements(l)
    ensures var r := RemoveAll(l, value);
            r == Ok(Shrink(l.len, l.values)) && Valid(r.value) && Elements(r.value) == Elements(l)
  {
    CountIsMultiplicity(l.values, value, l.len);
    RemoveAllNoMatch(l, value);
  }

  /** With no match the loop runs `len` iterations and copies every cell onto itself. */
  lemma RemoveAllNoMatch(l: List, value: int)
    requires Valid(l) && Count(l.values, value, l.len) == 0
    ensures RemoveAll(l, value) == Ok(Shrink(l.len, l.values))
  {
    var a := l.values;
    if l.len > 0 {
      CountMonotone(a, value, l.len - 1, l.len);
    }
    PassesUnique(a, value, l.len, l.len);
    RemoveAllCompacts(l, value, l.len);
    CompactedIdentity(a, value, l.len);
  }

  /** The occurrences of `value` among the first `n` cells of `a` are exactly
      the one at `p`. */
  predicate OnlyAt(a: seq<int>, n: nat, value: int, p: nat)
    requires p < n <= |a|
  {
    a[p] == value && forall j :: 0 <= j < n && j != p ==> a[j] != value
  }

  lemma {:induction false} CountOnlyAt(a: seq<int>, n: nat, value: int, p: nat, m: nat)
    requires p < n <= |a| && OnlyAt(a, n, value, p) && m <= n
    ensures Count(a, value, m) == if m <= p then 0 else 1
  {
    if m > 0 {
      CountOnlyAt(a, n, value, p, m - 1);
    }
  }

  /** With a single match at `p` before the last element, compaction is
      del's shift. */
  lemma CompactedOnlyAt(a: seq<int>, n: nat, value: int, p: nat)
    requires p < n - 1 && n <= |a| && OnlyAt(a, n, value, p)
    ensures n - 1 + Count(a, value, n - 1) <= |a|
    ensures Compacted(a, value, n - 1) == ShiftedLeft(a, p, n)
  {
    CountOnlyAt(a, n, value, p, n - 1);
    var c, b := Compacted(a, value, n - 1), ShiftedLeft(a, p, n);
    forall j | 0 <= j < |a|
      ensures c[j] == b[j]
    {
      if j < n - 1 {
        CountOnlyAt(a, n, value, p, j + 1);
        CompactedCopies(a, value, n - 1, j);
      } else {
        CompactedKeepsRest(a, value, n - 1, j);
      }
    }
  }

  /** An occurrence before the last element: removeAll and `del(p)` agree
      cell for cell. */
  lemma RemoveAllSingleInner(l: List, value: int, p: nat)
    requires Valid(l) && p < l.len - 1 && OnlyAt(l.values, l.len, value, p)
    ensures RemoveAll(l, value) == Del(l, p)
  {
    var a, n := l.values, l.len;
    CountOnlyAt(a, n, value, p, n - 1);
    CountOnlyAt(a, n, value, p, n - 2);
    PassesUnique(a, value, n, n - 1);
    CompactedOnlyAt(a, n, value, p);
    RemoveAllCompacts(l, value, n - 1);
  }

  /** With a single match at the last element, compaction leaves the cells
      before it as they were. */
  lemma CompactedOnlyAtLast(a: seq<int>, n: nat, value: int)
    requires 1 <= n < |a| && OnlyAt(a, n, value, n - 1)
    ensures n + Count(a, value, n) <= |a|
    ensures Compacted(a, value, n)[..n - 1] == a[..n - 1]
  {
    CountOnlyAt(a, n, value, n - 1, n);
    var c := Compacted(a, value, n);
    forall j | 0 <= j < n - 1
      ensures c[j] == a[j]
    {
      CountOnlyAt(a, n, value, n - 1, j + 1);
      CompactedCopies(a, value, n, j);
    }
  }

  /** An occurrence at the last element: the loop makes one more iteration
      than `del` and copies cell `len` into the last element's cell. */
  lemma RemoveAllSingleLast(l: List, value: int)
    requires Valid(l) && 1 <= l.len && OnlyAt(l.values, l.len, value, l.len - 1)
    ensures var r := RemoveAll(l, value);
            && (r.Ok? <==> l.len < l.size)
            && (r.Ok? ==> Valid(r.value) && r.value.len == l.len - 1 && Elements(r.value) == Elements(l)[..l.len - 1])
  {
    var a, n := l.values, l.len;
    CountOnlyAt(a, n, value, n - 1, n);
    CountOnlyAt(a, n, value, n - 1, n - 1);
    PassesUnique(a, value, n, n);
    if n < l.size {
      CompactedOnlyAtLast(a, n, value);
      RemoveAllCompacts(l, value, n);
    } else {
      RemoveAllOverruns(l, value, n);
    }
  }

  /** When `value` occurs exactly once, at `p`, removeAll is `del(p)`:
      exactly, buffer included, unless `p` is the last element. In that case
      the loop also copies cell `len` into cell `p` (reading outside a full
      list), so the two agree on the elements, length and size but not on
      that spare cell. */
  lemma RemoveAllSingle(l: List, value: int, p: nat)
    requires Valid(l) && p < l.len && OnlyAt(l.values, l.len, value, p)
    ensures p < l.len - 1 ==> RemoveAll(l, value) == Del(l, p)
    ensures p == l.len - 1 ==> (RemoveAll(l, value).Ok? <==> l.len < l.size)
    ensures RemoveAll(l, value).Ok? ==>
              var r, d := RemoveAll(l, value).value, Del(l, p).value;
              r.len == d.len && r.size == d.size && Elements(r) == Elements(d)
  {
    if p < l.len - 1 {
      RemoveAllSingleInner(l, value, p);
    } else {
      RemoveAllSingleLast(l, value);
    }
  }

  /** The calls a program makes on a list. */
  datatype Op =
    | GetOp(index: int)
    | SetOp(index: int, value: int)
    | IncOp(index: int, value: int)
    | AppendOp(value: int)
    | RemoveAllOp(value: int)
    | DelOp(index: int)

  /** One call; `get` leaves the list as it is. Every call keeps
      `0 <= len <= size`, except `del` on an empty list, which takes the
      length to -1 and still keeps `len <= size`. */
  function Step(l: List, op: Op): (r: Result<List>)
    requires Valid(l)
    ensures r.Ok? ==> r.value.len <= l.len + 1
    ensures r.Ok? && !(op.DelOp? && l.len == 0) ==> Valid(r.value)
    ensures r.Ok? && op.DelOp? && l.len == 0 ==> !Valid(r.value)
    ensures r.Ok? ==> r.value.len <= r.value.size
  {
    match op
    case GetOp(i) => (match Get(l, i) case Err(e) => Err(e) case Ok(_) => Ok(l))
    case SetOp(i, x) => Set(l, i, x)
    case IncOp(i, x) => Inc(l, i, x)
    case AppendOp(x) => Append(l, x)
    case RemoveAllOp(x) => RemoveAll(l, x)
    case DelOp(i) => Del(l, i)
  }

  /** Along the run, `del` is never called on an empty list. */
  predicate NoEmptyDel(l: List, ops: seq<Op>)
    requires Valid(l)
    decreases |ops|
  {
    |ops| == 0 ||
    (!(ops[0].DelOp? && l.len == 0) &&
     match Step(l, ops[0])
     case Err(_) => true
     case Ok(l') => NoEmptyDel(l', ops[1..]))
  }

  /** A sequence of calls, stopping at the first error. The capacity
      invariant holds at its end, and the length grows by at most one per call. */
  function Run(l: List, ops: seq<Op>): (r: Result<List>)
    requires Valid(l) && NoEmptyDel(l, ops)
    ensures r.Ok? ==> Valid(r.value) && r.value.len <= l.len + |ops|
    decreases |ops|
  {
    if |ops| == 0 then Ok(l)
    else match Step(l, ops[0])
      case Err(e) => Err(e)
      case Ok(l') => Run(l', ops[1..])
  }
}
