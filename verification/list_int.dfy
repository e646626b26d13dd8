/**
 A value-level model of `list_int`, the growable list of C ints used by the
 generated C code. A list is the triple the struct stores: `len` cells in
 use, `size` cells allocated, and the contents of the whole allocated buffer.

 The C code terminates the process on a bad index and silently touches
 memory outside its buffer in a few corner cases; both become `Error`
 values here, so every operation is a total function on well-formed lists.
 */
module ListInt {

  /** The `list_int` struct; `values` is the whole buffer, `size` cells long
      in a well-formed list, not just the `len` cells in use. */
  datatype List = List(len: int, size: int, values: seq<int>)

  /** `IndexError` is the printf-then-exit path and carries the length and
      the index after negative-index resolution. `BufferOverrun` is a read
      or write of a cell outside the allocated buffer, which the C code
      performs without a check; it carries the offending cell. */
  datatype Error = IndexError(len: int, index: int) | BufferOverrun(index: int)

  datatype Result<T> = Ok(value: T) | Err(error: Error)

  /** The struct invariant: `len` cells in use out of `size` allocated. */
  predicate Valid(l: List)
  {
    0 <= l.len <= l.size && |l.values| == l.size
  }

  /** The logical contents of the list. */
  function Elements(l: List): seq<int>
    requires Valid(l)
  {
    l.values[..l.len]
  }

  /** `realloc` to `n` cells: the common prefix is copied. Cells beyond the
      old buffer are uninitialised in C; here they hold 0. */
  function Realloc(b: seq<int>, n: nat): (r: seq<int>)
    ensures |r| == n
    ensures forall i :: 0 <= i < n && i < |b| ==> r[i] == b[i]
  {
    if n <= |b| then b[..n] else b + Zeros(n - |b|)
  }

  function Zeros(n: nat): (z: seq<int>)
    ensures |z| == n
  {
    if n == 0 then [] else Zeros(n - 1) + [0]
  }

  /** Negative indices count from the end: -1 names the last element. */
  function Resolve(len: int, index: int): (i: int)
  {
    if index < 0 then len + index else index
  }

  /** The index check shared by get, set and inc. It admits the resolved
      index `len` itself, one past the last element; that cell lies in the
      buffer only when the list is not full. */
  function CheckIndex(l: List, index: int): (r: Result<nat>)
    requires Valid(l)
    ensures r.Ok? <==> -l.len <= index <= l.len && !(index == l.len == l.size)
    ensures r.Ok? ==> r.value < l.size
    ensures r.Ok? && 0 <= index ==> r.value == index
    ensures r.Ok? && index < 0 ==> r.value + (-index) == l.len
    ensures index < -l.len || l.len < index ==> r == Err(IndexError(l.len, Resolve(l.len, index)))
    ensures index == l.len == l.size ==> r == Err(BufferOverrun(l.len))
  {
    var i := Resolve(l.len, index);
    if i < 0 || i > l.len then Err(IndexError(l.len, i))
    else if i >= l.size then Err(BufferOverrun(i))
    else Ok(i)
  }

  /** `list_int_get`. */
  function Get(l: List, index: int): (r: Result<int>)
    requires Valid(l)
    ensures r.Err? <==> index < -l.len || l.len < index || index == l.len == l.size
    ensures 0 <= index < l.len ==> r == Ok(Elements(l)[index])
    ensures -l.len <= index < 0 ==> r == Ok(Elements(l)[l.len + index])
    ensures index == l.len < l.size ==> r == Ok(l.values[l.len])
    ensures r.Err? ==> r.error == CheckIndex(l, index).error
  {
    match CheckIndex(l, index)
    case Err(e) => Err(e)
    case Ok(i) => Ok(l.values[i])
  }

  /** `list_int_set`. */
  function Set(l: List, index: int, value: int): (r: Result<List>)
    requires Valid(l)
    ensures r.Ok? <==> CheckIndex(l, index).Ok?
    ensures r.Err? ==> r.error == CheckIndex(l, index).error
    ensures r.Ok? ==> Valid(r.value) && r.value.len == l.len && r.value.size == l.size
    ensures r.Ok? ==> r.value.values[CheckIndex(l, index).value] == value
    ensures r.Ok? ==> forall j :: 0 <= j < l.size && j != CheckIndex(l, index).value ==>
                        r.value.values[j] == l.values[j]
    ensures 0 <= index < l.len ==> r.Ok? && Elements(r.value) == Elements(l)[index := value]
    ensures index == l.len < l.size ==> r.Ok? && Elements(r.value) == Elements(l)
  {
    match CheckIndex(l, index)
    case Err(e) => Err(e)
    case Ok(i) => Ok(l.(values := l.values[i := value]))
  }

  /** `list_int_inc`: add `value` to one cell in place. */
  function Inc(l: List, index: int, value: int): (r: Result<List>)
    requires Valid(l)
    ensures r.Ok? <==> CheckIndex(l, index).Ok?
    ensures r.Err? ==> r.error == CheckIndex(l, index).error
    ensures r.Ok? ==> Valid(r.value) && r.value.len == l.len && r.value.size == l.size
    ensures r.Ok? ==> var i := CheckIndex(l, index).value;
                      r.value.values[i] == l.values[i] + value
    ensures r.Ok? ==> forall j :: 0 <= j < l.size && j != CheckIndex(l, index).value ==>
                        r.value.values[j] == l.values[j]
  {
    match CheckIndex(l, index)
    case Err(e) => Err(e)
    case Ok(i) => Ok(l.(values := l.values[i := l.values[i] + value]))
  }

  /** `list_int_append`. A full list doubles its size first; a list whose
      size has dropped to 0 "doubles" to 0 and the write misses the buffer. */
  function Append(l: List, value: int): (r: Result<List>)
    requires Valid(l)
    ensures r.Err? <==> l.size == 0
    ensures r.Err? ==> r.error == BufferOverrun(0)
    ensures r.Ok? ==> Valid(r.value) && r.value.len == l.len + 1
    ensures r.Ok? ==> Elements(r.value) == Elements(l) + [value]
    ensures r.Ok? && l.len < l.size ==> r.value.size == l.size
    ensures r.Ok? && l.len == l.size ==> r.value.size == 2 * l.size
  {
    var grown := if l.len >= l.size then l.(size := 2 * l.size, values := Realloc(l.values, 2 * l.size)) else l;
    if l.len >= grown.size then Err(BufferOverrun(l.len))
    else
      var r := List(l.len + 1, grown.size, grown.values[l.len := value]);
      assert Elements(r) == Elements(l) + [value];
      Ok(r)
  }

  /** The shrink step that ends del and removeAll: once the list has become
      `len` long in buffer `b`, the size is halved (once) when it is at least
      four times the length. */
  function Shrink(len: int, b: seq<int>): (r: List)
    ensures r.len == len
    ensures r.size == |b| || (|b| >= 4 * len && r.size == |b| / 2)
    ensures |b| >= 4 * len ==> r.size < |b| || |b| == 0
    ensures |b| >= 4 * len ==> r.size >= 2 * len
    ensures 0 <= len <= |b| ==> Valid(r) && r.values[..len] == b[..len]
  {
    if |b| >= 4 * len then List(len, |b| / 2, Realloc(b, |b| / 2))
    else List(len, |b|, b)
  }

  /** `list_int_del`. There is neither negative-index resolution nor a
      bounds check: a negative index writes before the buffer, an index at or
      past the end still drops the length by one, and deleting from an empty
      list leaves the length at -1. */
  function Del(l: List, index: int): (r: Result<List>)
    requires Valid(l)
    ensures r.Err? <==> index < 0 && index < l.len - 1
    ensures r.Err? ==> r.error == BufferOverrun(index)
    ensures r.Ok? ==> r.value.len == l.len - 1
    ensures r.Ok? ==> (Valid(r.value) <==> l.len >= 1)
    ensures 0 <= index < l.len ==> r.Ok? && Elements(r.value) == Elements(l)[..index] + Elements(l)[index + 1..]
    ensures 1 <= l.len <= index ==> r.Ok? && Elements(r.value) == Elements(l)[..l.len - 1]
    ensures r.Ok? ==> r.value.size == if l.size >= 4 * (l.len - 1) then l.size / 2 else l.size
  {
    if index < 0 && index < l.len - 1 then Err(BufferOverrun(index))
    else if index < l.len - 1 then Ok(Shrink(l.len - 1, ShiftedLeft(l.values, index, l.len)))
    else Ok(Shrink(l.len - 1, l.values))
  }

  /** The buffer after del's loop: each cell from `index` up to `len - 2`
      takes its right neighbour's value, so the first `len - 1` cells are the
      first `len` without cell `index`. */
  function ShiftedLeft(a: seq<int>, index: nat, len: nat): (b: seq<int>)
    requires index < len <= |a|
    ensures |b| == |a|
    ensures forall j :: 0 <= j < |a| ==> b[j] == if index <= j < len - 1 then a[j + 1] else a[j]
    ensures b[..len - 1] == a[..index] + a[index + 1..len]
  {
    a[..index] + a[index + 1..len] + a[len - 1..]
  }

  /** Occurrences of `v` among the first `n` cells of `a`. */
  function Count(a: seq<int>, v: int, n: nat): (c: nat)
    requires n <= |a|
    ensures c <= n
  {
    if n == 0 then 0 else Count(a, v, n - 1) + (if a[n - 1] == v then 1 else 0)
  }

  /** `Count` is the multiplicity of `v` in the prefix. */
  lemma {:induction false} CountIsMultiplicity(a: seq<int>, v: int, n: nat)
    requires n <= |a|
    ensures Count(a, v, n) == multiset(a[..n])[v]
  {
    if n > 0 {
      assert a[..n] == a[..n - 1] + [a[n - 1]];
      CountIsMultiplicity(a, v, n - 1);
    }
  }

  /** `Count` only grows with the prefix. */
  lemma {:induction false} CountMonotone(a: seq<int>, v: int, j: nat, n: nat)
    requires j <= n <= |a|
    ensures Count(a, v, j) <= Count(a, v, n)
    decreases n - j
  {
    if j < n {
      CountMonotone(a, v, j, n - 1);
    }
  }

  /** The compaction loop of removeAll, entered at iteration `i`, keeps going
      while `i < len - removed`, where `removed` is the number of matches
      among the cells it has compared so far, `Count(a, v, i)`. The result is
      the iteration at which it stops. */
  function PassesFrom(a: seq<int>, v: int, len: nat, i: nat): (k: nat)
    requires i <= len <= |a|
    ensures i <= k <= len
    ensures len <= k + Count(a, v, k)
    decreases len - i
  {
    if len <= i + Count(a, v, i) then i else PassesFrom(a, v, len, i + 1)
  }

  /** Every iteration before the stopping one passes the loop test. */
  lemma {:induction false} PassesFromMinimal(a: seq<int>, v: int, len: nat, i: nat, j: nat)
    requires i <= j && j <= len <= |a| && j < PassesFrom(a, v, len, i)
    ensures j + Count(a, v, j) < len
    decreases len - i
  {
    if i < j {
      PassesFromMinimal(a, v, len, i + 1, j);
    }
  }

  /** The number of iterations removeAll's loop makes over the first `len`
      cells of `a`: the first `k` with `len <= k + Count(a, v, k)`. It
      overshoots `len` by at most one. */
  function Passes(a: seq<int>, v: int, len: nat): (k: nat)
    requires len <= |a|
    ensures k <= len
    ensures len <= k + Count(a, v, k) <= len + 1
  {
    var k := PassesFrom(a, v, len, 0);
    if k == 0 then k
    else
      PassesFromMinimal(a, v, len, 0, k - 1);
      k
  }

  /** `Passes` is the least iteration with the stopping property. */
  lemma PassesMinimal(a: seq<int>, v: int, len: nat)
    requires len <= |a|
    ensures forall j :: 0 <= j < Passes(a, v, len) ==> j + Count(a, v, j) < len
  {
    forall j | 0 <= j < Passes(a, v, len) {
      PassesFromMinimal(a, v, len, 0, j);
    }
  }

  /** Any iteration count with the stopping property of `Passes` whose
      predecessor passes the loop test is `Passes`. Since `j + Count(a, v, j)`
      grows strictly with `j`, the predecessor stands for every earlier
      iteration. */
  lemma PassesUnique(a: seq<int>, v: int, len: nat, k: nat)
    requires k <= len <= |a|
    requires len <= k + Count(a, v, k)
    requires k == 0 || k - 1 + Count(a, v, k - 1) < len
    ensures Passes(a, v, len) == k
  {
    PassesMinimal(a, v, len);
    var p := Passes(a, v, len);
    // Compares the smaller of the two with the other's predecessor.
    CountMonotone(a, v, if p < k then p else k, if p < k then k - 1 else k);
  }

  /** The buffer after `k` iterations of removeAll's loop: iteration `i`
      copies the original cell `i + Count(a, v, i + 1)`, which the earlier
      iterations have not touched, into cell `i`. Every copied cell lies in
      the buffer as long as `k + Count(a, v, k)` does not exceed it. */
  function Compacted(a: seq<int>, v: int, k: nat): (b: seq<int>)
    requires k <= |a| && k + Count(a, v, k) <= |a|
    ensures |b| == |a|
  {
    if k == 0 then a
    else
      CountMonotone(a, v, k - 1, k);
      Compacted(a, v, k - 1)[k - 1 := a[Source(a, v, k - 1)]]
  }

  /** The cells from `k` on are untouched. */
  lemma {:induction false} CompactedKeepsRest(a: seq<int>, v: int, k: nat, j: nat)
    requires k <= |a| && k + Count(a, v, k) <= |a| && k <= j < |a|
    ensures Compacted(a, v, k)[j] == a[j]
  {
    if k > 0 {
      CountMonotone(a, v, k - 1, k);
      CompactedKeepsRest(a, v, k - 1, j);
    }
  }

  /** The original cell that iteration `i` of removeAll's loop copies into
      cell `i`: it skips the matches among cells `0 .. i`. */
  function Source(a: seq<int>, v: int, i: nat): (src: nat)
    requires i < |a|
  {
    i + Count(a, v, i + 1)
  }

  /** Cell `i < k` holds the original cell `Source(a, v, i)`. */
  lemma {:induction false} CompactedCopies(a: seq<int>, v: int, k: nat, i: nat)
    requires k <= |a| && k + Count(a, v, k) <= |a| && i < k
    ensures Source(a, v, i) < |a| && Compacted(a, v, k)[i] == a[Source(a, v, i)]
  {
    CountMonotone(a, v, i + 1, k);
    if i < k - 1 {
      CountMonotone(a, v, k - 1, k);
      CompactedCopies(a, v, k - 1, i);
    }
  }

  /** Both facts for every cell. */
  lemma {:induction false} CompactedCells(a: seq<int>, v: int, k: nat)
    requires k <= |a| && k + Count(a, v, k) <= |a|
    ensures forall i :: 0 <= i < k ==> Source(a, v, i) < |a| && Compacted(a, v, k)[i] == a[Source(a, v, i)]
    ensures forall j :: k <= j < |a| ==> Compacted(a, v, k)[j] == a[j]
  {
    forall i | 0 <= i < k
      ensures Source(a, v, i) < |a| && Compacted(a, v, k)[i] == a[Source(a, v, i)]
    {
      CompactedCopies(a, v, k, i);
    }
    forall j | k <= j < |a|
      ensures Compacted(a, v, k)[j] == a[j]
    {
      CompactedKeepsRest(a, v, k, j);
    }
  }

  /** With no match among the first `k` cells, compaction copies every cell
      onto itself. */
  lemma {:induction false} CompactedIdentity(a: seq<int>, v: int, k: nat)
    requires k <= |a| && Count(a, v, k) == 0
    ensures Compacted(a, v, k) == a
  {
    if k > 0 {
      CompactedIdentity(a, v, k - 1);
    }
  }

  /** removeAll's result once its iteration count `k` is known and the last
      copy reads past the buffer. */
  lemma RemoveAllOverruns(l: List, value: int, k: nat)
    requires Valid(l) && k <= l.len && Passes(l.values, value, l.len) == k
    requires l.size < k + Count(l.values, value, k)
    ensures RemoveAll(l, value) == Err(BufferOverrun(l.size))
  {
  }

  /** removeAll's result once its iteration count `k` is known and every
      copy stays in the buffer: the compacted buffer, shortened by the
      matches seen, then shrunk. */
  lemma RemoveAllCompacts(l: List, value: int, k: nat)
    requires Valid(l) && k <= l.len && Passes(l.values, value, l.len) == k
    requires k + Count(l.values, value, k) <= l.size
    ensures RemoveAll(l, value) == Ok(Shrink(l.len - Count(l.values, value, k), Compacted(l.values, value, k)))
  {
  }

  /** `list_int_removeAll`. Iteration `i` compares the untouched cell `i`
      with `value`, counts a match, then copies cell `i + removed` into cell
      `i`, so cell `i` ends up holding the original cell
      `i + Count(values, value, i + 1)`; cells from the stopping iteration on
      are left as they were. When the last compared cell matches, the copy
      reads cell `len`, which is outside the buffer of a full list.
      That read is the only way removeAll fails; the struct invariant is
      kept, the length never grows, and the size changes only by the shrink
      rule. */
  function RemoveAll(l: List, value: int): (r: Result<List>)
    requires Valid(l)
    ensures l.len < l.size ==> r.Ok?
    ensures r.Err? ==> l.len == l.size && r.error == BufferOverrun(l.size)
    ensures r.Ok? ==> Valid(r.value) && r.value.len <= l.len
    ensures r.Ok? ==> r.value.size == if l.size >= 4 * r.value.len then l.size / 2 else l.size
  {
    var k := Passes(l.values, value, l.len);
    if k + Count(l.values, value, k) > l.size then Err(BufferOverrun(l.size))
    else Ok(Shrink(l.len - Count(l.values, value, k), Compacted(l.values, value, k)))
  }

  /** How many elements removeAll drops: no more than there are
      occurrences of `value`, and none exactly when `value` is absent. */
  lemma RemoveAllLength(l: List, value: int)
    requires Valid(l) && RemoveAll(l, value).Ok?
    ensures l.len - Count(l.values, value, l.len) <= RemoveAll(l, value).value.len
    ensures RemoveAll(l, value).value.len == l.len <==> value !in Elements(l)
  {
    var a := l.values;
    var k := Passes(a, value, l.len);
    var removed := Count(a, value, k);
    CountMonotone(a, value, k, l.len);
    CountIsMultiplicity(a, value, l.len);
    assert removed == 0 ==> k == l.len;
  }
}
