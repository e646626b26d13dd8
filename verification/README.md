# list_int: a verified model of Wlang's growable C int list

Wlang's C backend ships `list_int`, a growable array of C `int`s. The struct
holds `len` (the number of elements), `size` (the number of allocated cells)
and the buffer. It has six operations:

- `get`, `set` and `inc` resolve a negative index as `len + index`. They stop
  the process with an IndexError when the resolved index is below 0 or above
  `len`.
- `append` doubles `size` when the list is full.
- `del` shifts the tail one place left.
- `removeAll` compacts the list in one pass.
- `del` and `removeAll` both end by halving `size` once when
  `size >= 4 * len`.

The model is value-level. `ListInt.List(len, size, values)` holds the whole
buffer, and `ListInt.Valid` is the struct invariant
`0 <= len <= size == |values|`. Every operation returns a `Result`:

- `IndexError(len, resolvedIndex)` stands for the printf-then-`exit(-1)` path.
- `BufferOverrun(cell)` stands for a read or write the C code makes outside
  its buffer. In C that access is undefined behaviour.

Modules:

- `ListInt` (list_int.dfy) holds the data model, the index check, the six
  operations and the shrink rule. `del` and `removeAll` are closed forms
  here. For `removeAll`, `Count` counts the matches seen so far and `Passes`
  is the number of loop iterations.
- `ListIntLoops` (list_int_loops.dfy) runs the two C loops cell by cell and
  proves they compute those closed forms.
- `ListIntProperties` (list_int_properties.dfy) has the lemmas that relate
  calls: negative indexing, read-after-write, appends, the removeAll cases,
  and the capacity invariant along any sequence of calls.
- `ListIntFindings` (list_int_findings.dfy) has the three defects listed
  below. Each comes with a corrected operation.
- `ListIntScenarios` (list_int_scenarios.dfy) has small concrete runs.

The rest of the model keeps the code's quirks exactly:

- Index `len` passes the bounds check.
- `del` neither resolves a negative index nor checks bounds. Deleting from an
  empty list leaves `len == -1`.
- `size` can reach 0.
- `removeAll` is not a filter once the value occurs twice.

The corrected operations in `ListIntFindings` sit beside the as-written ones.
They are proved to agree on these inputs:

- get, set and inc agree at every index other than `len`.
- append agrees on every list with at least one cell.
- removeAll agrees when `value` is absent. It also agrees when `value` occurs
  once before the last element. When that one occurrence is the last element,
  the two agree on length, size and elements.

Two readings of the library that one might expect do not match the code.
The model follows the code:

- `removeAll(2)` on `[1, 2, 3, 2, 4]` gives `[1, 3, 2]`, not `[1, 3, 4]`.
- A removal halves the size only once. So `size >= 4 * len` can still hold
  after the removal (`ListIntScenarios.ShrinkHalvesOnce`).

## Model

| member | source | states |
|---|---|---|
| `ListInt.CheckIndex` | core/libs/native/c/list_int.h:11-18 | A requested index passes exactly when it is in `[-len, len]` and is not `len` of a full list. A negative index counts back from `len`. A rejection reports `len` and the resolved index. `len` of a full list is a buffer overrun. |
| `ListInt.Get` | core/libs/native/c/list_int.h:10-20 | get fails exactly outside `[-len, len]`, or at `len` of a full list. `get(i)` is element `i`, and `get(-k)` is element `len - k`. `get(len)` returns the spare cell after the last element. |
| `ListInt.Set` | core/libs/native/c/list_int.h:22-32 | set fails exactly when the index check fails, with the same error. Otherwise only the addressed cell changes, to `value`, and `len` and `size` stay as they were. `set(len, x)` leaves the elements unchanged. |
| `ListInt.Inc` | core/libs/native/c/list_int.h:71-81 | inc fails exactly when the index check fails. Otherwise the addressed cell grows by `value`, every other cell is unchanged, and `len` and `size` stay as they were. |
| `ListInt.Append` | core/libs/native/c/list_int.h:34-41 | append fails exactly when `size == 0`. Otherwise the elements become the old elements followed by `value`, and `len` grows by one. `size` doubles exactly when the list was full. The invariant is kept. |
| `ListInt.Realloc` | core/libs/native/c/list_int.h:37 | The reallocated buffer has the requested number of cells. Every cell both buffers have keeps its value. |
| `ListInt.Shrink` | core/libs/native/c/list_int.h:53-56 | The size is halved once when `size >= 4 * len` and is otherwise unchanged. After halving it is still at least `2 * len`. The first `len` cells survive and the invariant holds. |
| `ListInt.Del` | core/libs/native/c/list_int.h:59-69 | del fails (writes before the buffer) exactly when `index < 0` and `index < len - 1`. Otherwise `len` drops by one. For `0 <= index < len` the elements are the old ones without element `index`. An index at or past `len` drops the last element. The result is well-formed exactly when the list was non-empty. The size is halved when `size >= 4 * (len - 1)` and is otherwise unchanged. |
| `ListInt.CountIsMultiplicity` | core/libs/native/c/list_int.h:47-49 | The running match count `removedItems` after `n` iterations is the number of occurrences of `value` among the first `n` cells. |
| `ListInt.Passes` | core/libs/native/c/list_int.h:46 | The loop stops at an iteration `k <= len` where the guard `i < listLen - removedItems` fails, that is `len <= k + Count(k)`, and `k + Count(k) <= len + 1`. |
| `ListInt.PassesMinimal` | core/libs/native/c/list_int.h:46 | Every iteration before `Passes` still passes the guard: `j + Count(j) < len` for all `j < Passes`. So `Passes` is the first iteration that fails. |
| `ListInt.PassesUnique` | core/libs/native/c/list_int.h:46 | The loop stops at the one iteration `k` with `len <= k + Count(k)` whose predecessor still passes the guard. Since `j + Count(j)` grows strictly with `j`, that one check stands for every earlier iteration. |
| `ListInt.CompactedCells` | core/libs/native/c/list_int.h:46-51 | After `k` iterations, cell `i < k` holds the original cell `i + Count(i + 1)`. That cell lies in the buffer as long as `k + Count(k)` does not exceed it. Cells from `k` on are untouched. |
| `ListInt.CompactedIdentity` | core/libs/native/c/list_int.h:46-51 | With no match among the first `k` cells, the `k` iterations copy every cell onto itself. |
| `ListInt.RemoveAll` | core/libs/native/c/list_int.h:43-57 | removeAll fails only on a full list, as a buffer overrun at cell `size`. It never fails when there is a spare cell. On success the invariant holds and `len` never grows. The size is halved when `size >= 4 * len` of the result and is otherwise unchanged. |
| `ListInt.RemoveAllLength` | core/libs/native/c/list_int.h:43-57 | On success at most as many elements go as there are occurrences of `value`. `len` is unchanged exactly when `value` is absent. |
| `ListIntLoops.DelInPlace` | core/libs/native/c/list_int.h:59-69 | The cell-by-cell shifting loop computes exactly `ListInt.Del`, including the write before the buffer on a negative index. |
| `ListIntLoops.RemoveAllInPlace` | core/libs/native/c/list_int.h:43-57 | The compare-then-copy loop computes exactly `ListInt.RemoveAll`, including the read of cell `len`. |
| `ListIntLoops.CompactionLoop` | core/libs/native/c/list_int.h:44-51 | The loop either stops at the first iteration failing the guard, with the matches counted and the buffer compacted up to it, or stops at the iteration whose copy would read cell `size` or beyond. |
| `ListIntProperties.GetNegativeIndex` | core/libs/native/c/list_int.h:11-19 | For `1 <= k <= len`, `get(-k)` equals `get(len - k)`. `get(-1)` is the last element. |
| `ListIntProperties.SetThenGet` | core/libs/native/c/list_int.h:22-32 | After a successful `set(i, x)`, `get(i)` is `x`. `get` at every index resolving elsewhere is unchanged. |
| `ListIntProperties.IncThenGet` | core/libs/native/c/list_int.h:71-81 | After a successful `inc(i, v)`, `get(i)` is the old value plus `v`. Every other index reads as before. |
| `ListIntProperties.AppendThenGet` | core/libs/native/c/list_int.h:34-41 | After `append(x)`, `get(-1)` is `x` and every earlier index reads as before. |
| `ListIntProperties.AppendAllKeepsOrder` | core/libs/native/c/list_int.h:34-41 | From a size of at least 1, any run of appends succeeds. The elements become the old ones followed by the appended values in order, and the size never shrinks. |
| `ListIntProperties.RemoveAllAbsent` | core/libs/native/c/list_int.h:43-57 | When `value` is not an element, removeAll succeeds and keeps `len` and the whole buffer. Only the shrink rule may halve the size. |
| `ListIntProperties.RemoveAllSingle` | core/libs/native/c/list_int.h:43-57 | When `value` occurs exactly once, at `p < len - 1`, removeAll equals `del(p)`. When `p` is the last element, it succeeds exactly when the list has a spare cell. It then agrees with `del(p)` on `len`, `size` and the elements. |
| `ListIntProperties.Step` | core/libs/native/c/list_int.h:10-81 | Every operation keeps `0 <= len <= size`, except `del` on an empty list, which breaks it. Even then `len <= size` holds. No operation grows `len` by more than one. |
| `ListIntProperties.Run` | core/libs/native/c/list_int.h:5-6 | After any sequence of calls that succeeds and never deletes from an empty list, `len <= size` still holds. |
| `ListIntFindings.RemoveAllLeavesOccurrence` | core/libs/native/c/list_int.h:46-51 | `removeAll(2)` on `[1, 2, 3, 2, 4]` in 8 cells gives `[1, 3, 2]`, which still contains 2. In 5 cells it reads cell 5, outside the buffer. |
| `ListIntFindings.RemoveAllFilteredInPlace` | core/libs/native/c/list_int.h:43-57 | A compaction pass with a separate write position computes the intended removeAll. It keeps exactly the elements other than `value`, in order, and applies the shrink rule. |
| `ListIntFindings.RemoveAllFiltered` | core/libs/native/c/list_int.h:43-57 | The intended removeAll leaves no occurrence of `value`. Its length is `len` minus the number of occurrences, and the invariant is kept. |
| `ListIntFindings.RemoveAllFilteredAgreesWhenAbsent` | core/libs/native/c/list_int.h:43-57 | When `value` is absent, the as-written and the intended removeAll give the same list. |
| `ListIntFindings.WithoutOnlyAt` | core/libs/native/c/list_int.h:43-57 | Removing the only occurrence of a value, at `p`, is cutting element `p` out of the list. |
| `ListIntFindings.FilteredSingleIsDel` | core/libs/native/c/list_int.h:43-69 | With one occurrence of `value`, at `p`, the intended removeAll gives the same list as `del(p)` when `p < len - 1`. When `p` is the last element they agree on length, size and elements. |
| `ListIntFindings.RemoveAllFilteredAgreesWhenSingle` | core/libs/native/c/list_int.h:43-57 | With one occurrence of `value`, at `p < len - 1`, the as-written and the intended removeAll give the same list. When `p` is the last element and removeAll succeeds, they agree on length, size and elements. |
| `ListIntFindings.IndexLenAdmitted` | core/libs/native/c/list_int.h:15 | `get(3)` on `[1, 2, 3]` with a spare cell returns that cell's stale value, and `set(3, x)` changes no element. With no spare cell, `get(3)` reads outside the buffer. |
| `ListIntFindings.GetStrict` | core/libs/native/c/list_int.h:10-20 | get with the intended check succeeds exactly for indices in `[-len, len)`. It returns the named element and otherwise reports an IndexError, never an overrun. |
| `ListIntFindings.SetStrict` | core/libs/native/c/list_int.h:22-32 | set with the intended check succeeds exactly for indices in `[-len, len)` and changes exactly the named element. |
| `ListIntFindings.IncStrict` | core/libs/native/c/list_int.h:71-81 | inc with the intended check succeeds exactly for indices in `[-len, len)`. It adds `value` to the named element only and otherwise reports an IndexError. |
| `ListIntFindings.StrictAgreesBelowLen` | core/libs/native/c/list_int.h:15 | At every index other than `len`, the strict and the as-written get, set and inc agree. |
| `ListIntFindings.EmptiedListCannotAppend` | core/libs/native/c/list_int.h:35-39 | `del(0)` on `[7]` in one cell, or removeAll on an empty one-cell list, leaves size 0. The next append writes outside the zero-cell buffer. |
| `ListIntFindings.AppendGrowing` | core/libs/native/c/list_int.h:34-41 | append with a minimum of one cell always succeeds. It keeps the invariant and the elements, adds `value` at the end, and leaves a size of at least 1. |
| `ListIntFindings.AppendGrowingAgrees` | core/libs/native/c/list_int.h:34-41 | On any list with at least one cell, the intended and the as-written append give the same list. |
| `ListIntScenarios.DelMiddle` | core/libs/native/c/list_int.h:59-64 | `del(1)` on `[5, 6, 7]` gives `[5, 7]`. |
| `ListIntScenarios.IncMiddle` | core/libs/native/c/list_int.h:71-81 | `inc(1, 10)` on `[1, 2, 3]` gives `[1, 12, 3]`. |
| `ListIntScenarios.GetOutOfRange` | core/libs/native/c/list_int.h:15-18 | On `[1, 2, 3]`, `get(5)` reports `IndexError(3, 5)`. `get(-4)` reports the resolved index, `IndexError(3, -1)`. |
| `ListIntScenarios.TenAppends` | core/libs/native/c/list_int.h:34-41 | Ten appends to an empty one-cell list keep all ten values in order. They end with `len` 10 and `size` 16. |
| `ListIntScenarios.ShrinkHalvesOnce` | core/libs/native/c/list_int.h:65-68 | Deleting from 2 elements in 16 cells leaves 1 element in 8 cells, still at least four times the length. |

## Findings

| source | as written | input that shows it | evidently intended | confidence | as-written member | corrected member |
|---|---|---|---|---|---|---|
| core/libs/native/c/list_int.h:46-51 | Iteration `i` compares the original cell `i` but copies cell `i + removedItems`. After the first match, the cell tested and the cell kept differ. | `removeAll(2)` on `[1, 2, 3, 2, 4]` gives `[1, 3, 2]`. With `len == size` it also reads cell `len`. | Remove every occurrence and keep the other elements in order. | high; not executed | `ListIntFindings.RemoveAllLeavesOccurrence` | `ListIntFindings.RemoveAllFilteredInPlace` |
| core/libs/native/c/list_int.h:15 | The bounds check rejects `index > len` but admits `index == len`. The same check is at lines 27 and 76. | On `[1, 2, 3]` in 4 cells, `get(3)` returns a stale cell. In 3 cells it reads outside the buffer. | Reject `index >= len`. | high; not executed | `ListIntFindings.IndexLenAdmitted` | `ListIntFindings.GetStrict`, `ListIntFindings.SetStrict`, `ListIntFindings.IncStrict` |
| core/libs/native/c/list_int.h:35-39 | A full list grows to `2 * size` cells, which is 0 when `size` is 0. `size` reaches 0 when del or removeAll empties a one-cell list. | `del(0)` on `[7]` in one cell, then `append(5)`, writes cell 0 of a zero-cell buffer. | Grow a full list to at least one cell. | medium; not executed | `ListIntFindings.EmptiedListCannotAppend` | `ListIntFindings.AppendGrowing` |

## Left out

- The printf message text and process termination: both are the `IndexError` value.
- `realloc` failure and memory ownership: `Realloc` always succeeds and returns a fresh value.
- Uninitialised memory: cells that realloc adds hold 0 here. In C their contents are unspecified.
- Undefined behaviour on out-of-buffer accesses: such an access becomes `BufferOverrun`, and the operation stops at the first one.
- The in-place mutation through a `list_int*`: each operation returns the new list value instead.
- ListInt.Inc: does not model C `int` overflow of the element. The sum is a mathematical integer.
- ListInt.Append: does not model C `int` overflow of `size * 2` or of the byte count passed to realloc. Integers are unbounded.
- ListIntProperties.Run: says nothing about calls made after `del` on an empty list. That call leaves `len == -1`, and every operation requires the struct invariant `0 <= len`, so operations on such a list are not modelled. `ListIntProperties.Step` still shows that `len <= size` holds after it.
- ListInt.Shrink: does not model C `int` overflow of `4 * len`. Integers are unbounded.
- ListInt.RemoveAll: does not give the element-level result when `value` occurs two or more times. That result is the closed form in `ListInt.RemoveAll`, described cell by cell by `ListInt.CompactedCells` and computed by `ListIntLoops.RemoveAllInPlace`. It is not a filter (see Findings).
- core/interpreter.py: the read-eval loop, file reading and transpiler loading are I/O. They depend on parser and assembly modules that are not part of this model.
- core/transpilers/baseTranspiler.py: unfinished scaffolding whose formatting methods live in subclasses that are not part of this model. Its type inference reads from standard input.
- core/grammar/generatedGrammar.py: a table of patterns with no behaviour of its own.
