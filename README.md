# MicroGC collector core, modelled in Dafny

MicroGC (`gc.cpp`) is a small mark-and-sweep garbage collector.

- A program allocates cells. Each cell holds a growable array of fields, and each field is a (type tag, value) pair.
- A field whose tag is `(type)-1` is a reference: its value is the address of another cell, and 0 is null.
- `set_root` names the single root.
- `set_cleanup` registers a destructor per scalar tag.
- `cycle` marks every cell reachable from the root, using an explicit stack. It then partitions the global `range` of cells: each unreached cell has the cleanup of each of its scalar fields called on that field's value, and is then freed.
- `help` collects only when more cells than a threshold are allocated. After collecting, it doubles or halves the threshold, which never drops below `min_trigger` = 16.

The model has these modules:

- `Store` (store.dfy): machine words, fields, and callbacks.
- `Reach` (reach.dfy): heap snapshots, reachability from the root, and what freeing the unreached cells does to reachability.
- `Marking` (mark.dfy): the mark loop's invariant and one lemma per loop step.
- `SweepLog` (sweeplog.dfy): the cleanup calls a sweep makes, with exact-accounting lemmas.
- `Trigger` (trigger.dfy): the threshold and its update.
- `Cells` (cell.dfy): the `cell` struct as a class. It has `n`, `c`, and its buffer split into a value array and a tag array, and its field operations change these in place.
- `Gc` (heap.dfy): the file's globals as the fields of one `Heap` object, plus `alloc`, `set_root`, `set_cleanup`, `cycle`, and `help`. It also has heap-level versions of the field operations on the cell at an address.

A `ptr` is an address. `Heap.mem` maps each allocated address to its `Cell` object. The ghost map `Heap.fields` is the collector's view: it holds the live fields of every allocated cell, and `Heap.Valid()` keeps it in step with the cells. Cleanup callbacks are not executed. Each call is appended to the ghost `Heap.log` as (cell, field index, tag, value).

## Model

| member | source | states |
|---|---|---|
| Gc.Heap.constructor | gc.cpp:16-18 | at start nothing is allocated, the cleanup table is empty and the root is null; `trigger` starts at `min_trigger` (gc.cpp:121) |
| Gc.Heap.Alloc | gc.cpp:21-27 | a new cell with no fields is appended to `range` at an unused non-null address; it has `n = c = 0` and a new empty buffer; no other cell changes; a heap that was safe to trace stays safe |
| Reach.AllocKeepsTraceable | gc.cpp:21-27 | a cell that nothing points at cannot be reached, so adding it keeps every reachable address allocated |
| Cells.Cell.constructor | gc.cpp:22-25 | a new cell has `n = c = 0` and an empty buffer |
| Cells.Cell.Resize | gc.cpp:29-38 | with the copy corrected to the smaller size: `n` and `c` become `size`, the buffer is new, and the first `min(size, old n)` fields keep their tags and values |
| Gc.Heap.Resize | gc.cpp:29-38 | the same on the cell at `p`: its field count becomes `size`, the fields both sizes have are kept, its buffer is new, and no other cell changes |
| Cells.ResizeCopy | gc.cpp:31 | the corrected copy count is at most both sizes and equals one of them |
| Cells.ResizeCopyFits | gc.cpp:35-37 | the corrected copy stays inside both the new buffer and the old one |
| Cells.ResizeCopyAsWritten | gc.cpp:31 | the copy count as written is 0 without a buffer and otherwise at least both sizes |
| Cells.ResizeAsWrittenOverruns | gc.cpp:31-37 | for a cell with a buffer, the copy as written fits exactly when `old n <= size <= old c`; shrinking copies more slots than the new buffer has |
| Cells.Cell.Grow | gc.cpp:40-47 | the capacity doubles (becomes 2 from 0), the buffer is new, `n` is kept, and so are all live fields |
| Cells.Cell.GetSize | gc.cpp:49-50 | returns the number of live fields |
| Cells.Cell.PushField | gc.cpp:52-56 | the live fields gain (`t`, `v`) at the end; the buffer is kept if there was room, and otherwise replaced by one of twice the capacity |
| Gc.Heap.PushField | gc.cpp:52-56 | the cell at `p` gains the field at the end, keeping its buffer or getting a new one, and no other cell changes; the heap stays well formed |
| Cells.Cell.PopField | gc.cpp:58-59 | the last live field is dropped and the buffer is kept; the cell must have a field |
| Gc.Heap.PopField | gc.cpp:58-59 | the cell at `p` loses its last field and keeps its buffer, and no other cell changes |
| Cells.Cell.SetField | gc.cpp:61-63 | slot `i` takes the tag and the value and no other slot changes; a live field `i` becomes (`t`, `v`) |
| Gc.Heap.SetField | gc.cpp:61-63 | field `i` of the cell at `p` becomes (`t`, `v`) when it is live; otherwise no field changes |
| Cells.Cell.SetType | gc.cpp:65-69 | slot `i` takes tag `t`; a live field keeps its value; values are untouched |
| Gc.Heap.SetType | gc.cpp:65-69 | a live field `i` of the cell at `p` takes tag `t` and keeps its value |
| Cells.Cell.SetValue | gc.cpp:71-72 | slot `i` takes value `v`; a live field keeps its tag; tags are untouched |
| Gc.Heap.SetValue | gc.cpp:71-72 | a live field `i` of the cell at `p` takes value `v` and keeps its tag |
| Cells.Cell.GetType | gc.cpp:74-75 | returns the tag in slot `i`, which for a live slot is the tag of field `i` |
| Cells.Cell.GetValue | gc.cpp:77-78 | returns the value in slot `i`, which for a live slot is the value of field `i` |
| Gc.Heap.SetRoot | gc.cpp:80-81 | the root becomes `p` |
| Gc.Heap.SetCleanup | gc.cpp:83-86 | the table grows with null entries to hold index `tag`; entry `tag` becomes `f`; every other entry is kept |
| Reach.Restrict | gc.cpp:105-118 | freeing the cells outside `S` keeps exactly the cells in `S`, with their fields |
| Marking.TargetsAreSucc | gc.cpp:100-104 | expanding a cell pushes exactly the non-null values of its reference fields |
| Cells.Cell.PushTargets | gc.cpp:100-104 | the loop over a cell's fields pushes exactly `Targets` of its live fields, in field order |
| Marking.MarkStart | gc.cpp:91-93 | nothing marked with the root on the stack satisfies the mark invariant |
| Marking.MarkSkip | gc.cpp:95-98 | popping a cell that is already marked keeps the invariant |
| Marking.MarkExpand | gc.cpp:95-104 | popping an unmarked cell, marking it, and pushing its targets keeps the invariant; the cell is allocated |
| Marking.MarkDone | gc.cpp:94 | with the stack empty, the marked set is exactly the set of cells reachable from the root |
| Gc.Heap.Mark | gc.cpp:89-104 | the mark phase returns exactly the cells reachable from the root, and none when the root is null |
| Reach.ReachesStep | gc.cpp:100-104 | a cell pointed at by a reachable cell is reachable |
| Reach.PathStaysIn | gc.cpp:91-104 | a walk that starts in a closed set stays in it |
| Reach.ClosedHoldsReachable | gc.cpp:91-104 | a closed set that holds the root holds every reachable cell |
| Reach.ReachedIsLeastClosed | gc.cpp:91-104 | the reached set holds the root, is closed, and lies inside every closed set that holds the root |
| Reach.RestrictedPath | gc.cpp:105-118 | a walk after freeing cells is a walk before |
| Reach.ReachedAfterFree | gc.cpp:105-118 | after the unreached cells are freed, the reachable cells are exactly the survivors, and tracing never meets a freed cell |
| Cells.Cell.Cleanup | gc.cpp:107-111 | a cleanup is called on every field whose tag is not the reference tag, in field order, and on no other field |
| SweepLog.CellCallsExact | gc.cpp:107-111 | a call is made for a cell iff it names one of that cell's live fields whose tag is not the reference tag, with that field's tag and value |
| SweepLog.CellCallsIncreasing | gc.cpp:107-111 | a cell's calls follow its fields in strictly increasing index order |
| SweepLog.SweepCallsExact | gc.cpp:105-117 | the sweep calls cleanups exactly for the scalar fields of the unreached cells of `range`; a reached cell and a reference field never get a call |
| SweepLog.SweepCallsOnce | gc.cpp:105-117 | over distinct cells, no field is cleaned twice |
| SweepLog.OnceAppend | gc.cpp:105-117 | adding one cell's calls, in increasing field order, after calls about other cells keeps every field cleaned at most once |
| SweepLog.SweepCallsNone | gc.cpp:105-117 | a sweep in which every cell is reached calls no cleanup |
| Gc.SweepCells | gc.cpp:105-117 | each cell of `range` is visited once: the unreached ones are cleaned and removed from the address map, and the reached ones are kept |
| Gc.Heap.Sweep | gc.cpp:105-118 | `range` keeps each cell in `s` once and drops the rest; the freed cells leave `mem` and `fields`; the log gains that sweep's calls |
| Gc.Heap.Cycle | gc.cpp:88-118 | the heap stays well formed; `range` keeps exactly the cells reachable from the root; the others are freed after their cleanups ran; every survivor is the same cell object as before and is reachable, and tracing stays safe; a second collection right away would free nothing, keep every field and call no cleanup |
| Trigger.TriggerIsPower | gc.cpp:120-129 | every threshold `help` can hold is 16 times a power of two |
| Trigger.PowerIsTrigger | gc.cpp:120-129 | conversely, every 16·2^k is a threshold |
| Trigger.TriggerFloor | gc.cpp:120-129 | a threshold is at least `min_trigger` and a multiple of it |
| Trigger.Adapt | gc.cpp:126-129 | the update grows the threshold exactly when more than half of it survived; it shrinks it exactly when fewer than a quarter survived and it is above 16; it changes by a factor of two at most, and the result is still a threshold |
| Gc.Heap.AdaptTrigger | gc.cpp:126-129 | the threshold becomes `Adapt(old threshold, survivors)` |
| Gc.Heap.Help | gc.cpp:123-129 | at or below the threshold no cell, field, log entry or threshold changes, and tracing need not be safe nor cleanups registered; above it, one collection runs and the threshold is adapted to the survivors; the heap stays valid, tracing is safe after a collection and stays as safe as it was otherwise, every remaining cell is the same object, and the threshold stays a threshold |

## Left out

- gc.hpp declares a different interface from the one gc.cpp implements: a `field` struct, a `cell` holding a hash map, and a `ptr` handle class (gc.hpp:16-24). gc.cpp cannot be using that `ptr`, since it writes `p->n` on a `ptr` (gc.cpp:23). Neither file defines `value`, `type` or `size`, so gc.hpp is not part of this model. `value`, `type`, `size` and `ptr` are taken to be unsigned 64-bit words, with the reference tag `(type)-1` as all bits set.
- The byte layout of a cell's buffer (`c` values followed by `c` tags) is modelled as two arrays of length `c`. A cell without a buffer has two empty arrays. `malloc`/`free`/`delete`, uninitialised memory, and the buffer addresses themselves are not modelled.
- Cells.Cell.Resize: the slots past the old size are left unspecified, as the fresh `malloc` buffer is.
- `set_type`'s diagnostic write to `std::cerr`, for a tag above 2 other than `(type)-1`, is output only and is left out.
- Gc.Heap.Alloc takes the new cell's address as a parameter. It may be any non-null address not in use, standing for what `new cell{ }` returns.
- Cleanup callbacks are not executed. Each call is recorded in the ghost `log`, so what a callback does (including re-entering the collector) is not modelled.
- Gc.Heap.Sweep: the log states the calls in `range` order, and survivors keep their relative order. `std::partition` applies its predicate once per element, but its visiting order and the order of survivors are unspecified. The order-free facts are `SweepLog.SweepCallsExact` and `SweepLog.SweepCallsOnce`; the range contract is set-level.
- The `std::unordered_set` marked set (and its load factor) is modelled as a set, and `std::stack` as a sequence.
- Gc.Heap.Cycle requires that every cell reachable from the root is allocated (`Traceable`). Following a dangling pointer is undefined behaviour in the source.
- Gc.Heap.Help demands the same two conditions only when it collects (`|range| > trigger`).
- Gc.Heap.Cycle requires that every scalar tag of an unreached cell indexes a non-null cleanup (`CanClean`). An out-of-range or null entry is undefined behaviour in the source.
- Cells.Cell.PopField requires a live field. The unguarded `n--` on an empty cell wraps `n` around, and that is not modelled.
- Cells.Cell.SetField, SetType, SetValue, GetType and GetValue require `i < c`: a slot outside the buffer is undefined behaviour.
- Gc.Heap.SetCleanup requires `tag + 1` not to wrap around to 0. When it wraps, the table is not grown and the write is out of bounds.
- Cells.Cell.Grow, PushField: the 64-bit wrap-around of `n`, `c` and `2 * c` is not modelled (they are unbounded naturals).
- Gc.Heap.Help requires the threshold to be one `help` can hold (`IsTrigger`). The 64-bit overflow of `trigger *= 2` is not modelled.
- Concurrency: the source is single-threaded, and so is the model.
- The cell getters (`get_size`, `get_type`, `get_value`) and `grow` are modelled on the cell only. They change no other cell, so no heap-level version is needed.

## Findings

| source | as written | input that shows it | evidently intended | confidence | as-written member | corrected member |
|---|---|---|---|---|---|---|
| gc.cpp:31 | `resize` copies `max(n, old.n)` values and tags into the new buffer of `n` slots | a cell with two fields and capacity 2, resized to 1: two values are copied into a one-slot buffer, so the write runs past it; growing past the old capacity also reads past the old buffer | copy `min(n, old.n)` fields | not executed | Cells.ResizeAsWrittenOverruns | Cells.ResizeCopyFits |
