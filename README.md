# D-Bus data slots, modelled in Dafny

This project models the data-slot mechanism of D-Bus (`dbus/dbus-dataslot.c`).
D-Bus uses it so that unrelated code can attach data to a shared object such
as a connection or a server. The mechanism has two parts:

- **The slot-ID allocator** (`DBusDataSlotAllocator`). It hands out small integer
  IDs and keeps an int table `allocated_slots` of `n_allocated_slots` entries
  plus a counter `n_used_slots`. A live entry holds its own index and a free
  entry holds -1. `alloc` tests `n_used_slots < n_allocated_slots`, which under
  the bookkeeping invariant holds exactly when some entry is free, and then
  reuses the lowest free entry. If no entry is free it grows the table by
  exactly one. `free` marks the entry -1. Freeing the last
  live ID releases the whole table, so numbering restarts at 0.
- **The per-object slot list** (`DBusDataSlotList`). It is a sparse array of
  `(data, free_data_func)` pairs indexed by slot ID. `set` grows it to exactly
  `slot + 1` entries and zero-fills the new ones. It stores the new pair and
  hands the old pair back to the caller without running the old destructor.
  `get` only reads. List `free` runs each present destructor once, in
  ascending index order, and then empties the list.

Files:

- `allocator.dfy`, module `DataSlotAllocator`. The datatype `Table` is the
  allocator's abstract state. `Inv` is its bookkeeping invariant. `AllocStep`
  and `FreeStep` specify one call each. The lemmas prove the allocator's
  properties about them. The class `Allocator` holds the same three fields,
  plus `hasLock` for whether `dbus_mutex_new` produced a lock, and has the imperative `Init`, `Alloc` (with the first-fit `while` loop) and
  `Free`. Each method is proved to follow its step function.
- `slotlist.dfy`, module `DataSlotList`. `SetStep`, `Lookup` and `Destructors`
  specify `set`, `get` and list `free`. The lemmas prove the handoff, growth
  and destruction properties. The class `SlotList` holds `slots` and `nSlots`
  and has `Init`, `Set` (with the zero-fill loop), `Get` and `Free` (with the
  destructor walk).
- `dataslottest.dfy`, module `DataSlotTest`. This is the file's own test
  `_dbus_data_slot_test`. Every `_dbus_assert` of the test is a proved
  `assert`, except the one inside `test_free_slot_data_func` (line 279),
  which is the `requires` of `TestFreeSlotData` and is proved at each call.

Conventions of the model:

- A pointer (`void *`) is an `int`, and `NULL` is 0. This matches the test's
  `_DBUS_INT_TO_POINTER`; in particular, data 0 is NULL.
- A `DBusFreeFunction` is `NoFunction` (NULL) or `Destructor(id)`.
- Running a destructor is recorded as a `Call(func, data)`. List `Free`
  returns the calls it made, in order.
- Environment failures are boolean parameters. `lockFails` means
  `dbus_mutex_lock` failed and `growFails` means `dbus_realloc` returned NULL.
  `Allocator.Init` takes `mutexCreated` for `dbus_mutex_new`.
- `dbus_realloc` keeps the old contents and leaves the new tail undefined. The
  methods model this by choosing an arbitrary tail (`:|`), which the source's
  own code then overwrites.
- The `_dbus_assert` checks on callers are `requires` clauses. Free and set,
  for example, require `allocated_slots[slot] == slot`.

## Model

| member | source | states |
|---|---|---|
| DataSlotAllocator.Allocator.Init | dbus/dbus-dataslot.c:43-54 | the table is empty with both counters 0, the invariant holds, and init succeeds exactly when the mutex was created |
| DataSlotAllocator.FreshIsEmpty | dbus/dbus-dataslot.c:46-48 | the initial state satisfies the invariant, has an empty table, has both counters 0 and has no live IDs |
| DataSlotAllocator.FirstFree | dbus/dbus-dataslot.c:73-83 | the first-fit scan result is the lowest index holding a negative entry, or the table length when there is none |
| DataSlotAllocator.FreeEntryExists | dbus/dbus-dataslot.c:71-85 | under the invariant, n_used < n_allocated guarantees the scan finds a free entry, so the assertion at line 85 holds |
| DataSlotAllocator.UsedBounded | dbus/dbus-dataslot.c:71-102 | under the invariant 0 <= n_used <= n_allocated, and n_used is the number of distinct live IDs |
| DataSlotAllocator.UsedCountUpdate | dbus/dbus-dataslot.c:78-79 | rewriting one entry changes the self-tagged count by exactly whether that entry was and is self-tagged |
| DataSlotAllocator.UsedCountIsLiveIds | dbus/dbus-dataslot.c:132 | the number of self-tagged entries equals the size of the set of live IDs |
| DataSlotAllocator.AllocPreservesInv | dbus/dbus-dataslot.c:64-110 | every alloc outcome (lock failure, reuse, growth failure, growth) keeps the invariant: entries are their own index or -1, n_used counts the self-tagged ones, and the table is empty when n_used is 0 |
| DataSlotAllocator.TagPreservesInv | dbus/dbus-dataslot.c:76-79 | tagging a free entry with its index and incrementing n_used keeps the invariant |
| DataSlotAllocator.AppendPreservesInv | dbus/dbus-dataslot.c:97-101 | appending an entry equal to the old n_allocated and incrementing both counters keeps the invariant |
| DataSlotAllocator.AllocFailure | dbus/dbus-dataslot.c:68-69 | alloc returns a negative ID exactly when the lock fails or when no entry is free and growth fails; that ID is -1 and the state is unchanged (also lines 91-95) |
| DataSlotAllocator.AllocSuccess | dbus/dbus-dataslot.c:104-105 | a successful alloc returns an ID with 0 <= slot < n_allocated that is self-tagged and was not live before; the live set gains exactly that ID and n_used grows by one |
| DataSlotAllocator.AllocFirstFit | dbus/dbus-dataslot.c:71-86 | when the counter test n_used < n_allocated holds, alloc returns the lowest negative index and tags it; every other entry and n_allocated are unchanged, and n_used grows by one |
| DataSlotAllocator.HoleMeansBelow | dbus/dbus-dataslot.c:71 | a table with an entry that is not its own index has fewer self-tagged entries than entries |
| DataSlotAllocator.FreeEntryIffBelow | dbus/dbus-dataslot.c:71-85 | under the invariant, some entry is free if and only if n_used < n_allocated, so the counter test of line 71 is exactly "a free entry exists" |
| DataSlotAllocator.AllocReusesFreeEntry | dbus/dbus-dataslot.c:71-86 | while any entry is free, alloc never grows the table: it returns the lowest free index, at most that entry's, tags it, keeps n_allocated and increments n_used |
| DataSlotAllocator.AllocGrows | dbus/dbus-dataslot.c:87-102 | with no free entry, a successful alloc appends one entry equal to the old n_allocated, returns that ID, and increments both counters |
| DataSlotAllocator.Allocator.Alloc | dbus/dbus-dataslot.c:63-110 | the first-fit loop and the growth path produce exactly `AllocStep` of the old state; the invariant is kept; the result is -1 or a live in-range ID |
| DataSlotAllocator.FreePreservesInv | dbus/dbus-dataslot.c:128-139 | freeing a live ID keeps the invariant |
| DataSlotAllocator.FreeEffect | dbus/dbus-dataslot.c:131-139 | free decrements n_used and removes exactly that ID from the live set; when it was the last one the table becomes empty with n_allocated 0; otherwise only that entry becomes -1 and the length is kept |
| DataSlotAllocator.RestartAtZero | dbus/dbus-dataslot.c:134-139 | after the last live ID is freed, the allocator is back in its initial state and the next alloc returns 0 |
| DataSlotAllocator.Allocator.Free | dbus/dbus-dataslot.c:122-142 | for a live ID, the new state is exactly `FreeStep` of the old state and the invariant is kept |
| DataSlotAllocator.FreshAllocsInOrder | dbus/dbus-dataslot.c:302-313 | from a fresh allocator with no frees, n successful allocs return 0, 1, ..., n-1 in order and leave the table [0..n-1] with both counters n |
| DataSlotList.SlotList.Init | dbus/dbus-dataslot.c:148-153 | a new list has no entries |
| DataSlotList.SetFailure | dbus/dbus-dataslot.c:184-192 | set fails exactly when the slot lies beyond the end and growth fails, and a failed set leaves the entries unchanged |
| DataSlotList.SetGrowsExactly | dbus/dbus-dataslot.c:184-203 | when slot >= n_slots, a successful set grows the list to exactly slot+1 entries; the old entries are preserved, the new ones are (NULL, NULL) apart from the stored slot, and the pair handed back is (NULL, NULL) |
| DataSlotList.SetSwaps | dbus/dbus-dataslot.c:205-213 | a successful set returns the previous (data, free_data_func) at the slot and stores the new pair; every other old entry is untouched and every other new entry is zero-filled |
| DataSlotList.SetNeverShrinks | dbus/dbus-dataslot.c:184-203 | set never makes the list shorter |
| DataSlotList.SetThenGet | dbus/dbus-dataslot.c:207-236 | after a successful set, get on that slot returns the new data; get on every other slot, and on every slot after a failed set, returns what it returned before |
| DataSlotList.SetTwice | dbus/dbus-dataslot.c:338-346 | setting one slot twice hands the first (data, free_data_func) back on the second call and stores the second pair |
| DataSlotList.SlotList.Set | dbus/dbus-dataslot.c:172-214 | realloc, the zero-fill loop and the swap produce exactly `SetStep` of the old entries, including the failure outcome; the allocator is only read |
| DataSlotList.SlotList.Get | dbus/dbus-dataslot.c:225-237 | for a live slot, get returns NULL beyond n_slots and the stored data otherwise; it reads only |
| DataSlotList.WithDestructorSpec | dbus/dbus-dataslot.c:252-255 | the indices with a destructor are strictly ascending, each of them carries a destructor, and every entry with a destructor is listed |
| DataSlotList.DestructorsInOrder | dbus/dbus-dataslot.c:251-259 | list free makes one call per entry that has a destructor, on that entry's own data, in ascending index order, and no other calls |
| DataSlotList.DestructorsOfEmpty | dbus/dbus-dataslot.c:254-255 | entries created by zero-filling have a NULL free function and cause no destructor call |
| DataSlotList.SlotList.Free | dbus/dbus-dataslot.c:246-264 | the walk returns exactly `Destructors` of the old entries, and the list ends empty with n_slots 0 |
| DataSlotTest.DestructorsOfTagged | dbus/dbus-dataslot.c:357-360 | freeing a list whose entry i is (i, test destructor) calls that destructor on 0, 1, ..., n-1 in order |
| DataSlotTest.TestFreeSlotData | dbus/dbus-dataslot.c:274-281 | the test destructor may only be called when free_counter equals its data, and it increments the counter |
| DataSlotTest.AllocAll | dbus/dbus-dataslot.c:302-313 | the allocation loop gets IDs 0..99 in numeric order |
| DataSlotTest.SetAllFirst | dbus/dbus-dataslot.c:315-332 | the first round of sets hands back (NULL, NULL) each time, and get then returns i |
| DataSlotTest.SetAllAgain | dbus/dbus-dataslot.c:334-355 | the second round hands back (i, test destructor); the caller runs it, and free_counter reaches 100 |
| DataSlotTest.RunTestDestructors | dbus/dbus-dataslot.c:274-281 | running the calls 0..99 through the test destructor satisfies its check every time and leaves free_counter at 100 |
| DataSlotTest.FreeAll | dbus/dbus-dataslot.c:362-367 | freeing IDs 0..99 in order returns the allocator to its empty initial state |
| DataSlotTest.DataSlotScenario | dbus/dbus-dataslot.c:286-370 | the whole test: every assertion holds, the destructor runs exactly 100 times during list free, and the allocator's table is released at the end |

## Left out

- Locking: `dbus_mutex_new`, `dbus_mutex_lock` and `dbus_mutex_unlock` are not modelled as a mutex. The model is sequential. Mutex creation is the `mutexCreated` flag of `Allocator.Init`, and a failed lock in alloc is the `lockFails` flag. Free ignores the result of `dbus_mutex_lock` (line 126), so `Allocator.Free` has no failure flag.
- Memory: `dbus_realloc` and `dbus_free` are modelled as `seq` operations plus a `growFails` flag. Pointers, byte sizes and the overflow of `sizeof (...) * n` are not modelled.
- Integer width: `slot`, `n_allocated_slots`, `n_used_slots` and `n_slots` are C `int`s. The model uses unbounded integers, because slot counts stay tiny.
- Destructors: C function pointers are not run. A destructor is an opaque ID, and each invocation is a recorded `Call`. A destructor that re-enters the list is therefore not modelled.
- DataSlotList.SlotList.Set: when growth fails, the C code leaves `*old_data` and `*old_free_func` untouched. The model returns (NULL, NULL) in that case.
- DataSlotTest.DataSlotScenario: the test's `_dbus_assert_not_reached` branches for init, alloc and set failures are not modelled. The scenario passes "no failure" for every environment flag.
- Unchecked C details: a negative `slot` passed to free, set or get is excluded by `requires 0 <= slot`. The C assertions do not check it, and indexing with it would be undefined behaviour.
- `glib/dbus-gutils.h` only declares `_dbus_gutils_split_path`, with no body, so it is not part of this model.
