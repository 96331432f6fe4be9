/**
 * The end-to-end scenario of _dbus_data_slot_test (dbus/dbus-dataslot.c):
 * allocate 100 IDs (expected in order 0..99), set each on one list with a
 * counting destructor, overwrite each and run the handed-back destructor,
 * free the list (the destructor must run 100 times, seeing 0..99 in
 * order), then free every ID. Every `_dbus_assert` of the test is an
 * `assert` here, proved from the contracts of the model, except the one in
 * test_free_slot_data_func, which is the `requires` of TestFreeSlotData and
 * is discharged at each call.
 */
module DataSlotTest {
  import opened DataSlotAllocator
  import opened DataSlotList

  const NSlots: nat := 100

  /** The ID of test_free_slot_data_func. */
  const TestFreeFuncId: nat := 1

  const TestFreeSlotDataFunc: FreeFunction := Destructor(TestFreeFuncId)

  /** A list whose entry j holds data j and the test destructor. */
  function Tagged(n: nat): (s: seq<Slot>)
    ensures |s| == n && forall j :: 0 <= j < n ==> s[j] == Slot(j, TestFreeSlotDataFunc)
  {
    seq(n, j => Slot(j, TestFreeSlotDataFunc))
  }

  /** Freeing such a list calls the test destructor on 0, 1, ..., n - 1 in order. */
  lemma {:induction false} DestructorsOfTagged(n: nat)
    ensures Destructors(Tagged(n)) == seq(n, j => Call(TestFreeFuncId, j))
  {
    if n > 0 {
      assert Tagged(n)[..n - 1] == Tagged(n - 1);
      DestructorsOfTagged(n - 1);
      assert seq(n - 1, j => Call(TestFreeFuncId, j)) + [Call(TestFreeFuncId, n - 1)]
          == seq(n, j => Call(TestFreeFuncId, j));
    }
  }

  /**
   * test_free_slot_data_func: the counter `free_counter` must equal the
   * data it is called on, and is then incremented.
   */
  method TestFreeSlotData(freeCounter: int, data: Pointer) returns (next: int)
    requires freeCounter == data
    ensures next == data + 1
  {
    next := freeCounter + 1;
  }

  /** The allocation loop of the test: from a fresh allocator, IDs come out as 0, 1, ..., 99. */
  method AllocAll(allocator: Allocator)
    requires allocator.Valid() && allocator.Model() == Fresh
    modifies allocator
    ensures allocator.Valid() && allocator.Model() == Table(Range(NSlots), NSlots, NSlots)
  {
    var i := 0;
    while i < NSlots
      invariant 0 <= i <= NSlots
      invariant allocator.Valid() && allocator.Model() == Table(Range(i), i, i)
    {
      AllocGrows(Table(Range(i), i, i));
      var slot := allocator.Alloc(false, false);
      assert slot == i;
      assert Range(i) + [i] == Range(i + 1);
      i := i + 1;
    }
  }

  /** The first round of sets: every previous pair is (NULL, NULL), and get sees the new data. */
  method SetAllFirst(allocator: Allocator, list: SlotList)
    requires allocator.Valid() && allocator.Model() == Table(Range(NSlots), NSlots, NSlots)
    requires list.Valid() && list.slots == []
    modifies list
    ensures list.Valid() && list.slots == Tagged(NSlots)
  {
    var i := 0;
    while i < NSlots
      invariant 0 <= i <= NSlots
      invariant list.Valid() && list.slots == Tagged(i)
    {
      var ok, oldData, oldFreeFunc := list.Set(allocator, i, i, TestFreeSlotDataFunc, false);
      assert ok;
      assert oldFreeFunc == NoFunction;
      assert oldData == NULL;
      assert list.Get(allocator, i) == i;
      assert list.slots == Tagged(i + 1);
      i := i + 1;
    }
  }

  /**
   * The second round of sets: each set hands back the pair the first round
   * stored, and the caller runs that destructor itself. Returns free_counter.
   */
  method SetAllAgain(allocator: Allocator, list: SlotList) returns (freeCounter: int)
    requires allocator.Valid() && allocator.Model() == Table(Range(NSlots), NSlots, NSlots)
    requires list.Valid() && list.slots == Tagged(NSlots)
    modifies list
    ensures list.Valid() && list.slots == Tagged(NSlots)
    ensures freeCounter == NSlots
  {
    freeCounter := 0;
    var i := 0;
    while i < NSlots
      invariant 0 <= i <= NSlots
      invariant list.Valid() && list.slots == Tagged(NSlots)
      invariant freeCounter == i
    {
      var ok, oldData, oldFreeFunc := list.Set(allocator, i, i, TestFreeSlotDataFunc, false);
      assert ok;
      assert oldFreeFunc == TestFreeSlotDataFunc;
      assert oldData == i;
      freeCounter := TestFreeSlotData(freeCounter, oldData);
      assert i == freeCounter - 1;
      assert list.Get(allocator, i) == i;
      assert list.slots == Tagged(NSlots);
      i := i + 1;
    }
  }

  /**
   * Runs the destructor calls a list free made, in order, each through
   * test_free_slot_data_func starting from free_counter = 0.
   */
  method RunTestDestructors(calls: seq<Call>) returns (freeCounter: int)
    requires calls == seq(NSlots, j => Call(TestFreeFuncId, j))
    ensures freeCounter == NSlots
  {
    freeCounter := 0;
    var k := 0;
    while k < |calls|
      invariant 0 <= k <= |calls|
      invariant freeCounter == k
    {
      assert calls[k].func == TestFreeFuncId;
      freeCounter := TestFreeSlotData(freeCounter, calls[k].data);
      k := k + 1;
    }
  }

  /** The final loop of the test: freeing IDs 0..99 in order releases the table. */
  method FreeAll(allocator: Allocator)
    requires allocator.Valid() && allocator.Model() == Table(Range(NSlots), NSlots, NSlots)
    modifies allocator
    ensures allocator.Valid() && allocator.Model() == Fresh
  {
    var i := 0;
    while i < NSlots
      invariant 0 <= i <= NSlots
      invariant allocator.Valid()
      invariant i < NSlots ==>
        allocator.Model() == Table(seq(NSlots, j => if j < i then FreeEntry else j), NSlots, NSlots - i)
      invariant i == NSlots ==> allocator.Model() == Fresh
    {
      ghost var before := seq(NSlots, j => if j < i then FreeEntry else j);
      allocator.Free(i);
      assert before[i := FreeEntry] == seq(NSlots, j => if j < i + 1 then FreeEntry else j);
      i := i + 1;
    }
  }

  /**
   * _dbus_data_slot_test with every allocation and growth succeeding.
   * Returns free_counter after the list is freed and whether the allocator
   * released its table at the end.
   */
  method DataSlotScenario() returns (freeCounter: int, released: bool)
    ensures freeCounter == NSlots
    ensures released
  {
    var allocator := new Allocator.Init(true);
    assert allocator.hasLock;
    var list := new SlotList.Init();

    AllocAll(allocator);
    SetAllFirst(allocator, list);
    freeCounter := SetAllAgain(allocator, list);

    // Freeing the list runs the destructor once per slot, in slot order.
    var calls := list.Free();
    DestructorsOfTagged(NSlots);
    freeCounter := RunTestDestructors(calls);
    assert NSlots == freeCounter;

    FreeAll(allocator);
    released := allocator.nAllocatedSlots == 0 && allocator.allocatedSlots == [];
  }
}
