/**
 * The per-object slot list of the D-Bus data-slot mechanism
 * (DBusDataSlotList in dbus/dbus-dataslot.c).
 *
 * A slot list is a sparse array of (data, free_data_func) pairs indexed by
 * slot IDs drawn from a DBusDataSlotAllocator. `set` grows it lazily to
 * exactly slot + 1 entries and hands the previous pair back to the caller
 * without running its destructor; list `free` runs every present
 * destructor once, in ascending index order, and empties the list.
 *
 * Pointers are modelled as integers with NULL = 0, and destructors as
 * opaque IDs; "calling" a destructor appends a Call to a trace.
 */
module DataSlotList {
  import opened DataSlotAllocator

  /** An opaque data pointer (`void *`); 0 is NULL. */
  type Pointer = int

  const NULL: Pointer := 0

  /** A DBusFreeFunction: either NULL or some destructor, named by an ID. */
  datatype FreeFunction = NoFunction | Destructor(id: nat)

  /** One entry of the list (DBusDataSlot). */
  datatype Slot = Slot(data: Pointer, freeDataFunc: FreeFunction)

  /** A zero-filled entry, as written for every entry the list grows into. */
  const EmptySlot: Slot := Slot(NULL, NoFunction)

  /** One destructor invocation: `func(data)`. */
  datatype Call = Call(func: nat, data: Pointer)

  /** What _dbus_data_slot_list_get returns for `slot` on entries `s`. */
  function Lookup(s: seq<Slot>, slot: nat): Pointer
  {
    if slot >= |s| then NULL else s[slot].data
  }

  /** `s` extended with zero-filled entries up to length n. */
  function Grow(s: seq<Slot>, n: nat): (r: seq<Slot>)
    requires |s| <= n
  {
    s + seq(n - |s|, _ => EmptySlot)
  }

  /**
   * What _dbus_data_slot_list_set yields: whether it succeeded, the new
   * entries, and the previous (data, free_data_func) at the slot.
   */
  datatype SetOutcome = SetOutcome(ok: bool, slots: seq<Slot>, oldData: Pointer, oldFreeFunc: FreeFunction)

  /**
   * One call of _dbus_data_slot_list_set on entries `s`; `growFails`
   * stands for dbus_realloc returning NULL.
   */
  function SetStep(s: seq<Slot>, slot: nat, data: Pointer, freeDataFunc: FreeFunction, growFails: bool): SetOutcome
  {
    if slot >= |s| && growFails then SetOutcome(false, s, NULL, NoFunction)
    else
      var g := if slot >= |s| then Grow(s, slot + 1) else s;
      SetOutcome(true, g[slot := Slot(data, freeDataFunc)], g[slot].data, g[slot].freeDataFunc)
  }

  /** The destructor call an entry causes when the list is freed (none if its function is NULL). */
  function CallOf(e: Slot): seq<Call>
  {
    match e.freeDataFunc
    case NoFunction => []
    case Destructor(f) => [Call(f, e.data)]
  }

  /** The calls _dbus_data_slot_list_free makes on entries `s`, in order. */
  function Destructors(s: seq<Slot>): seq<Call>
  {
    if s == [] then [] else Destructors(s[..|s| - 1]) + CallOf(s[|s| - 1])
  }

  /** The indices of the entries that carry a destructor, ascending (a reference definition). */
  function WithDestructor(s: seq<Slot>): seq<nat>
  {
    if s == [] then []
    else WithDestructor(s[..|s| - 1]) + (if s[|s| - 1].freeDataFunc.Destructor? then [|s| - 1] else [])
  }

  /** The call the entry at index i makes. */
  function CallAt(s: seq<Slot>, i: nat): Call
    requires i < |s| && s[i].freeDataFunc.Destructor?
  {
    CallOf(s[i])[0]
  }

  // ---------------------------------------------------------------------
  // set

  /** A failed set leaves the list exactly as it was; set fails only when it must grow. */
  lemma SetFailure(s: seq<Slot>, slot: nat, data: Pointer, f: FreeFunction, growFails: bool)
    ensures var r := SetStep(s, slot, data, f, growFails);
      && (!r.ok <==> slot >= |s| && growFails)
      && (!r.ok ==> r.slots == s)
  {
  }

  /**
   * When the slot lies beyond the end, a successful set grows the list to
   * exactly slot + 1 entries: old entries kept, new ones zero-filled except
   * the one just stored, and the previous pair handed back is (NULL, NULL).
   */
  lemma SetGrowsExactly(s: seq<Slot>, slot: nat, data: Pointer, f: FreeFunction)
    requires slot >= |s|
    ensures var r := SetStep(s, slot, data, f, false);
      && r.ok
      && |r.slots| == slot + 1
      && r.slots[..|s|] == s
      && (forall j :: |s| <= j < slot ==> r.slots[j] == EmptySlot)
      && r.slots[slot] == Slot(data, f)
      && r.oldData == NULL && r.oldFreeFunc == NoFunction
  {
    var r := SetStep(s, slot, data, f, false);
    assert r.slots[..|s|] == s;
  }

  /**
   * A successful set swaps the pair at `slot`: it returns the previous pair,
   * stores the new one and leaves every other entry as it was (entries that
   * did not exist before read as zero-filled). The list never shrinks.
   */
  lemma SetSwaps(s: seq<Slot>, slot: nat, data: Pointer, f: FreeFunction, growFails: bool)
    ensures var r := SetStep(s, slot, data, f, growFails);
      r.ok ==>
        && |r.slots| == (if slot < |s| then |s| else slot + 1)
        && r.slots[slot] == Slot(data, f)
        && (slot < |s| ==> r.oldData == s[slot].data && r.oldFreeFunc == s[slot].freeDataFunc)
        && (forall j :: 0 <= j < |s| && j != slot ==> r.slots[j] == s[j])
        && (forall j :: |s| <= j < |r.slots| && j != slot ==> r.slots[j] == EmptySlot)
  {
  }

  /** Set never shrinks the list. */
  lemma SetNeverShrinks(s: seq<Slot>, slot: nat, data: Pointer, f: FreeFunction, growFails: bool)
    ensures |SetStep(s, slot, data, f, growFails).slots| >= |s|
  {
  }

  /**
   * As seen through get, a set changes only its own slot: afterwards get on
   * `slot` returns the new data, and get on every other slot returns what
   * it returned before. A failed set changes nothing.
   */
  lemma SetThenGet(s: seq<Slot>, slot: nat, data: Pointer, f: FreeFunction, growFails: bool, other: nat)
    ensures var r := SetStep(s, slot, data, f, growFails);
      && (r.ok ==> Lookup(r.slots, slot) == data)
      && (other != slot || !r.ok ==> Lookup(r.slots, other) == Lookup(s, other))
  {
  }

  /**
   * Ownership handoff: setting the same slot twice hands the first pair
   * back on the second call.
   */
  lemma SetTwice(s: seq<Slot>, slot: nat, a: Pointer, fa: FreeFunction, b: Pointer, fb: FreeFunction)
    ensures var r1 := SetStep(s, slot, a, fa, false);
      var r2 := SetStep(r1.slots, slot, b, fb, false);
      r2.ok && r2.oldData == a && r2.oldFreeFunc == fa && r2.slots[slot] == Slot(b, fb)
  {
  }

  // ---------------------------------------------------------------------
  // free

  lemma {:induction false} WithDestructorSpec(s: seq<Slot>)
    ensures forall k :: 0 <= k < |WithDestructor(s)| ==>
      WithDestructor(s)[k] < |s| && s[WithDestructor(s)[k]].freeDataFunc.Destructor?
    ensures forall k, m :: 0 <= k < m < |WithDestructor(s)| ==> WithDestructor(s)[k] < WithDestructor(s)[m]
    ensures forall i :: 0 <= i < |s| && s[i].freeDataFunc.Destructor? ==> i in WithDestructor(s)
  {
    if s != [] {
      var n := |s| - 1;
      WithDestructorSpec(s[..n]);
      assert forall i :: 0 <= i < n ==> s[..n][i] == s[i];
    }
  }

  /**
   * Destroy completeness: list free makes one call per entry that carries
   * a destructor, each on that entry's own data, in ascending index order,
   * and no other calls.
   */
  lemma {:induction false} DestructorsInOrder(s: seq<Slot>)
    ensures |Destructors(s)| == |WithDestructor(s)|
    ensures forall k :: 0 <= k < |Destructors(s)| ==>
      WithDestructor(s)[k] < |s| && s[WithDestructor(s)[k]].freeDataFunc.Destructor? &&
      Destructors(s)[k] == CallAt(s, WithDestructor(s)[k])
  {
    WithDestructorSpec(s);
    if s != [] {
      var n := |s| - 1;
      DestructorsInOrder(s[..n]);
      WithDestructorSpec(s[..n]);
      assert forall i :: 0 <= i < n ==> s[..n][i] == s[i];
    }
  }

  /** Entries whose free function is NULL cause no call. */
  lemma {:induction false} DestructorsOfEmpty(n: nat)
    ensures Destructors(seq(n, _ => EmptySlot)) == []
  {
    if n > 0 {
      var s := seq(n, _ => EmptySlot);
      assert s[..n - 1] == seq(n - 1, _ => EmptySlot);
      DestructorsOfEmpty(n - 1);
    }
  }

  // ---------------------------------------------------------------------
  // The imperative slot list

  class SlotList {
    var slots: seq<Slot>
    var nSlots: int

    ghost predicate Valid()
      reads this
    {
      nSlots == |slots|
    }

    /** _dbus_data_slot_list_init: no entries, nothing allocated. */
    constructor Init()
      ensures Valid() && slots == []
    {
      slots := [];
      nSlots := 0;
    }

    /**
     * _dbus_data_slot_list_set. `slot` must be live in `allocator`; the
     * allocator is only read. On failure (`growFails` when the list must
     * grow) nothing changes and the returned pair is (NULL, NULL).
     */
    method Set(allocator: Allocator, slot: int, data: Pointer, freeDataFunc: FreeFunction, growFails: bool)
      returns (ok: bool, oldData: Pointer, oldFreeFunc: FreeFunction)
      requires Valid() && allocator.Valid()
      requires 0 <= slot < allocator.nAllocatedSlots && allocator.allocatedSlots[slot] == slot
      modifies this
      ensures Valid()
      ensures SetOutcome(ok, slots, oldData, oldFreeFunc) == SetStep(old(slots), slot, data, freeDataFunc, growFails)
    {
      if slot >= nSlots {
        if growFails {
          return false, NULL, NoFunction;
        }
        // dbus_realloc keeps the old entries; the new ones are undefined.
        var tmp: seq<Slot> :| |tmp| == slot + 1 && tmp[..nSlots] == slots
          by {
            var w := Grow(slots, slot + 1);
            assert |w| == slot + 1 && w[..nSlots] == slots;
          }
        slots := tmp;
        var i := nSlots;
        nSlots := slot + 1;
        while i < nSlots
          invariant old(nSlots) <= i <= nSlots == slot + 1 == |slots|
          invariant slots[..old(nSlots)] == old(slots)
          invariant forall j :: old(nSlots) <= j < i ==> slots[j] == EmptySlot
        {
          slots := slots[i := EmptySlot];
          i := i + 1;
        }
        assert slots == Grow(old(slots), slot + 1);
      }
      oldData := slots[slot].data;
      oldFreeFunc := slots[slot].freeDataFunc;
      slots := slots[slot := Slot(data, freeDataFunc)];
      ok := true;
    }

    /** _dbus_data_slot_list_get: read-only; NULL beyond the end of the list. */
    function Get(allocator: Allocator, slot: int): (data: Pointer)
      reads this, allocator
      requires Valid() && allocator.Valid()
      requires 0 <= slot < allocator.nAllocatedSlots && allocator.allocatedSlots[slot] == slot
      ensures slot >= nSlots ==> data == NULL
      ensures slot < nSlots ==> data == slots[slot].data
    {
      Lookup(slots, slot)
    }

    /**
     * _dbus_data_slot_list_free: runs every present destructor on its data
     * and returns the calls in the order made; the list is then empty.
     */
    method Free() returns (calls: seq<Call>)
      requires Valid()
      modifies this
      ensures Valid() && slots == [] && nSlots == 0
      ensures calls == Destructors(old(slots))
    {
      calls := [];
      var i := 0;
      while i < nSlots
        invariant 0 <= i <= nSlots == |slots| == |old(slots)|
        invariant slots[i..] == old(slots)[i..]
        invariant calls == Destructors(old(slots)[..i])
      {
        ghost var prefix := old(slots)[..i + 1];
        assert prefix[..i] == old(slots)[..i];
        calls := calls + CallOf(slots[i]);
        slots := slots[i := EmptySlot];
        i := i + 1;
        assert slots[i..] == old(slots)[i..];
      }
      assert old(slots)[..i] == old(slots);
      slots := [];
      nSlots := 0;
    }
  }
}
