/**
 * The slot-ID allocator of the D-Bus data-slot mechanism
 * (DBusDataSlotAllocator in dbus/dbus-dataslot.c).
 *
 * The allocator hands out small non-negative integer IDs. It keeps a table
 * `allocated_slots` of `n_allocated_slots` ints and a counter `n_used_slots`.
 * An entry in use holds its own index, a free entry holds -1. Allocation
 * reuses the lowest free entry first and otherwise grows the table by one;
 * freeing the last live ID releases the whole table.
 *
 * The pure part (Table, AllocStep, FreeStep and the lemmas about them) is
 * the specification; the class Allocator is the imperative model, whose
 * methods are proved to follow it.
 */
module DataSlotAllocator {

  /** The abstract value of an allocator: its three data fields. */
  datatype Table = Table(slots: seq<int>, nAllocated: int, nUsed: int)

  /** The state right after initialisation, and again after the last free. */
  const Fresh: Table := Table([], 0, 0)

  /** The sentinel a free entry holds. */
  const FreeEntry: int := -1

  /** Number of self-tagged entries (entries equal to their own index). */
  function UsedCount(s: seq<int>): nat
  {
    if s == [] then 0
    else UsedCount(s[..|s| - 1]) + (if s[|s| - 1] == |s| - 1 then 1 else 0)
  }

  /** The IDs that are currently live. */
  function LiveIds(t: Table): set<int>
  {
    set i | 0 <= i < |t.slots| && t.slots[i] == i
  }

  predicate IsLive(t: Table, slot: int)
  {
    0 <= slot < |t.slots| && t.slots[slot] == slot
  }

  /**
   * The bookkeeping invariant: the table has n_allocated entries, each is
   * its own index or the free sentinel, n_used counts the self-tagged ones,
   * and no table is kept once nothing is in use.
   */
  predicate Inv(t: Table)
  {
    && |t.slots| == t.nAllocated
    && (forall i :: 0 <= i < |t.slots| ==> t.slots[i] == i || t.slots[i] == FreeEntry)
    && t.nUsed == UsedCount(t.slots)
    && (t.nUsed == 0 ==> t.slots == [])
  }

  /** The IDs 0, 1, ..., n - 1 in order. */
  function Range(n: nat): (r: seq<int>)
    ensures |r| == n && forall i :: 0 <= i < n ==> r[i] == i
  {
    seq(n, i => i)
  }

  /**
   * Index of the first negative entry, or |s| if there is none: the
   * result of the first-fit scan.
   */
  function FirstFree(s: seq<int>): (r: nat)
    ensures r <= |s|
    ensures forall j :: 0 <= j < r ==> s[j] >= 0
    ensures r < |s| ==> s[r] < 0
  {
    if s == [] then 0
    else if s[0] < 0 then 0
    else 1 + FirstFree(s[1..])
  }

  /** What an alloc call yields: the new table and the returned ID (-1 on failure). */
  datatype AllocOutcome = AllocOutcome(table: Table, slot: int)

  /**
   * One call of _dbus_data_slot_allocator_alloc. `lockFails` stands for
   * dbus_mutex_lock returning FALSE, `growFails` for dbus_realloc
   * returning NULL.
   */
  function AllocStep(t: Table, lockFails: bool, growFails: bool): AllocOutcome
    requires Inv(t)
  {
    if lockFails then AllocOutcome(t, -1)
    else if t.nUsed < t.nAllocated then
      FreeEntryExists(t);
      var slot := FirstFree(t.slots);
      AllocOutcome(t.(slots := t.slots[slot := slot], nUsed := t.nUsed + 1), slot)
    else if growFails then AllocOutcome(t, -1)
    else
      var slot := t.nAllocated;
      AllocOutcome(Table(t.slots + [slot], t.nAllocated + 1, t.nUsed + 1), slot)
  }

  /** One call of _dbus_data_slot_allocator_free on a live ID. */
  function FreeStep(t: Table, slot: int): Table
    requires Inv(t) && IsLive(t, slot)
  {
    var u := t.(slots := t.slots[slot := FreeEntry], nUsed := t.nUsed - 1);
    if u.nUsed == 0 then Fresh else u
  }

  // ---------------------------------------------------------------------
  // Facts about UsedCount

  lemma {:induction false} UsedCountBound(s: seq<int>)
    ensures UsedCount(s) <= |s|
  {
    if s != [] {
      UsedCountBound(s[..|s| - 1]);
    }
  }

  /** Changing one entry changes the count by whether it was and is self-tagged. */
  lemma {:induction false} UsedCountUpdate(s: seq<int>, i: int, v: int)
    requires 0 <= i < |s|
    ensures UsedCount(s[i := v]) ==
            UsedCount(s) - (if s[i] == i then 1 else 0) + (if v == i then 1 else 0)
  {
    var n := |s| - 1;
    var s' := s[i := v];
    assert s'[..n] == if i < n then s[..n][i := v] else s[..n];
    if i < n {
      UsedCountUpdate(s[..n], i, v);
    }
  }

  /** If every entry is self-tagged, every entry counts. */
  lemma {:induction false} AllSelfTagged(s: seq<int>)
    requires forall i :: 0 <= i < |s| ==> s[i] == i
    ensures UsedCount(s) == |s|
  {
    if s != [] {
      AllSelfTagged(s[..|s| - 1]);
    }
  }

  /** The count of self-tagged entries is the size of the live set. */
  lemma {:induction false} UsedCountIsLiveIds(s: seq<int>)
    ensures UsedCount(s) == |LiveIds(Table(s, |s|, 0))|
  {
    if s == [] {
      assert LiveIds(Table(s, 0, 0)) == {};
    } else {
      var n := |s| - 1;
      UsedCountIsLiveIds(s[..n]);
      var prefix := LiveIds(Table(s[..n], n, 0));
      var all := LiveIds(Table(s, |s|, 0));
      if s[n] == n {
        assert all == prefix + {n};
      } else {
        assert all == prefix;
      }
    }
  }

  /**
   * Under the invariant, n_used < n_allocated means the first-fit scan
   * finds a free entry (the assertion at line 85 holds).
   */
  lemma FreeEntryExists(t: Table)
    requires Inv(t) && t.nUsed < t.nAllocated
    ensures FirstFree(t.slots) < |t.slots|
  {
    if FirstFree(t.slots) == |t.slots| {
      AllSelfTagged(t.slots);
    }
  }

  // ---------------------------------------------------------------------
  // The invariant

  /** After init the table is empty and both counters are 0, and the invariant holds. */
  lemma FreshIsEmpty()
    ensures Inv(Fresh) && Fresh.slots == [] && Fresh.nAllocated == 0 && Fresh.nUsed == 0
    ensures LiveIds(Fresh) == {}
  {
  }

  /** n_used never exceeds n_allocated. */
  lemma UsedBounded(t: Table)
    requires Inv(t)
    ensures 0 <= t.nUsed <= t.nAllocated
    ensures t.nUsed == |LiveIds(t)|
  {
    UsedCountBound(t.slots);
    UsedCountIsLiveIds(t.slots);
    assert LiveIds(t) == LiveIds(Table(t.slots, |t.slots|, 0));
  }

  lemma AllocPreservesInv(t: Table, lockFails: bool, growFails: bool)
    requires Inv(t)
    ensures Inv(AllocStep(t, lockFails, growFails).table)
  {
    if lockFails {
    } else if t.nUsed < t.nAllocated {
      FreeEntryExists(t);
      TagPreservesInv(t, FirstFree(t.slots));
    } else if !growFails {
      AppendPreservesInv(t);
    }
  }

  /** Appending a self-tagged entry and incrementing both counters keeps the invariant. */
  lemma AppendPreservesInv(t: Table)
    requires Inv(t)
    ensures Inv(Table(t.slots + [t.nAllocated], t.nAllocated + 1, t.nUsed + 1))
  {
    var s := t.slots + [t.nAllocated];
    assert s[..|s| - 1] == t.slots;
    assert UsedCount(s) == t.nUsed + 1;
  }

  /** Tagging a free entry with its index keeps the invariant. */
  lemma TagPreservesInv(t: Table, slot: nat)
    requires Inv(t) && slot < |t.slots| && t.slots[slot] == FreeEntry
    ensures Inv(t.(slots := t.slots[slot := slot], nUsed := t.nUsed + 1))
  {
    UsedCountUpdate(t.slots, slot, slot);
  }

  lemma FreePreservesInv(t: Table, slot: int)
    requires Inv(t) && IsLive(t, slot)
    ensures Inv(FreeStep(t, slot))
  {
    UsedCountUpdate(t.slots, slot, FreeEntry);
  }

  // ---------------------------------------------------------------------
  // alloc

  /** alloc returns -1 exactly when the lock or the growth fails, and then changes nothing. */
  lemma AllocFailure(t: Table, lockFails: bool, growFails: bool)
    requires Inv(t)
    ensures var r := AllocStep(t, lockFails, growFails);
      && (r.slot < 0 <==> lockFails || (t.nUsed == t.nAllocated && growFails))
      && (r.slot < 0 ==> r.slot == -1 && r.table == t)
  {
    UsedBounded(t);
    if !lockFails && t.nUsed < t.nAllocated {
      FreeEntryExists(t);
    }
  }

  /**
   * A successful alloc returns an ID that was not live, lies inside the
   * table and is self-tagged; the live set gains exactly that ID.
   */
  lemma AllocSuccess(t: Table, lockFails: bool, growFails: bool)
    requires Inv(t)
    ensures var r := AllocStep(t, lockFails, growFails);
      r.slot >= 0 ==>
        && 0 <= r.slot < r.table.nAllocated
        && r.table.slots[r.slot] == r.slot
        && r.slot !in LiveIds(t)
        && LiveIds(r.table) == LiveIds(t) + {r.slot}
        && r.table.nUsed == t.nUsed + 1
  {
    var r := AllocStep(t, lockFails, growFails);
    if !lockFails && t.nUsed < t.nAllocated {
      FreeEntryExists(t);
      assert LiveIds(r.table) == LiveIds(t) + {r.slot};
    } else if !lockFails && !growFails {
      assert LiveIds(r.table) == LiveIds(t) + {r.slot};
    }
  }

  /**
   * When a free entry exists, alloc takes the lowest negative entry, tags
   * it with its index and changes nothing else.
   */
  lemma AllocFirstFit(t: Table, growFails: bool)
    requires Inv(t) && t.nUsed < t.nAllocated
    ensures var r := AllocStep(t, false, growFails);
      && 0 <= r.slot < |t.slots|
      && t.slots[r.slot] < 0
      && (forall j :: 0 <= j < r.slot ==> t.slots[j] >= 0)
      && r.table.slots == t.slots[r.slot := r.slot]
      && r.table.nAllocated == t.nAllocated
      && r.table.nUsed == t.nUsed + 1
  {
    FreeEntryExists(t);
  }

  /** An entry that is not self-tagged leaves the count below the table length. */
  lemma {:induction false} HoleMeansBelow(s: seq<int>, i: int)
    requires 0 <= i < |s| && s[i] != i
    ensures UsedCount(s) < |s|
  {
    var n := |s| - 1;
    UsedCountBound(s[..n]);
    if i < n {
      assert s[..n][i] == s[i];
      HoleMeansBelow(s[..n], i);
    }
  }

  /**
   * Under the invariant, a free entry exists exactly when n_used < n_allocated:
   * the counter test of line 71 is the same as "some entry is free".
   */
  lemma FreeEntryIffBelow(t: Table)
    requires Inv(t)
    ensures (exists i :: 0 <= i < |t.slots| && t.slots[i] < 0) <==> t.nUsed < t.nAllocated
  {
    if exists i :: 0 <= i < |t.slots| && t.slots[i] < 0 {
      var i :| 0 <= i < |t.slots| && t.slots[i] < 0;
      HoleMeansBelow(t.slots, i);
    }
    if t.nUsed < t.nAllocated {
      FreeEntryExists(t);
      assert t.slots[FirstFree(t.slots)] < 0;
    }
  }

  /**
   * First-fit reuse: while any entry `hole` is free, alloc never grows the
   * table; it returns the lowest free index (at most `hole`) and tags it.
   */
  lemma AllocReusesFreeEntry(t: Table, growFails: bool, hole: int)
    requires Inv(t) && 0 <= hole < |t.slots| && t.slots[hole] < 0
    ensures var r := AllocStep(t, false, growFails);
      && 0 <= r.slot <= hole
      && t.slots[r.slot] < 0
      && (forall j :: 0 <= j < r.slot ==> t.slots[j] >= 0)
      && r.table.slots == t.slots[r.slot := r.slot]
      && r.table.nAllocated == t.nAllocated
      && r.table.nUsed == t.nUsed + 1
  {
    HoleMeansBelow(t.slots, hole);
    AllocFirstFit(t, growFails);
  }

  /**
   * When no entry is free, a successful alloc grows the table by exactly
   * one self-tagged entry and returns the old n_allocated.
   */
  lemma AllocGrows(t: Table)
    requires Inv(t) && t.nUsed >= t.nAllocated
    ensures var r := AllocStep(t, false, false);
      && r.slot == t.nAllocated
      && r.table.slots == t.slots + [t.nAllocated]
      && r.table.nAllocated == t.nAllocated + 1
      && r.table.nUsed == t.nUsed + 1
  {
  }

  // ---------------------------------------------------------------------
  // free

  /**
   * free marks the entry free and decrements n_used; when the count
   * reaches zero the table is released, otherwise its length is kept.
   */
  lemma FreeEffect(t: Table, slot: int)
    requires Inv(t) && IsLive(t, slot)
    ensures var u := FreeStep(t, slot);
      && u.nUsed == t.nUsed - 1
      && LiveIds(u) == LiveIds(t) - {slot}
      && (t.nUsed == 1 ==> u == Fresh)
      && (t.nUsed != 1 ==> u.slots == t.slots[slot := FreeEntry] && u.nAllocated == t.nAllocated)
  {
    var u := FreeStep(t, slot);
    UsedCountUpdate(t.slots, slot, FreeEntry);
    if t.nUsed == 1 {
      UsedBounded(t);
      UsedBounded(u);
      assert LiveIds(t) == {slot} by {
        assert slot in LiveIds(t);
        if exists k :: k in LiveIds(t) && k != slot {
          var k :| k in LiveIds(t) && k != slot;
          assert {slot, k} <= LiveIds(t);
          assert |{slot, k}| == 2;
          SubsetCard({slot, k}, LiveIds(t));
        }
      }
    } else {
      assert LiveIds(u) == LiveIds(t) - {slot};
    }
  }

  lemma SubsetCard(a: set<int>, b: set<int>)
    requires a <= b
    ensures |a| <= |b|
  {
    assert b == a + (b - a);
  }

  /** Once the last live ID is freed, numbering restarts: the next alloc returns 0. */
  lemma RestartAtZero(t: Table, slot: int)
    requires Inv(t) && IsLive(t, slot) && t.nUsed == 1
    ensures FreeStep(t, slot) == Fresh
    ensures AllocStep(FreeStep(t, slot), false, false).slot == 0
  {
    FreeEffect(t, slot);
  }

  // ---------------------------------------------------------------------
  // Sequences of allocs

  /** n allocs that neither lock nor grow fails: the final table and the IDs returned. */
  function AllocMany(t: Table, n: nat): (r: (Table, seq<int>))
    requires Inv(t)
    ensures Inv(r.0) && |r.1| == n
    decreases n
  {
    if n == 0 then (t, [])
    else
      var prev := AllocMany(t, n - 1);
      var step := AllocStep(prev.0, false, false);
      AllocPreservesInv(prev.0, false, false);
      (step.table, prev.1 + [step.slot])
  }

  /** From a fresh allocator with no frees, the k-th alloc returns k - 1. */
  lemma {:induction false} FreshAllocsInOrder(n: nat)
    ensures AllocMany(Fresh, n) == (Table(Range(n), n, n), Range(n))
  {
    if n > 0 {
      FreshAllocsInOrder(n - 1);
      var t := Table(Range(n - 1), n - 1, n - 1);
      AllocGrows(t);
      assert Range(n - 1) + [n - 1] == Range(n);
    }
  }

  // ---------------------------------------------------------------------
  // The imperative allocator

  class Allocator {
    var allocatedSlots: seq<int>
    var nAllocatedSlots: int
    var nUsedSlots: int
    /** Whether dbus_mutex_new produced a lock. */
    var hasLock: bool

    function Model(): Table
      reads this
    {
      Table(allocatedSlots, nAllocatedSlots, nUsedSlots)
    }

    ghost predicate Valid()
      reads this
    {
      Inv(Model())
    }

    /**
     * _dbus_data_slot_allocator_init: an empty table. It succeeds (returns
     * TRUE) exactly when the lock could be created, which is `hasLock`.
     */
    constructor Init(mutexCreated: bool)
      ensures Valid() && Model() == Fresh
      ensures hasLock == mutexCreated
    {
      allocatedSlots := [];
      nAllocatedSlots := 0;
      nUsedSlots := 0;
      hasLock := mutexCreated;
    }

    /** _dbus_data_slot_allocator_alloc. */
    method Alloc(lockFails: bool, growFails: bool) returns (slot: int)
      requires Valid()
      modifies this
      ensures Valid() && hasLock == old(hasLock)
      ensures AllocOutcome(Model(), slot) == AllocStep(old(Model()), lockFails, growFails)
      ensures slot == -1 || (0 <= slot < nAllocatedSlots && allocatedSlots[slot] == slot)
    {
      ghost var t := Model();
      AllocPreservesInv(t, lockFails, growFails);
      if lockFails {
        return -1;
      }
      if nUsedSlots < nAllocatedSlots {
        slot := 0;
        while slot < nAllocatedSlots
          invariant 0 <= slot <= nAllocatedSlots
          invariant forall j :: 0 <= j < slot ==> allocatedSlots[j] >= 0
          invariant Model() == t
        {
          if allocatedSlots[slot] < 0 {
            allocatedSlots := allocatedSlots[slot := slot];
            nUsedSlots := nUsedSlots + 1;
            break;
          }
          slot := slot + 1;
        }
        FreeEntryExists(t);
        assert slot < nAllocatedSlots;
        assert slot == FirstFree(t.slots);
      } else {
        slot := -1;
        if growFails {
          return;
        }
        // dbus_realloc keeps the old entries; the new last one is undefined.
        var tmp: seq<int> :| |tmp| == nAllocatedSlots + 1 && tmp[..nAllocatedSlots] == allocatedSlots
          by {
            var w := allocatedSlots + [0];
            assert |w| == nAllocatedSlots + 1 && w[..nAllocatedSlots] == allocatedSlots;
          }
        allocatedSlots := tmp;
        slot := nAllocatedSlots;
        nAllocatedSlots := nAllocatedSlots + 1;
        nUsedSlots := nUsedSlots + 1;
        allocatedSlots := allocatedSlots[slot := slot];
        assert allocatedSlots == t.slots + [slot];
      }
    }

    /** _dbus_data_slot_allocator_free; the caller must own the live ID `slot`. */
    method Free(slot: int)
      requires Valid()
      requires 0 <= slot < nAllocatedSlots && allocatedSlots[slot] == slot
      modifies this
      ensures Valid() && hasLock == old(hasLock)
      ensures Model() == FreeStep(old(Model()), slot)
    {
      FreePreservesInv(Model(), slot);
      allocatedSlots := allocatedSlots[slot := FreeEntry];
      nUsedSlots := nUsedSlots - 1;
      if nUsedSlots == 0 {
        allocatedSlots := [];
        nAllocatedSlots := 0;
      }
    }
  }
}
