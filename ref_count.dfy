/**
 * The shared/weak reference-count block behind `shared_ptr` and
 * `weak_ptr` (`sp_counted_base`, Windows interlocked flavour).
 *
 * The interlocked increments, decrements and compare-exchanges become
 * plain sequential updates. `dispose()` and `destroy()` are virtual
 * calls whose effect is not visible here; they are recorded as ghost
 * events so that their order and number can be stated.
 */
module RefCount {

  /** The two virtual calls the counter makes on itself. */
  datatype Event = Dispose | Destroy

  class SpCountedBase {
    /** `use_count_`: the number of shared owners. */
    var useCount: int
    /** `weak_count_`: the number of weak owners, plus one while any shared owner remains. */
    var weakCount: int
    /** The number of `weak_ptr`s that refer to this block. */
    ghost var weakHolders: nat
    /** The `dispose()` and `destroy()` calls made so far, in order. */
    ghost var events: seq<Event>

    /**
     * The "#weak + (#shared != 0)" formulation: the weak count is the
     * number of weak owners plus one for the shared owners as a group.
     * `dispose()` has run exactly when the shared count is zero, and
     * `destroy()` exactly when the weak count is zero as well.
     */
    ghost predicate Valid()
      reads this
    {
      && useCount >= 0
      && weakCount == weakHolders + (if useCount != 0 then 1 else 0)
      && events == (if useCount != 0 then []
                    else if weakCount != 0 then [Dispose]
                    else [Dispose, Destroy])
    }

    /** A new count block has one shared owner (its creator) and no weak one. */
    constructor ()
      ensures Valid()
      ensures useCount == 1 && weakCount == 1
      ensures weakHolders == 0 && events == []
    {
      useCount := 1;
      weakCount := 1;
      weakHolders := 0;
      events := [];
    }

    /** A shared owner is copied: one more shared owner. */
    method AddRefCopy()
      requires Valid() && useCount >= 1
      modifies this
      ensures Valid()
      ensures useCount == old(useCount) + 1
      ensures weakCount == old(weakCount) && weakHolders == old(weakHolders)
      ensures events == old(events)
    {
      useCount := useCount + 1;
    }

    /**
     * A weak owner tries to become a shared one (`weak_ptr::lock`).
     * Without interference the compare-exchange succeeds at the first
     * attempt, so the retry loop runs once.
     */
    method AddRefLock() returns (ok: bool)
      requires Valid() && weakHolders >= 1
      modifies this
      ensures Valid()
      ensures ok <==> old(useCount) != 0
      ensures useCount == if ok then old(useCount) + 1 else old(useCount)
      ensures weakCount == old(weakCount) && weakHolders == old(weakHolders)
      ensures events == old(events)
    {
      var tmp := useCount;
      if tmp == 0 {
        return false;
      }
      useCount := tmp + 1;
      return true;
    }

    /**
     * A shared owner goes away. The last one disposes of the managed
     * object and then gives up the weak reference the shared owners held.
     */
    method Release()
      requires Valid() && useCount >= 1
      modifies this
      ensures Valid()
      ensures useCount == old(useCount) - 1
      ensures weakHolders == old(weakHolders)
      ensures old(useCount) == 1 ==> weakCount == old(weakCount) - 1
      ensures old(useCount) > 1 ==> weakCount == old(weakCount)
      ensures events == old(events) + (if old(useCount) > 1 then []
                                       else if weakHolders > 0 then [Dispose]
                                       else [Dispose, Destroy])
    {
      useCount := useCount - 1;
      if useCount == 0 {
        events := events + [Dispose];
        DecrementWeak();
      }
    }

    /** A weak owner is copied or made from a shared owner. */
    method WeakAddRef()
      requires Valid() && (useCount >= 1 || weakHolders >= 1)
      modifies this
      ensures Valid()
      ensures weakCount == old(weakCount) + 1 && weakHolders == old(weakHolders) + 1
      ensures useCount == old(useCount) && events == old(events)
    {
      weakCount := weakCount + 1;
      weakHolders := weakHolders + 1;
    }

    /** A weak owner goes away (`weak_release()` called from `weak_ptr`). */
    method WeakRelease()
      requires Valid() && weakHolders >= 1
      modifies this
      ensures Valid()
      ensures weakCount == old(weakCount) - 1 && weakHolders == old(weakHolders) - 1
      ensures useCount == old(useCount)
      ensures events == old(events) + (if weakCount == 0 then [Destroy] else [])
    {
      weakHolders := weakHolders - 1;
      DecrementWeak();
    }

    /**
     * The body of `weak_release()`: one less weak reference, and
     * `destroy()` when none is left. Its caller has already given up the
     * reference it held, so the invariant is restored here.
     */
    method DecrementWeak()
      requires useCount >= 0 && weakCount >= 1
      requires weakCount - 1 == weakHolders + (if useCount != 0 then 1 else 0)
      requires useCount == 0 ==> events == [Dispose]
      requires useCount != 0 ==> events == []
      modifies this
      ensures Valid()
      ensures weakCount == old(weakCount) - 1
      ensures useCount == old(useCount) && weakHolders == old(weakHolders)
      ensures events == old(events) + (if weakCount == 0 then [Destroy] else [])
    {
      weakCount := weakCount - 1;
      if weakCount == 0 {
        events := events + [Destroy];
      }
    }

    /** The current number of shared owners. */
    function UseCount(): (n: int)
      reads this
      requires Valid()
      ensures n >= 0
      ensures n == 0 <==> Dispose in events
    {
      useCount
    }
  }
}
