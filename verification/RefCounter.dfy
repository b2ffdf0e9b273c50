/**
  The shared reference counter of a group of smart pointers. Each method body runs under the
  counter's mutex in the original, so each is one atomic step; the functions are those steps on
  values, and the class is the counter object itself.
 */
module RefCounter {

  /** Returned by SubtractActiveRef when both the object and the counter are to be deleted. */
  const DELETE_REF_COUNTER := 22

  datatype Count = Count(active: nat, inactive: nat)

  predicate IsActive(c: Count) {
    c.active > 0
  }

  predicate ShouldBeDeleted(c: Count) {
    c.active == 0 && c.inactive == 0
  }

  function AddActive(c: Count): (Count, bool) {
    if IsActive(c) then (c.(active := c.active + 1), true) else (c, false)
  }

  function AddInactive(c: Count): (Count, bool) {
    if IsActive(c) then (c.(inactive := c.inactive + 1), true) else (c, false)
  }

  function SubtractActive(c: Count): (Count, int)
    requires c.active > 0
  {
    var c' := c.(active := c.active - 1);
    (c', if ShouldBeDeleted(c') then DELETE_REF_COUNTER else if c'.active == 0 then -1 else 0)
  }

  function SubtractInactive(c: Count): (Count, bool)
    requires c.inactive > 0
  {
    var c' := c.(inactive := c.inactive - 1);
    (c', !ShouldBeDeleted(c'))
  }

  class PtrRefCounter {
    var activeCount: nat
    var inactiveCount: nat

    function Value(): Count
      reads this
    {
      Count(activeCount, inactiveCount)
    }

    constructor ()
      ensures Value() == Count(1, 0)
    {
      activeCount, inactiveCount := 1, 0;
    }

    /** Refused exactly when the object is already dead, so a dead count never rises. */
    method AddActiveRef() returns (active: bool)
      modifies this
      ensures (Value(), active) == AddActive(old(Value()))
      ensures active <==> old(activeCount) > 0
    {
      active := false;
      if activeCount > 0 {
        activeCount := activeCount + 1;
        active := true;
      }
    }

    method AddInactiveRef() returns (active: bool)
      modifies this
      ensures (Value(), active) == AddInactive(old(Value()))
      ensures active <==> old(activeCount) > 0
    {
      active := false;
      if activeCount > 0 {
        inactiveCount := inactiveCount + 1;
        active := true;
      }
    }

    /** Non-zero exactly for the last active reference. */
    method SubtractActiveRef() returns (code: int)
      requires activeCount > 0
      modifies this
      ensures (Value(), code) == SubtractActive(old(Value()))
      ensures code != 0 <==> activeCount == 0
      ensures code == DELETE_REF_COUNTER <==> activeCount == 0 && inactiveCount == 0
    {
      code := 0;
      activeCount := activeCount - 1;
      if activeCount == 0 && inactiveCount == 0 {
        code := DELETE_REF_COUNTER;
      } else if activeCount == 0 {
        code := -1;
      }
    }

    /** False exactly for the last reference of all. */
    method SubtractInactiveRef() returns (keep: bool)
      requires inactiveCount > 0
      modifies this
      ensures (Value(), keep) == SubtractInactive(old(Value()))
      ensures !keep <==> activeCount == 0 && inactiveCount == 0
    {
      inactiveCount := inactiveCount - 1;
      keep := !(activeCount == 0 && inactiveCount == 0);
    }
  }
}
