/**
 * kern/src/util/once_lock.rs: a cell that is written once. A state word moves from UNINIT to
 * INITIALIZING (claimed by the one `init` that wins the compare-exchange) and then to INITED
 * (the value is written); `get` hands the value out only in INITED. Each call is modelled as
 * one atomic step, so INITIALIZING is never seen between calls.
 */
module OnceLocks {
  import opened Wrappers
  import opened Errors

  const UNINIT: nat := 0
  const INITIALIZING: nat := 1
  const INITED: nat := 2

  class OnceLock<T> {
    var state: nat
    var value: Option<T>

    /** Between calls the lock is either empty and UNINIT or holds its value and is INITED. */
    ghost predicate Valid()
      reads this
    {
      (state == UNINIT && value == None) || (state == INITED && value.Some?)
    }

    /** `OnceLock::new`: UNINIT, nothing stored. */
    constructor()
      ensures Valid() && state == UNINIT && value == None
    {
      state := UNINIT;
      value := None;
    }

    /**
     * `init`: only the call that finds the state UNINIT stores its value (passing through
     * INITIALIZING) and returns Ok; every later call is RepeatInitialization and changes nothing.
     */
    method Init(v: T) returns (r: Result<(), InternalError>)
      requires Valid()
      modifies this
      ensures Valid()
      ensures old(state) == UNINIT ==> r == Ok(()) && state == INITED && value == Some(v)
      ensures old(state) != UNINIT ==> r == Err(RepeatInitialization) && state == old(state) && value == old(value)
    {
      if state == UNINIT {
        state := INITIALIZING;
        value := Some(v);
        state := INITED;
        r := Ok(());
      } else {
        r := Err(RepeatInitialization);
      }
    }

    /** `get`: the stored value once INITED, None before. */
    function Get(): (r: Option<T>)
      requires Valid()
      reads this
      ensures r.Some? <==> state == INITED
      ensures r.Some? ==> r == value
    {
      if state == INITED then value else None
    }
  }

  /**
   * A fresh lock: `get` finds nothing, the first `init` wins, the second is refused, and `get`
   * then returns the first value.
   */
  method InitOnce<T>(v: T, w: T) returns (before: Option<T>, first: Result<(), InternalError>,
                                          second: Result<(), InternalError>, after: Option<T>)
    ensures before == None
    ensures first == Ok(())
    ensures second == Err(RepeatInitialization)
    ensures after == Some(v)
  {
    var lock := new OnceLock<T>();
    before := lock.Get();
    first := lock.Init(v);
    second := lock.Init(w);
    after := lock.Get();
  }
}
