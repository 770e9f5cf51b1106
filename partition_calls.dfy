/**
 * SET_PARTITION_MODE of kern/modules/syscall/src/partition.rs. The partition is a class
 * with the two fields the service writes, its operating mode and its lock level.
 */
module PartitionCalls {
  import opened Wrappers
  import opened Machine
  import opened Apex

  /**
   * The transition checks: the number is first truncated to a u32; an unknown mode is
   * InvalidParam, Normal while already Normal is NoAction, WarmStart from ColdStart is
   * InvalidMode; any other request is the new mode.
   */
  function ModeTransition(current: OperatingMode, requested: usize): (r: Result<OperatingMode, ApexReturnCode>)
    ensures r == Err(InvalidParam) <==> requested % 0x1_0000_0000 > 3
    ensures r == Err(NoAction) <==> requested % 0x1_0000_0000 == 3 && current == Normal
    ensures r == Err(InvalidMode) <==> requested % 0x1_0000_0000 == 2 && current == ColdStart
    ensures r.Err? ==> r.error in {InvalidParam, NoAction, InvalidMode}
    ensures r.Ok? ==> OperatingModeValue(r.value) == requested % 0x1_0000_0000
  {
    var mode :- match OperatingModeFrom(requested % 0x1_0000_0000)
                case Ok(m) => Ok(m)
                case Err(_) => Err(InvalidParam);
    if mode == Normal && current == Normal then Err(NoAction)
    else if mode == WarmStart && current == ColdStart then Err(InvalidMode)
    else Ok(mode)
  }

  /** How `set_mode` ends: with a return code, or in one of its `todo!` branches. */
  datatype Outcome = Returned(result: Result<(), ApexReturnCode>) | Unimplemented

  class Partition {
    var mode: OperatingMode
    var lockLevel: int

    constructor (mode: OperatingMode, lockLevel: int)
      ensures this.mode == mode && this.lockLevel == lockLevel
    {
      this.mode := mode;
      this.lockLevel := lockLevel;
    }

    /**
     * `set_mode`: a refused request changes nothing; otherwise the new mode is stored
     * first, and Normal then resets the lock level, while Idle, WarmStart and ColdStart
     * reach `todo!`.
     */
    method SetMode(requested: usize) returns (r: Outcome)
      modifies this
      ensures ModeTransition(old(mode), requested).Err? ==>
                r == Returned(Err(ModeTransition(old(mode), requested).error))
                && mode == old(mode) && lockLevel == old(lockLevel)
      ensures ModeTransition(old(mode), requested).Ok? ==> mode == ModeTransition(old(mode), requested).value
      ensures ModeTransition(old(mode), requested) == Ok(Normal) ==>
                r == Returned(Ok(())) && lockLevel == APEX_LOCK_LEVEL_MIN
      ensures ModeTransition(old(mode), requested).Ok? && mode != Normal ==>
                r == Unimplemented && lockLevel == old(lockLevel)
    {
      var next := ModeTransition(mode, requested);
      if next.Err? {
        return Returned(Err(next.error));
      }
      mode := next.value;
      match next.value {
        case Normal =>
          lockLevel := APEX_LOCK_LEVEL_MIN;
          r := Returned(Ok(()));
        case _ =>
          r := Unimplemented;
      }
    }
  }

  /** A partition that reached Normal refuses to enter Normal again and keeps lock level 0. */
  method NormalTwice(start: OperatingMode, level: int) returns (first: Outcome, second: Outcome, after: int)
    requires start != Normal
    ensures first == Returned(Ok(())) && second == Returned(Err(NoAction)) && after == APEX_LOCK_LEVEL_MIN
  {
    var p := new Partition(start, level);
    first := p.SetMode(3);
    second := p.SetMode(3);
    after := p.lockLevel;
  }
}
