/**
 * The process services of kern/modules/syscall/src/process.rs: the ordered error checks
 * of CREATE_PROCESS and INITIALIZE_PROCESS_CORE_AFFINITY (ARINC 653 Part 1). The calling
 * partition is given as a value; `Process::new` and the process registry are outside
 * this model, so the outcome of `Process::new` is a parameter.
 */
module ProcessCalls {
  import opened Wrappers
  import opened Errors
  import opened Apex

  /** a653rs `INFINITE_TIME_VALUE` */
  const INFINITE_TIME_VALUE: int := -1

  /** What the checks read of an `ApexProcessAttribute`. */
  datatype ProcessAttribute = ProcessAttribute(
    name: Name, stackSize: nat, basePriority: int, period: int, timeCapacity: int)

  /** What the checks read of the current partition. */
  datatype PartitionState = PartitionState(
    processNames: set<Name>, memoryFree: nat, period: int, mode: OperatingMode, assignedCores: seq<int>)

  function Abs(x: int): nat {
    if x >= 0 then x else -x
  }

  /** Rust's `/` on i64: the quotient rounded toward zero. */
  function TruncDiv(a: int, b: int): int
    requires b != 0
  {
    var q := Abs(a) / Abs(b);
    if (a >= 0) == (b > 0) then q else -q
  }

  /**
   * Rust's `%` on i64: the remainder takes the sign of the dividend and is smaller than the
   * divisor in magnitude, and `a == (a / b) * b + a % b` holds with the truncating quotient,
   * so `a - r` is a multiple of `b`. Together these pin the remainder down.
   */
  function TruncRem(a: int, b: int): (r: int)
    requires b != 0
    ensures a >= 0 ==> 0 <= r < (if b > 0 then b else -b)
    ensures a < 0 ==> -(if b > 0 then b else -b) < r <= 0
    ensures a == TruncDiv(a, b) * b + r
  {
    var m := if b > 0 then b else -b;
    var q := Abs(a) / m;
    assert Abs(a) == q * m + Abs(a) % m;
    assert b > 0 ==> q * m == q * b;
    assert b < 0 ==> q * m == (-q) * b;
    if a >= 0 then a % m else -((-a) % m)
  }

  /** The parameter checks, all of which `create` demands before it looks at the mode. */
  ghost predicate Admissible(attr: ProcessAttribute, p: PartitionState, maxPriority: int)
    requires p.period != 0
  {
    && attr.name !in p.processNames
    && attr.stackSize <= p.memoryFree
    && attr.basePriority <= maxPriority
    && (attr.period == INFINITE_TIME_VALUE || (attr.period >= 0 && TruncRem(attr.period, p.period) == 0))
    && (attr.timeCapacity == INFINITE_TIME_VALUE || attr.timeCapacity >= 0)
    && (attr.period == INFINITE_TIME_VALUE || attr.timeCapacity <= attr.period)
  }

  /**
   * The checks of `create` in their order: a name in use is NoAction; too big a stack or
   * too high a priority is InvalidParam; a negative finite period is InvalidParam, one
   * that is not a multiple of the partition's period InvalidConfig; a negative finite time
   * capacity, or one above a finite period, InvalidParam; Normal mode, checked last, is
   * InvalidMode. `maxPriority` is `Process::MAX_PRIORITY`.
   */
  function CreateCheck(attr: ProcessAttribute, p: PartitionState, maxPriority: int): (r: Result<(), ApexReturnCode>)
    requires p.period != 0
    ensures r.Ok? <==> Admissible(attr, p, maxPriority) && p.mode != Normal
    ensures r.Err? ==> r.error in {NoAction, InvalidParam, InvalidConfig, InvalidMode}
    ensures r == Err(InvalidMode) <==> Admissible(attr, p, maxPriority) && p.mode == Normal
    ensures r == Err(NoAction) <==> attr.name in p.processNames
  {
    if attr.name in p.processNames then Err(NoAction)
    else if attr.stackSize > p.memoryFree then Err(InvalidParam)
    else if attr.basePriority > maxPriority then Err(InvalidParam)
    else if attr.period != INFINITE_TIME_VALUE && attr.period < 0 then Err(InvalidParam)
    else if attr.period != INFINITE_TIME_VALUE && TruncRem(attr.period, p.period) != 0 then Err(InvalidConfig)
    else if attr.timeCapacity != INFINITE_TIME_VALUE && attr.timeCapacity < 0 then Err(InvalidParam)
    else if attr.period != INFINITE_TIME_VALUE && attr.timeCapacity > attr.period then Err(InvalidParam)
    else if p.mode == Normal then Err(InvalidMode)
    else Ok(())
  }

  /** The mode does not change the answer of `create` unless every parameter check passed. */
  lemma ModeCheckedLast(attr: ProcessAttribute, p: PartitionState, maxPriority: int, m: OperatingMode)
    requires p.period != 0 && !Admissible(attr, p, maxPriority)
    ensures CreateCheck(attr, p.(mode := m), maxPriority) == CreateCheck(attr, p, maxPriority)
  {
  }

  /**
   * `create`: the checks, then `Process::new`, whose failure is reported as InvalidConfig;
   * success is the new process's identifier.
   */
  function Create(attr: ProcessAttribute, p: PartitionState, maxPriority: int, created: Result<nat, InternalError>): (r: Result<nat, ApexReturnCode>)
    requires p.period != 0
    ensures r.Ok? <==> CreateCheck(attr, p, maxPriority).Ok? && created.Ok?
    ensures r.Ok? ==> r.value == created.value
    ensures CreateCheck(attr, p, maxPriority).Err? ==> r == Err(CreateCheck(attr, p, maxPriority).error)
    ensures CreateCheck(attr, p, maxPriority).Ok? && created.Err? ==> r == Err(InvalidConfig)
  {
    var _ :- CreateCheck(attr, p, maxPriority);
    match created
    case Ok(id) => Ok(id)
    case Err(_) => Err(InvalidConfig)
  }

  /** A process of the partition; only its core affinity is modelled. */
  class Process {
    const id: nat
    var coreAffinity: Option<int>

    constructor (id: nat)
      ensures this.id == id && coreAffinity == None
    {
      this.id := id;
      coreAffinity := None;
    }
  }

  /**
   * `initialize_process_core_affinity`: an unknown process is InvalidParam, a core not
   * assigned to the partition InvalidConfig, Normal mode InvalidMode; otherwise the
   * process's affinity becomes the core.
   */
  method InitializeProcessCoreAffinity(processes: map<nat, Process>, p: PartitionState, processId: nat, coreId: int)
    returns (r: Result<(), ApexReturnCode>)
    modifies if processId in processes then {processes[processId]} else {}
    ensures processId !in processes ==> r == Err(InvalidParam)
    ensures processId in processes && coreId !in p.assignedCores ==> r == Err(InvalidConfig)
    ensures processId in processes && coreId in p.assignedCores && p.mode == Normal ==> r == Err(InvalidMode)
    ensures processId in processes && coreId in p.assignedCores && p.mode != Normal ==>
              r == Ok(()) && processes[processId].coreAffinity == Some(coreId)
    ensures r.Err? && processId in processes ==>
              processes[processId].coreAffinity == old(processes[processId].coreAffinity)
  {
    if processId !in processes {
      return Err(InvalidParam);
    }
    var process := processes[processId];
    if coreId !in p.assignedCores {
      return Err(InvalidConfig);
    }
    if p.mode == Normal {
      return Err(InvalidMode);
    }
    process.coreAffinity := Some(coreId);
    return Ok(());
  }
}
