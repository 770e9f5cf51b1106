/**
 * kern/modules/syscall/src/all.rs: the system-call entry. User pointers are checked against the
 * lower half of the address space before they are dereferenced, unknown call numbers are
 * refused, and an APEX service's result is encoded as the usize handed back to the caller.
 * The services themselves are a function parameter.
 */
module AllCalls {
  import opened Wrappers
  import opened Machine
  import opened Errors
  import opened Apex

  /** `usize::MAX / 2`: user pointers must stay below it. */
  const HALF: nat := USIZE_MAX / 2

  /** A Rust type's size never exceeds `isize::MAX`, which is HALF. */
  type TypeSize = n: nat | n <= HALF

  // ---------------------------------------------------------------------------
  // User pointers

  /**
   * `uptr_try_cast::<T>(ptr)`: the pointer is refused unless it is non-null and the object
   * [ptr, ptr + size_of::<T>()) starts below HALF and ends at or below it. The addition cannot
   * wrap: ptr is below HALF and the size at most HALF.
   */
  function UptrTryCast(ptr: usize, size: TypeSize): (r: Result<usize, InternalError>)
    ensures r.Ok? <==> 0 < ptr < HALF && ptr + size <= HALF
    ensures r.Ok? ==> r.value == ptr
    ensures r.Err? ==> r.error == InvalidVirtAddr
  {
    if ptr >= HALF || WrapAdd(ptr, size) > HALF then Err(InvalidVirtAddr)
    else if ptr == 0 then Err(InvalidVirtAddr)
    else Ok(ptr)
  }

  /**
   * `uptr_try_cast_array::<T>(ptr, len)` as written: `ptr + len * size_of::<T>()` is computed in
   * usize, which a release build wraps modulo 2^64.
   */
  function UptrTryCastArrayAsWritten(ptr: usize, len: usize, size: TypeSize): (r: Result<usize, InternalError>)
    ensures r.Ok? ==> r.value == ptr && 0 < ptr < HALF
    ensures r.Err? ==> r.error == InvalidVirtAddr
  {
    if ptr >= HALF || WrapAdd(ptr, WrapMul(len, size)) > HALF then Err(InvalidVirtAddr)
    else if ptr == 0 then Err(InvalidVirtAddr)
    else Ok(ptr)
  }

  /**
   * The wrapped end of a huge slice passes the check: a byte slice of 2^64 - 0x800 bytes at 0x1000
   * ends, modulo 2^64, at 0x800, so the slice is accepted although it reaches far past HALF.
   */
  lemma ArrayEndWraps()
    ensures var ptr, len := 0x1000, 0xFFFF_FFFF_FFFF_F800;
            && UptrTryCastArrayAsWritten(ptr, len, 1) == Ok(ptr)
            && ptr + len * 1 > HALF
  {
    assert WrapMul(0xFFFF_FFFF_FFFF_F800, 1) == 0xFFFF_FFFF_FFFF_F800;
    assert WrapAdd(0x1000, 0xFFFF_FFFF_FFFF_F800) == 0x800;
  }

  /** The array check as evidently intended: the whole slice [ptr, ptr + len * size) lies below HALF. */
  function UptrTryCastArray(ptr: usize, len: usize, size: TypeSize): (r: Result<usize, InternalError>)
    ensures r.Ok? <==> 0 < ptr < HALF && ptr + len * size <= HALF
    ensures r.Ok? ==> r.value == ptr
    ensures r.Err? ==> r.error == InvalidVirtAddr
  {
    if ptr >= HALF || len * size > HALF - ptr then Err(InvalidVirtAddr)
    else if ptr == 0 then Err(InvalidVirtAddr)
    else Ok(ptr)
  }

  /** As written and as intended agree on every slice whose end does not wrap. */
  lemma ArrayChecksAgree(ptr: usize, len: usize, size: TypeSize)
    requires ptr + len * size < USIZE_MOD
    ensures UptrTryCastArrayAsWritten(ptr, len, size) == UptrTryCastArray(ptr, len, size)
  {
    assert len * size < USIZE_MOD;
    assert WrapMul(len, size) == len * size;
  }

  /** A one-element slice is checked as the element itself. */
  lemma SingleElement(ptr: usize, size: TypeSize)
    ensures UptrTryCastArray(ptr, 1, size) == UptrTryCast(ptr, size)
  {
  }

  // ---------------------------------------------------------------------------
  // Dispatch and result encoding

  const SYS_GET_PARTITION_STATUS: nat := 0x1000
  const SYS_SET_PARTITION_MODE: nat := 0x1001
  const SYS_GET_PROCESS_ID: nat := 0x2000
  const SYS_GET_PROCESS_STATUS: nat := 0x2001
  const SYS_CREATE_PROCESS: nat := 0x2002
  const SYS_START: nat := 0x2009
  const SYS_INITIALIZE_PROCESS_CORE_AFFINITY: nat := 0x200E
  const SYS_DEBUG_LOG: nat := 0xdbdb_dbdb
  const SYS_DEBUG_HALT: nat := 0xdbdb_dbdc

  /** The call numbers `handle` serves (abi/src/sysno.rs); every other number is refused. */
  const HANDLED: set<nat> := {SYS_GET_PARTITION_STATUS, SYS_SET_PARTITION_MODE, SYS_GET_PROCESS_ID,
                              SYS_GET_PROCESS_STATUS, SYS_CREATE_PROCESS, SYS_START,
                              SYS_INITIALIZE_PROCESS_CORE_AFFINITY, SYS_DEBUG_LOG, SYS_DEBUG_HALT}

  /** An APEX error: any return code but NoError. */
  type ErrorCode = c: ApexReturnCode | c != NoError witness NoAction

  /** What a service produces: a kernel error (a refused user pointer), or the APEX outcome. */
  type Service = nat -> Result<Result<(), ErrorCode>, InternalError>

  /** `Ok(()) => 0, Err(e) => e as usize`. */
  function Encode(ret: Result<(), ErrorCode>): (n: nat)
    ensures n <= 6
    ensures n == 0 <==> ret.Ok?
  {
    match ret
    case Ok(_) => 0
    case Err(e) => ReturnCodeValue(e)
  }

  /** The caller's side, `ApexReturnCode::from` then `as_result`, recovers the service's outcome. */
  lemma EncodeRoundTrip(ret: Result<(), ErrorCode>)
    ensures AsResult(ReturnCodeFrom(Encode(ret)), ()) == match ret case Ok(_) => Ok(()) case Err(e) => Err(e)
  {
    if ret.Err? {
      ReturnCodeRoundTrip(ret.error);
    }
  }

  /**
   * `handle`: an unknown call number is InvalidSyscallNumber; a known one runs its service, whose
   * kernel error is passed on and whose APEX outcome is encoded.
   */
  function Handle(sysno: nat, service: Service): (r: Result<nat, InternalError>)
    ensures sysno !in HANDLED ==> r == Err(InvalidSyscallNumber)
    ensures sysno in HANDLED ==> (r.Ok? <==> service(sysno).Ok?)
    ensures sysno in HANDLED && r.Err? ==> r.error == service(sysno).error
    ensures r.Ok? ==> r.value <= 6 && (r.value == 0 <==> service(sysno).value.Ok?)
  {
    if sysno !in HANDLED then Err(InvalidSyscallNumber)
    else
      var ret :- service(sysno);
      Ok(Encode(ret))
  }
}
