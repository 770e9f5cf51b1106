/**
 * The kernel's `InternalError` (kern/modules/error/src/lib.rs), with the variants the
 * modelled code also raises but that file does not list: `DuplicateRuntimeSchedTable`,
 * `InvalidRuntimeSchedTable`, `RepeatInitialization`, `InvalidApexName`,
 * `InvalidSyscallNumber` and `ElfParseError`.
 */
module Errors {
  datatype InternalError =
    | DevProbeError
    | NotEnoughMem
    | InvalidCpuId
    | InvalidVirtAddr
    | DuplicateTaskId
    | InvalidExecutorId
    | DuplicateExecutorId
    | InvalidInspectorId
    | DuplicateInspectorId
    | InvalidInspectorStatus
    | InvalidRuntimeStatus
    | InvalidTimedEventStatus
    | DuplicateRuntimeSchedTable
    | InvalidRuntimeSchedTable
    | RepeatInitialization
    | InvalidApexName
    | InvalidSyscallNumber
    | ElfParseError
}
