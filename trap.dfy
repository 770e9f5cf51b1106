/**
 * kern/modules/trap/src/arch/riscv/mod.rs: the saved user context of a hart and what the kernel
 * reads from and writes into it. `trap_reason` decodes scause; `user_setup`, `enable_int`,
 * `disable_int` and `pc_advance` assign the context's registers. The general and floating-point
 * registers other than sp are not modelled. The scause codes are the supervisor interrupt and
 * exception codes of section 4.1.8 of the RISC-V Privileged Architecture.
 */
module Trap {
  import opened Machine
  import opened AddrMacro
  import opened Paging

  /** Bit 63 of scause, `1 << (usize::BITS - 1)`: set for an interrupt, clear for an exception. */
  const INTERRUPT_BIT: usize := 0x8000_0000_0000_0000

  const SUPERVISOR_SOFT: usize := 1
  const SUPERVISOR_TIMER: usize := 5
  const SUPERVISOR_EXTERNAL: usize := 9

  const BREAKPOINT: usize := 3
  const USER_ENV_CALL: usize := 8
  const INSTRUCTION_PAGE_FAULT: usize := 12
  const LOAD_PAGE_FAULT: usize := 13
  const STORE_PAGE_FAULT: usize := 15

  /** Why the hart trapped, as the riscv context reports it. */
  datatype TrapReason =
    | SoftwareInterrupt
    | TimerInterrupt
    | ExternalInterrupt
    | SystemCall
    | Breakpoint(addr: Address)
    | PageFault(addr: Address, perm: Perm)
    | Unknown(code: usize)

  predicate IsInterrupt(r: TrapReason) {
    r.SoftwareInterrupt? || r.TimerInterrupt? || r.ExternalInterrupt?
  }

  const NO_PERM: Perm := Perm(false, false, false, false, false, false, false, false)
  /** `PagePerm::R`, `PagePerm::W` and `PagePerm::X`. */
  const READ: Perm := NO_PERM.(r := true)
  const WRITE: Perm := NO_PERM.(w := true)
  const EXEC: Perm := NO_PERM.(x := true)

  /**
   * `trap_reason`: with bit 63 set, the remaining bits name the interrupt; with it clear, scause
   * is the exception code. A breakpoint reports sepc, a page fault stval and the access it
   * faulted on; every other code is Unknown with the whole scause.
   */
  function ReasonOf(scause: usize, sepc: usize, stval: usize): (r: TrapReason)
    ensures r == SoftwareInterrupt <==> scause == INTERRUPT_BIT + SUPERVISOR_SOFT
    ensures r == TimerInterrupt <==> scause == INTERRUPT_BIT + SUPERVISOR_TIMER
    ensures r == ExternalInterrupt <==> scause == INTERRUPT_BIT + SUPERVISOR_EXTERNAL
    ensures r == SystemCall <==> scause == USER_ENV_CALL
    ensures r == Breakpoint(Address(sepc)) <==> scause == BREAKPOINT
    ensures r == PageFault(Address(stval), READ) <==> scause == LOAD_PAGE_FAULT
    ensures r == PageFault(Address(stval), WRITE) <==> scause == STORE_PAGE_FAULT
    ensures r == PageFault(Address(stval), EXEC) <==> scause == INSTRUCTION_PAGE_FAULT
    ensures IsInterrupt(r) ==> scause >= INTERRUPT_BIT
    ensures scause >= INTERRUPT_BIT ==> IsInterrupt(r) || r.Unknown?
    ensures r.Breakpoint? ==> r.addr.value == sepc
    ensures r.PageFault? ==> r.addr.value == stval && (r.perm == READ || r.perm == WRITE || r.perm == EXEC)
    ensures r.Unknown? ==> r.code == scause
  {
    if scause >= INTERRUPT_BIT then
      var code := scause - INTERRUPT_BIT;
      if code == SUPERVISOR_SOFT then SoftwareInterrupt
      else if code == SUPERVISOR_TIMER then TimerInterrupt
      else if code == SUPERVISOR_EXTERNAL then ExternalInterrupt
      else Unknown(scause)
    else if scause == USER_ENV_CALL then SystemCall
    else if scause == BREAKPOINT then Breakpoint(Address(sepc))
    else if scause == LOAD_PAGE_FAULT then PageFault(Address(stval), READ)
    else if scause == STORE_PAGE_FAULT then PageFault(Address(stval), WRITE)
    else if scause == INSTRUCTION_PAGE_FAULT then PageFault(Address(stval), EXEC)
    else Unknown(scause)
  }

  /** The scause value a reason stands for: the reverse of the decode table. */
  function CauseOf(r: TrapReason): usize {
    match r
    case SoftwareInterrupt => INTERRUPT_BIT + SUPERVISOR_SOFT
    case TimerInterrupt => INTERRUPT_BIT + SUPERVISOR_TIMER
    case ExternalInterrupt => INTERRUPT_BIT + SUPERVISOR_EXTERNAL
    case SystemCall => USER_ENV_CALL
    case Breakpoint(_) => BREAKPOINT
    case PageFault(_, p) => if p == READ then LOAD_PAGE_FAULT else if p == WRITE then STORE_PAGE_FAULT else INSTRUCTION_PAGE_FAULT
    case Unknown(c) => c
  }

  /** The decode loses nothing of scause: the cause can be read back from every reason. */
  lemma CauseRoundTrip(scause: usize, sepc: usize, stval: usize)
    ensures CauseOf(ReasonOf(scause, sepc, stval)) == scause
  {
  }

  /**
   * The decode table read backwards: every reason other than Unknown is what its own scause
   * value decodes to, with the address the trap reports.
   */
  lemma ReasonRoundTrip(r: TrapReason, sepc: usize, stval: usize)
    requires !r.Unknown?
    requires r.Breakpoint? ==> r.addr == Address(sepc)
    requires r.PageFault? ==> r.addr == Address(stval) && (r.perm == READ || r.perm == WRITE || r.perm == EXEC)
    ensures ReasonOf(CauseOf(r), sepc, stval) == r
  {
  }

  /** Different causes are reported as different reasons. */
  lemma ReasonInjective(c1: usize, c2: usize, sepc: usize, stval: usize)
    requires ReasonOf(c1, sepc, stval) == ReasonOf(c2, sepc, stval)
    ensures c1 == c2
  {
    CauseRoundTrip(c1, sepc, stval);
    CauseRoundTrip(c2, sepc, stval);
  }

  // ---------------------------------------------------------------------------
  // sstatus and sie

  /** The sstatus fields `user_setup` programs. */
  datatype Status = Status(sie: bool, spie: bool, spp: bool, fs: nat, sum: bool)

  /** SIE is bit 1, SPIE bit 5, SPP bit 8, FS bits 13-14 and SUM bit 18 of sstatus. */
  function StatusOf(n: usize): (s: Status)
    ensures s.fs < 4
  {
    Status((n / 0x2) % 2 == 1, (n / 0x20) % 2 == 1, (n / 0x100) % 2 == 1, (n / 0x2000) % 4, (n / 0x4_0000) % 2 == 1)
  }

  const FS_INITIAL: nat := 1

  /** `1 << 18 | (FS::Initial as usize) << 13 | (SPP::User as usize) << 8 | 1 << 5` */
  const USER_STATUS: usize := 0x4_0000 + FS_INITIAL * 0x2000 + 0 * 0x100 + 0x20

  /** The interrupt sources enabled in sie: SSIE is bit 1, STIE bit 5, SEIE bit 9. */
  datatype Enabled = Enabled(software: bool, timer: bool, external: bool)

  function EnabledOf(n: usize): Enabled {
    Enabled((n / 0x2) % 2 == 1, (n / 0x20) % 2 == 1, (n / 0x200) % 2 == 1)
  }

  /** `1 << 9 | 1 << 5 | 1 << 1` */
  const ALL_INTERRUPTS: usize := 0x200 + 0x20 + 0x2

  /**
   * The instruction length `pc_advance` steps over, given the instruction's lowest byte: a
   * compressed 16-bit instruction has low bits other than 0b11 (section 1.5 of the RISC-V
   * Unprivileged ISA); every longer one is taken to be 32 bits.
   */
  function InstructionLength(low: nat): (n: nat)
    requires low < 256
    ensures n == 2 || n == 4
    ensures n == 2 <==> low % 4 != 3
  {
    if low % 4 != 3 then 2 else 4
  }

  /** The registers of a saved context that the kernel reads or writes here. */
  class Context {
    var sp: usize
    var sstatus: usize
    var scause: usize
    var sie: usize
    var stval: usize
    var sepc: usize

    /** `Context::default()`: every register 0. */
    constructor()
      ensures sp == 0 && sstatus == 0 && scause == 0 && sie == 0 && stval == 0 && sepc == 0
    {
      sp, sstatus, scause, sie, stval, sepc := 0, 0, 0, 0, 0, 0;
    }

    /** `trap_reason` of this context. */
    function Reason(): (r: TrapReason)
      reads this
      ensures r == ReasonOf(scause, sepc, stval)
      ensures CauseOf(r) == scause
    {
      CauseRoundTrip(scause, sepc, stval);
      ReasonOf(scause, sepc, stval)
    }

    /**
     * `user_setup`: start at the entry point on the given stack, return to user mode with
     * interrupts enabled after `sret`, the floating-point unit in its initial state and user
     * memory accessible to the kernel; all three interrupt sources are enabled.
     */
    method UserSetup(entry: usize, stackTop: usize)
      modifies this
      ensures sp == stackTop && sepc == entry && sstatus == USER_STATUS && sie == ALL_INTERRUPTS
      ensures scause == old(scause) && stval == old(stval)
      ensures StatusOf(sstatus) == Status(sie := false, spie := true, spp := false, fs := FS_INITIAL, sum := true)
      ensures EnabledOf(sie) == Enabled(true, true, true)
    {
      sp := stackTop;
      sstatus := USER_STATUS;
      sepc := entry;
      EnableInt();
    }

    /** `enable_int`: software, timer and external interrupts enabled, nothing else. */
    method EnableInt()
      modifies this
      ensures sie == ALL_INTERRUPTS && EnabledOf(sie) == Enabled(true, true, true)
      ensures sp == old(sp) && sstatus == old(sstatus) && scause == old(scause)
      ensures stval == old(stval) && sepc == old(sepc)
    {
      sie := ALL_INTERRUPTS;
    }

    /** `disable_int`: every interrupt source disabled. */
    method DisableInt()
      modifies this
      ensures sie == 0 && EnabledOf(sie) == Enabled(false, false, false)
      ensures sp == old(sp) && sstatus == old(sstatus) && scause == old(scause)
      ensures stval == old(stval) && sepc == old(sepc)
    {
      sie := 0;
    }

    /**
     * `pc_advance`: step sepc over the trapping instruction, 2 bytes for a compressed one (low
     * bits not 0b11) and 4 otherwise. `low` is the byte at sepc, read from memory by the source.
     * A 2-byte aligned sepc stays 2-byte aligned.
     */
    method PcAdvance(low: nat)
      requires low < 256
      modifies this
      ensures sepc == WrapAdd(old(sepc), InstructionLength(low))
      ensures old(sepc) % 2 == 0 ==> sepc % 2 == 0
      ensures sp == old(sp) && sstatus == old(sstatus) && scause == old(scause)
      ensures stval == old(stval) && sie == old(sie)
    {
      if low % 4 != 3 {
        sepc := WrapAdd(sepc, 2);
      } else {
        sepc := WrapAdd(sepc, 4);
      }
    }
  }

  /**
   * A system call: the kernel finds SystemCall in a context that trapped on `ecall` and steps
   * past the 4-byte `ecall` (opcode byte 0x73) to the next instruction.
   */
  method SystemCallReturn(entry: usize, stackTop: usize) returns (reason: TrapReason, resume: usize)
    requires entry <= USIZE_MAX - 4
    ensures reason == SystemCall
    ensures resume == entry + 4
  {
    var ctx := new Context();
    ctx.UserSetup(entry, stackTop);
    ctx.scause := USER_ENV_CALL;
    reason := ctx.Reason();
    ctx.PcAdvance(0x73);
    resume := ctx.sepc;
  }
}
