/**
 * kern/modules/addr/src/lib.rs: page-table indexes of a virtual address and the conversion
 * between physical addresses and their kernel remapping. The riscv64 configuration is modelled:
 * REMAP_MEM_OFFSET is 0xFFFF_FFC0_0000_0000 (kern/modules/config/src/arch/riscv.rs).
 */
module Addr {
  import opened Machine
  import opened AddrMacro

  const REMAP_MEM_OFFSET: usize := 0xFFFF_FFC0_0000_0000

  /** The end of physical memory on riscv64. */
  const PHYS_MEM_LIMIT: nat := 0x0000_0020_0000_0000

  /** `PhysAddr::to_virt`: `self.0 + REMAP_MEM_OFFSET`. */
  function ToVirt(p: Address): Address {
    Address(WrapAdd(p.value, REMAP_MEM_OFFSET))
  }

  /** `VirtAddr::to_phys`: `self.0 - REMAP_MEM_OFFSET`. */
  function ToPhys(v: Address): Address {
    Address(WrapSub(v.value, REMAP_MEM_OFFSET))
  }

  /** The two conversions undo each other. */
  lemma RemapRoundTrip(p: Address, v: Address)
    ensures ToPhys(ToVirt(p)) == p
    ensures ToVirt(ToPhys(v)) == v
  {
  }

  /** Physical memory is remapped into the top of the address space, without wrapping. */
  lemma RemapWindow(p: Address)
    requires p.value < PHYS_MEM_LIMIT
    ensures ToVirt(p).value == p.value + REMAP_MEM_OFFSET
    ensures REMAP_MEM_OFFSET <= ToVirt(p).value < REMAP_MEM_OFFSET + PHYS_MEM_LIMIT
  {
  }

  // ---------------------------------------------------------------------------
  // Sv39 (feature pt_level_3): three 9-bit VPN fields above the 12-bit page offset

  const P12: nat := 0x1000
  const P21: nat := 0x20_0000
  const P30: nat := 0x4000_0000
  const P39: nat := 0x80_0000_0000

  /** `indexes` for Sv39: `[x >> 30 & 0x1ff, x >> 21 & 0x1ff, x >> 12 & 0x1ff]`. */
  function Sv39Indexes(v: Address): (r: seq<nat>)
    ensures |r| == 3 && forall i | 0 <= i < 3 :: r[i] < 512
  {
    [(v.value / P30) % 512, (v.value / P21) % 512, (v.value / P12) % 512]
  }

  /**
   * The three indexes and the page offset together are the low 39 bits of the address: VPN[2],
   * VPN[1], VPN[0] and the offset, as in section 4.4 of the RISC-V Privileged Architecture.
   */
  lemma Sv39Reassemble(v: Address)
    ensures var r := Sv39Indexes(v);
            r[0] * P30 + r[1] * P21 + r[2] * P12 + v.value % P12 == v.value % P39
  {
    var x := v.value;
    FieldSplit(x, P12, 512);
    FieldSplit(x, P21, 512);
    FieldSplit(x, P30, 512);
  }

  /** Addresses in the same 4 KiB page have the same Sv39 indexes. */
  lemma Sv39SamePage(v: Address, w: Address)
    requires v.value / P12 == w.value / P12
    ensures Sv39Indexes(v) == Sv39Indexes(w)
  {
    assert v.value / P21 == (v.value / P12) / 512 by { FieldSplit(v.value, P12, 512); }
    assert w.value / P21 == (w.value / P12) / 512 by { FieldSplit(w.value, P12, 512); }
    assert v.value / P30 == (v.value / P21) / 512 by { FieldSplit(v.value, P21, 512); }
    assert w.value / P30 == (w.value / P21) / 512 by { FieldSplit(w.value, P21, 512); }
  }

  // ---------------------------------------------------------------------------
  // Sv32 (feature pt_level_2): two 10-bit VPN fields on a 32-bit usize

  const P22: nat := 0x40_0000
  const P32: nat := 0x1_0000_0000

  type u32 = x: nat | x < P32

  /** `indexes` for Sv32: `[x >> 22 & 0x3ff, x >> 12 & 0x3ff]`. */
  function Sv32Indexes(x: u32): (r: seq<nat>)
    ensures |r| == 2 && forall i | 0 <= i < 2 :: r[i] < 1024
  {
    [(x / P22) % 1024, (x / P12) % 1024]
  }

  /** On 32 bits the two indexes and the page offset are the whole address. */
  lemma Sv32Reassemble(x: u32)
    ensures var r := Sv32Indexes(x);
            r[0] * P22 + r[1] * P12 + x % P12 == x
  {
    FieldSplit(x, P12, 1024);
    FieldSplit(x, P22, 1024);
    DivModUnique(x, P32, 0, x);
  }
}
