/**
 * kern/modules/paging/src/arch/riscv/mod.rs: the Sv39 page-table entry and its permission
 * flags. An entry is a usize holding the physical page number from bit 10 up and the flags
 * V R W X U G A D in bits 0 to 7 (section 4.4 of the RISC-V Privileged Architecture).
 * `set` and `clr` overwrite the entry's one field, so they are functions returning the new entry.
 */
module Paging {
  import opened Machine
  import opened AddrMacro

  /** The `PagePerm` bitflags, one boolean per flag. */
  datatype Perm = Perm(v: bool, r: bool, w: bool, x: bool, u: bool, g: bool, a: bool, d: bool)

  /** The flags in bit order: V is bit 0, R bit 1, ..., D bit 7. */
  function Flags(p: Perm): (fs: seq<bool>)
    ensures |fs| == 8
  {
    [p.v, p.r, p.w, p.x, p.u, p.g, p.a, p.d]
  }

  function PermOf(fs: seq<bool>): Perm
    requires |fs| == 8
  {
    Perm(fs[0], fs[1], fs[2], fs[3], fs[4], fs[5], fs[6], fs[7])
  }

  function B(b: bool): nat { if b then 1 else 0 }

  /** The number whose binary digits, least significant first, are `bs`. */
  function ValueOf(bs: seq<bool>): nat
    decreases |bs|
  {
    if bs == [] then 0 else B(bs[0]) + 2 * ValueOf(bs[1..])
  }

  /** The k lowest binary digits of n, least significant first. */
  function DigitsOf(n: nat, k: nat): (bs: seq<bool>)
    ensures |bs| == k
  {
    if k == 0 then [] else [n % 2 == 1] + DigitsOf(n / 2, k - 1)
  }

  /** Reading the digits of a digit string's value gives the digits back, and the value fits in |bs| bits. */
  lemma {:induction false} DigitsRoundTrip(bs: seq<bool>)
    ensures DigitsOf(ValueOf(bs), |bs|) == bs
    ensures ValueOf(bs) < Pow2(|bs|)
  {
    if bs != [] {
      var rest := ValueOf(bs[1..]);
      DigitsRoundTrip(bs[1..]);
      DivModUnique(ValueOf(bs), 2, rest, B(bs[0]));
      assert bs == [bs[0]] + bs[1..];
    }
  }

  function Pow2(k: nat): (p: nat)
    ensures p > 0
  {
    if k == 0 then 1 else 2 * Pow2(k - 1)
  }

  /** `perm.bits()` */
  function Bits(p: Perm): (n: nat)
    ensures n < 256
  {
    DigitsRoundTrip(Flags(p));
    ValueOf(Flags(p))
  }

  /** `PagePerm::from_bits_truncate`: the eight flag bits of n, the others dropped. */
  function FromBits(n: nat): Perm {
    PermOf(DigitsOf(n % 256, 8))
  }

  /** Truncating the bits of a flag set gives the flag set back. */
  lemma FromBitsRoundTrip(p: Perm)
    ensures FromBits(Bits(p)) == p
  {
    DigitsRoundTrip(Flags(p));
    DivModUnique(Bits(p), 256, 0, Bits(p));
  }

  /** `set` first adds the accessed bit to a readable page and the dirty bit to a writable one. */
  function WithAccessBits(p: Perm): (q: Perm)
    ensures q.a == (p.a || p.r) && q.d == (p.d || p.w)
    ensures q.(a := p.a, d := p.d) == p
  {
    p.(a := p.a || p.r, d := p.d || p.w)
  }

  datatype PageTableEntry = PageTableEntry(bits: usize)

  /** The PPN field starts at bit 10; the flags use bits 0 to 7, bits 8 and 9 stay clear. */
  const PPN_UNIT: nat := 1024

  /**
   * `set(phys_addr, perm)`: `(phys_addr.align_page_down() >> 2) | perm.bits()` with the A/D bits
   * added. The page number of the address lands in the PPN field and the flags below it; the two
   * fields do not overlap, so the OR is a sum.
   */
  function Set(pa: Address, perm: Perm): (e: PageTableEntry)
    ensures e.bits / PPN_UNIT == pa.value / PAGE_SIZE
    ensures e.bits % PPN_UNIT == Bits(WithAccessBits(perm))
  {
    var ppn := AlignPageDown(pa).value / 4;
    var flags := Bits(WithAccessBits(perm));
    assert ppn == (pa.value / PAGE_SIZE) * PPN_UNIT;
    DivModUnique(ppn + flags, PPN_UNIT, pa.value / PAGE_SIZE, flags);
    PageTableEntry(ppn + flags)
  }

  /** `clr`: the entry becomes 0. */
  function Clr(): (e: PageTableEntry)
    ensures !IsValid(e) && FromBits(e.bits) == FromBits(0)
  {
    PageTableEntry(0)
  }

  /** `is_valid`: the V bit is set. */
  predicate IsValid(e: PageTableEntry) {
    e.bits % 2 == 1
  }

  /** `From<PageTableEntry> for (PhysAddr, PagePerm)`: `(bits << 2) & !(PAGE_SIZE - 1)` and the truncated flags. */
  function Decode(e: PageTableEntry): (Address, Perm) {
    (AlignPageDown(Address((e.bits * 4) % USIZE_MOD)), FromBits(e.bits))
  }

  /** An entry set with a valid permission is valid, and one set without it is not. */
  lemma SetValid(pa: Address, perm: Perm)
    ensures IsValid(Set(pa, perm)) <==> perm.v
  {
    var e := Set(pa, perm);
    var f := Bits(WithAccessBits(perm));
    DivMod(e.bits, PPN_UNIT);
    assert e.bits == (e.bits / PPN_UNIT) * 512 * 2 + f;
    assert f % 2 == B(perm.v);
    DivModUnique(e.bits, 2, (e.bits / PPN_UNIT) * 512 + f / 2, f % 2);
  }

  /** The entry `set` writes is the page number times 1024 plus the flag bits. */
  lemma SetBits(pa: Address, perm: Perm)
    ensures Set(pa, perm).bits == (pa.value / PAGE_SIZE) * PPN_UNIT + Bits(WithAccessBits(perm))
  {
  }

  /** Decoding page number k with flag bits f. */
  lemma DecodeFields(k: nat, f: nat)
    requires k < 0x4_0000_0000_0000 && f < 256
    ensures k * PPN_UNIT + f < USIZE_MOD
    ensures Decode(PageTableEntry(k * PPN_UNIT + f)) == (Address(k * PAGE_SIZE), FromBits(f))
  {
    var n := k * PPN_UNIT + f;
    assert n * 4 == k * PAGE_SIZE + 4 * f;
    DivModUnique(n * 4, USIZE_MOD, 0, n * 4);
    DivModUnique(n * 4, PAGE_SIZE, k, 4 * f);
    DivModUnique(n, 256, k * 4, f);
    DivModUnique(f, 256, 0, f);
  }

  /**
   * Decoding an entry that `set` wrote gives back the page of the address and the permission with
   * its A/D bits, for addresses below 2^62 whose page number survives the shift `bits << 2`.
   */
  lemma SetDecode(pa: Address, perm: Perm)
    requires pa.value < 0x4000_0000_0000_0000
    ensures Decode(Set(pa, perm)) == (AlignPageDown(pa), WithAccessBits(perm))
  {
    var k := pa.value / PAGE_SIZE;
    SetBits(pa, perm);
    DecodeFields(k, Bits(WithAccessBits(perm)));
    DivMod(pa.value, PAGE_SIZE);
    FromBitsRoundTrip(WithAccessBits(perm));
  }

  // ---------------------------------------------------------------------------
  // Display

  const LETTERS: string := "VRWXUG"

  /** Bit i of the flags, for the six flags that are displayed. */
  function Flag(p: Perm, i: nat): bool
    requires i < 6
  {
    Flags(p)[i]
  }

  /** The rendering of a permission: letter i of "VRWXUG" where flag i is set, '-' where it is clear. */
  function Rendered(p: Perm): (s: string)
    ensures |s| == 6
  {
    seq(6, i requires 0 <= i < 6 => if Flag(p, i) then LETTERS[i] else '-')
  }

  /** `Display for PagePerm`: start from "VRWXUG" and blank out each clear flag in turn. */
  method Display(p: Perm) returns (s: string)
    ensures s == Rendered(p)
  {
    s := LETTERS;
    for i := 0 to 6
      invariant |s| == 6
      invariant forall j | 0 <= j < 6 :: s[j] == if j < i && !Flag(p, j) then '-' else LETTERS[j]
    {
      if !Flag(p, i) {
        s := s[i := '-'];
      }
    }
    assert forall j | 0 <= j < 6 :: s[j] == Rendered(p)[j];
  }

  /** The six displayed flags can be read back from the rendering. */
  lemma RenderedFlags(p: Perm, i: nat)
    requires i < 6
    ensures Rendered(p)[i] != '-' <==> Flag(p, i)
  {
  }

  /** Two permissions rendered alike agree on V, R, W, X, U and G; A and D are not displayed. */
  lemma RenderedInjective(p: Perm, q: Perm)
    requires Rendered(p) == Rendered(q)
    ensures p.(a := false, d := false) == q.(a := false, d := false)
  {
    var fp, fq := Flags(p), Flags(q);
    RenderedFlags(p, 0);
    RenderedFlags(q, 0);
    RenderedFlags(p, 1);
    RenderedFlags(q, 1);
    RenderedFlags(p, 2);
    RenderedFlags(q, 2);
    RenderedFlags(p, 3);
    RenderedFlags(q, 3);
    RenderedFlags(p, 4);
    RenderedFlags(q, 4);
    RenderedFlags(p, 5);
    RenderedFlags(q, 5);
    assert fp[0] == fq[0] && fp[1] == fq[1] && fp[2] == fq[2] && fp[3] == fq[3] && fp[4] == fq[4] && fp[5] == fq[5];
  }
}
