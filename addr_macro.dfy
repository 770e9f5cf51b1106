/**
 * kern/modules/addr-macro/src/lib.rs: the `Address` derive, which turns a one-field tuple
 * struct over `usize` into an address type with `+`/`-` operators, a hexadecimal `Display`
 * and page alignment. `PhysAddr` and `VirtAddr` are both such types; `Address` stands for
 * either. Arithmetic is the release build's: `usize` wraps modulo 2^64.
 */
module AddrMacro {
  import opened Wrappers
  import opened Machine

  // ---------------------------------------------------------------------------
  // The derive itself

  const NOTE: string := "Address can only be derived for tuple structs with one field"

  /** The shape of a struct's fields, as the derive sees it. */
  datatype Fields = NamedFields(named: nat) | UnnamedFields(unnamed: nat) | UnitFields

  /** The item the derive is attached to. */
  datatype Item = Struct(fields: Fields) | Enum | Union

  /** The expansion succeeds for a tuple struct with exactly one field and fails with NOTE otherwise. */
  function Derive(item: Item): (r: Result<(), string>)
    ensures r.Ok? <==> item == Struct(UnnamedFields(1))
    ensures r.Err? ==> r.error == NOTE
  {
    match item
    case Struct(UnnamedFields(n)) => if n == 1 then Ok(()) else Err(NOTE)
    case _ => Err(NOTE)
  }

  // ---------------------------------------------------------------------------
  // The generated members

  datatype Address = Address(value: usize)

  /** `impl Add<usize>`: `Self(self.0 + rhs)`. */
  function Add(a: Address, n: usize): Address {
    Address(WrapAdd(a.value, n))
  }

  /** `impl Sub<usize>`: `Self(self.0 - rhs)`. */
  function Sub(a: Address, n: usize): Address {
    Address(WrapSub(a.value, n))
  }

  /** `impl Sub<Self>`: the distance `self.0 - rhs.0`, a plain usize. */
  function Diff(a: Address, b: Address): usize {
    WrapSub(a.value, b.value)
  }

  /** Moving up by n and measuring back gives n. */
  lemma AddDiff(a: Address, n: usize)
    ensures Diff(Add(a, n), a) == n
    ensures Sub(Add(a, n), n) == a
  {
  }

  /** Moving down by n and measuring from the start gives n. */
  lemma SubDiff(a: Address, n: usize)
    ensures Diff(a, Sub(a, n)) == n
    ensures Add(Sub(a, n), n) == a
  {
  }

  /** `align_page_down`: `self.0 & !(PAGE_SIZE - 1)` clears the in-page offset. */
  function AlignPageDown(a: Address): (r: Address)
    ensures r.value % PAGE_SIZE == 0
    ensures r.value <= a.value < r.value + PAGE_SIZE
  {
    Address(a.value - a.value % PAGE_SIZE)
  }

  /** A page-aligned address is its own round-down, and only such a one. */
  lemma AlignDownFixed(a: Address)
    ensures AlignPageDown(a) == a <==> a.value % PAGE_SIZE == 0
  {
  }

  /**
   * `align_page_up`: `(self.0 + PAGE_SIZE - 1) & !(PAGE_SIZE - 1)`. Below the last page the result
   * is the least page multiple at or above the address; within the last page the sum wraps and the
   * result is 0.
   */
  function AlignPageUp(a: Address): (r: Address)
    ensures r.value % PAGE_SIZE == 0
    ensures a.value <= USIZE_MOD - PAGE_SIZE ==> a.value <= r.value < a.value + PAGE_SIZE
    ensures a.value <= USIZE_MOD - PAGE_SIZE && a.value % PAGE_SIZE == 0 ==> r == a
    ensures a.value > USIZE_MOD - PAGE_SIZE ==> r.value == 0
  {
    AlignPageDown(Address(WrapAdd(a.value, PAGE_SIZE - 1)))
  }

  /** Rounding up then down, or down then up, lands on the same page boundary. */
  lemma AlignUpDown(a: Address)
    requires a.value <= USIZE_MOD - PAGE_SIZE
    ensures AlignPageDown(AlignPageUp(a)) == AlignPageUp(a)
    ensures AlignPageUp(AlignPageDown(a)) == AlignPageDown(a)
    ensures AlignPageUp(a).value - AlignPageDown(a).value == if a.value % PAGE_SIZE == 0 then 0 else PAGE_SIZE
  {
  }

  // ---------------------------------------------------------------------------
  // Display: "0x{:x}"

  const HEX: string := "0123456789abcdef"

  /** The lower-case hexadecimal digits of n, most significant first, without leading zeros. */
  function HexDigits(n: nat): (s: string)
    ensures s != [] && forall i | 0 <= i < |s| :: s[i] in HEX
    ensures n > 0 ==> s[0] != '0'
    decreases n
  {
    if n < 16 then [HEX[n]] else HexDigits(n / 16) + [HEX[n % 16]]
  }

  /** The value of one hexadecimal digit. */
  function DigitValue(c: char): (v: nat)
    ensures v < 16
  {
    if '0' <= c <= '9' then c as int - '0' as int
    else if 'a' <= c <= 'f' then c as int - 'a' as int + 10
    else 0
  }

  /** The number a string of hexadecimal digits denotes. */
  function HexValue(s: string): nat
    decreases |s|
  {
    if s == [] then 0 else HexValue(s[..|s| - 1]) * 16 + DigitValue(s[|s| - 1])
  }

  /** `Display` for an address. */
  function Display(a: Address): (s: string)
    ensures |s| >= 3 && s[..2] == "0x"
  {
    "0x" + HexDigits(a.value)
  }

  /** The digits `Display` prints denote the address again. */
  lemma {:induction false} HexRoundTrip(n: nat)
    ensures HexValue(HexDigits(n)) == n
    decreases n
  {
    if n >= 16 {
      var s := HexDigits(n);
      assert s[..|s| - 1] == HexDigits(n / 16);
      HexRoundTrip(n / 16);
      assert DigitValue(HEX[n % 16]) == n % 16;
    } else {
      assert DigitValue(HEX[n]) == n;
    }
  }

  /** Different addresses are displayed differently. */
  lemma DisplayInjective(a: Address, b: Address)
    requires Display(a) == Display(b)
    ensures a == b
  {
    assert HexDigits(a.value) == Display(a)[2..];
    assert HexDigits(b.value) == Display(b)[2..];
    HexRoundTrip(a.value);
    HexRoundTrip(b.value);
  }
}
