/** Machine-level constants of the 64-bit RISC-V target and usize arithmetic. */
module Machine {

  /** jrinx_config::PAGE_SIZE */
  const PAGE_SIZE: nat := 4096

  /** Number of distinct usize values on riscv64. */
  const USIZE_MOD: nat := 0x1_0000_0000_0000_0000

  /** usize::MAX */
  const USIZE_MAX: nat := USIZE_MOD - 1

  type usize = x: int | 0 <= x < USIZE_MOD

  /** `Duration::MAX` in nanoseconds: u64::MAX seconds and 999_999_999 nanoseconds. */
  const DURATION_MAX: nat := 0xFFFF_FFFF_FFFF_FFFF * 1_000_000_000 + 999_999_999

  /** usize addition as a release build computes it: wrapping modulo 2^64. */
  function WrapAdd(a: usize, b: usize): (r: usize)
    ensures a + b < USIZE_MOD ==> r == a + b
    ensures a + b >= USIZE_MOD ==> r == a + b - USIZE_MOD
  {
    (a + b) % USIZE_MOD
  }

  /** usize subtraction as a release build computes it: wrapping modulo 2^64. */
  function WrapSub(a: usize, b: usize): (r: usize)
    ensures a >= b ==> r == a - b
    ensures a < b ==> r == a - b + USIZE_MOD
  {
    (a - b) % USIZE_MOD
  }

  /** usize multiplication as a release build computes it: wrapping modulo 2^64. */
  function WrapMul(a: usize, b: usize): (r: usize)
    ensures a * b < USIZE_MOD ==> r == a * b
  {
    (a * b) % USIZE_MOD
  }

  /** `x.next_multiple_of(m)` for m > 0 (the overflow panic is not modelled). */
  function NextMultipleOf(x: nat, m: nat): (r: nat)
    requires m > 0
    ensures r % m == 0 && x <= r < x + m
    ensures x % m == 0 ==> r == x
  {
    var q := x / m;
    DivMod(x, m);
    if x % m == 0 then x else MultipleMod(q + 1, m); (q + 1) * m
  }

  lemma DivMod(x: nat, m: nat)
    requires m > 0
    ensures x == (x / m) * m + x % m && 0 <= x % m < m
  {
  }

  lemma MultipleMod(k: nat, m: nat)
    requires m > 0
    ensures (k * m) % m == 0
  {
    var a := k * m;
    var q, r := a / m, a % m;
    assert a == q * m + r && 0 <= r < m;
    assert (k - q) * m == r by { assert (k - q) * m == k * m - q * m; }
    if k > q {
      AtLeastOnce(k - q, m);
    } else if k < q {
      AtLeastOnce(q - k, m);
    }
  }

  lemma AtLeastOnce(d: nat, m: nat)
    requires d >= 1
    ensures d * m >= m
  {
  }

  /** Quotient and remainder are the only ones: any decomposition x == q * d + r with r < d is theirs. */
  lemma DivModUnique(x: nat, d: nat, q: nat, r: nat)
    requires d > 0 && x == q * d + r && r < d
    ensures x / d == q && x % d == r
  {
    var q', r' := x / d, x % d;
    assert x == q' * d + r';
    if q' < q {
      assert (q - q') * d == r' - r by { assert (q - q') * d == q * d - q' * d; }
      AtLeastOnce(q - q', d);
    } else if q < q' {
      assert (q' - q) * d == r - r' by { assert (q' - q) * d == q' * d - q * d; }
      AtLeastOnce(q' - q, d);
    }
  }

  /**
   * The field of width m at scale a, `(x / a) % m`, put back at scale a above the bits below it,
   * is x modulo a * m.
   */
  lemma FieldSplit(x: nat, a: nat, m: nat)
    requires a > 0 && m > 0
    ensures ((x / a) % m) * a + x % a == x % (a * m)
    ensures x / (a * m) == (x / a) / m
  {
    var q, r := x / a, x % a;
    DivMod(x, a);
    var hi, lo := q / m, q % m;
    DivMod(q, m);
    Regroup(hi, m, lo, a);
    LowPart(lo, m, a, r);
    DivModUnique(x, a * m, hi, lo * a + r);
  }

  lemma Regroup(hi: nat, m: nat, lo: nat, a: nat)
    ensures (hi * m + lo) * a == hi * (a * m) + lo * a
  {
  }

  lemma LowPart(lo: nat, m: nat, a: nat, r: nat)
    requires lo < m && r < a
    ensures lo * a + r < a * m
  {
    assert lo * a <= (m - 1) * a by { MulLe(lo, m - 1, a); }
  }

  lemma MulLe(x: nat, y: nat, a: nat)
    requires x <= y
    ensures x * a <= y * a
  {
  }
}
