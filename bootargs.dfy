/**
 * The boot-argument parsers of kern/src/bootargs.rs: comma-separated `key=value` lists,
 * integers with a radix prefix, times with a unit suffix, and the per-partition duration
 * accounting of a `--scheduler` table.
 */
module Bootargs {
  import opened Wrappers
  import opened Machine

  /** APEX_TIME_INFINITY */
  const APEX_TIME_INFINITY: int := -1

  /** An `ApexSystemTime` as the parsers produce it: a non-negative count of nanoseconds or the infinite time. */
  type ApexTime = t: int | t >= APEX_TIME_INFINITY

  // ---------------------------------------------------------------------------
  // `str::split` on one character

  /** `s.split(sep)`: the pieces between occurrences of `sep`, always at least one. */
  function Split(s: string, sep: char): (r: seq<string>)
    ensures |r| >= 1
    ensures forall i | 0 <= i < |r| :: sep !in r[i]
  {
    if s == [] then [[]]
    else if s[0] == sep then [[]] + Split(s[1..], sep)
    else
      var rest := Split(s[1..], sep);
      [[s[0]] + rest[0]] + rest[1..]
  }

  /** The pieces put back together with `sep` between them. */
  function Join(parts: seq<string>, sep: char): string
    requires |parts| >= 1
  {
    if |parts| == 1 then parts[0] else parts[0] + [sep] + Join(parts[1..], sep)
  }

  /** Splitting loses nothing: joining the pieces gives the string back. */
  lemma {:induction false} JoinSplit(s: string, sep: char)
    ensures Join(Split(s, sep), sep) == s
  {
    if s != [] {
      JoinSplit(s[1..], sep);
      var rest := Split(s[1..], sep);
      if s[0] == sep {
        assert Split(s, sep)[1..] == rest;
      } else {
        var r := Split(s, sep);
        if |rest| == 1 {
          assert r == [[s[0]] + rest[0]];
        } else {
          assert r[1..] == rest[1..];
          assert Join(r, sep) == [s[0]] + rest[0] + [sep] + Join(rest[1..], sep);
        }
      }
    }
  }

  /** Splitting the joined pieces gives the pieces back, when none contains `sep`. */
  lemma {:induction false} SplitJoin(parts: seq<string>, sep: char)
    requires |parts| >= 1 && forall i | 0 <= i < |parts| :: sep !in parts[i]
    ensures Split(Join(parts, sep), sep) == parts
    decreases |parts|, |parts[0]|
  {
    var p := parts[0];
    if p == [] {
      if |parts| > 1 {
        SplitJoin(parts[1..], sep);
        assert Join(parts, sep) == [sep] + Join(parts[1..], sep);
        assert ([sep] + Join(parts[1..], sep))[1..] == Join(parts[1..], sep);
      }
    } else {
      var shorter := [p[1..]] + parts[1..];
      assert forall i | 1 <= i < |shorter| :: shorter[i] == parts[i];
      SplitJoin(shorter, sep);
      if |parts| == 1 {
        assert Join(shorter, sep) == p[1..];
      } else {
        assert shorter[1..] == parts[1..];
        assert Join(parts, sep) == [p[0]] + Join(shorter, sep);
      }
      assert Join(parts, sep)[1..] == Join(shorter, sep);
      assert [p[0]] + p[1..] == p;
    }
  }

  // ---------------------------------------------------------------------------
  // `iter_key_value` and `parse_key_value`

  /**
   * How one `key=value` entry fails: without any '=' the `unwrap` of the value panics;
   * with a second '=' the entry is an invalid argument.
   */
  datatype KvError = MissingValue | InvalidArgument

  /** One entry `key=value` split on '='. */
  function KeyValue(entry: string): Result<(string, string), KvError> {
    var a := Split(entry, '=');
    if |a| < 2 then Err(MissingValue)
    else if |a| > 2 then Err(InvalidArgument)
    else Ok((a[0], a[1]))
  }

  /** An entry is well formed when it holds exactly one '='. */
  ghost predicate WellFormed(entry: string) {
    |Split(entry, '=')| == 2
  }

  /** A well-formed entry reads `key=value`. */
  lemma KeyValueJoin(entry: string)
    requires KeyValue(entry).Ok?
    ensures var (k, v) := KeyValue(entry).value; entry == k + "=" + v
  {
    JoinSplit(entry, '=');
    var a := Split(entry, '=');
    assert Join(a, '=') == a[0] + ['='] + Join(a[1..], '=');
  }

  /** The position of the first entry that is not well formed, or the length when all are. */
  ghost function FirstBad(entries: seq<string>): (i: nat)
    ensures i <= |entries| && forall j | 0 <= j < i :: WellFormed(entries[j])
    ensures i < |entries| ==> !WellFormed(entries[i])
  {
    if entries == [] then 0
    else if !WellFormed(entries[0]) then 0
    else
      var i := FirstBad(entries[1..]);
      assert forall j | 1 <= j < |entries| :: entries[j] == entries[1..][j - 1];
      1 + i
  }

  /** The entries in order, the first failing one deciding the error. */
  function Pairs(entries: seq<string>): (r: Result<seq<(string, string)>, KvError>)
    ensures r.Ok? <==> forall i | 0 <= i < |entries| :: WellFormed(entries[i])
    ensures r.Ok? ==> |r.value| == |entries| && forall i | 0 <= i < |entries| :: KeyValue(entries[i]) == Ok(r.value[i])
  {
    if entries == [] then Ok([])
    else
      match KeyValue(entries[0])
      case Err(k) => Err(k)
      case Ok(kv) =>
        var rest := Pairs(entries[1..]);
        assert forall i | 1 <= i < |entries| :: entries[i] == entries[1..][i - 1];
        if rest.Err? then Err(rest.error)
        else Ok([kv] + rest.value)
  }

  /** A failure is the failure of the first entry that is not well formed. */
  lemma {:induction false} PairsError(entries: seq<string>)
    requires Pairs(entries).Err?
    ensures FirstBad(entries) < |entries| && Pairs(entries) == Err(KeyValue(entries[FirstBad(entries)]).error)
  {
    if KeyValue(entries[0]).Ok? {
      PairsError(entries[1..]);
      assert entries[1..][FirstBad(entries[1..])] == entries[FirstBad(entries)];
    }
  }

  /**
   * `iter_key_value`: the comma-separated entries as (key, value) pairs; every entry is
   * checked before any pair is handed out.
   */
  function IterKeyValue(args: string): Result<seq<(string, string)>, KvError> {
    Pairs(Split(args, ','))
  }

  /** `parse_key_value`: the value of the first pair whose key is `key`. */
  function ParseKeyValue(config: seq<(string, string)>, key: string): (r: Option<string>)
    ensures r.None? <==> forall i | 0 <= i < |config| :: config[i].0 != key
    ensures r.Some? ==> exists i | 0 <= i < |config| :: config[i] == (key, r.value) &&
                          forall j | 0 <= j < i :: config[j].0 != key
  {
    if config == [] then None
    else if config[0].0 == key then
      assert config[0] == (key, config[0].1);
      Some(config[0].1)
    else
      var r := ParseKeyValue(config[1..], key);
      assert forall i | 1 <= i < |config| :: config[i] == config[1..][i - 1];
      if r.Some? then
        ghost var i :| 0 <= i < |config[1..]| && config[1..][i] == (key, r.value) &&
                       forall j | 0 <= j < i :: config[1..][j].0 != key;
        assert config[i + 1] == (key, r.value);
        r
      else r
  }

  // ---------------------------------------------------------------------------
  // Integers: `from_str_radix` and `parse_usize_from_proper_redix`

  /** The kinds of `ParseIntError`. */
  datatype IntErrorKind = Empty | InvalidDigit | PosOverflow | NegOverflow

  /** `char::to_digit(radix)`: decimal digits, then letters of either case from 10 up. */
  function ToDigit(c: char, radix: nat): (r: Option<nat>)
    ensures r.Some? ==> r.value < radix
  {
    var d := if '0' <= c <= '9' then c as int - '0' as int
             else if 'a' <= c <= 'z' then c as int - 'a' as int + 10
             else if 'A' <= c <= 'Z' then c as int - 'A' as int + 10
             else 36;
    if d < radix then Some(d) else None
  }

  /** The digit character for `d`, lower case from 10 up. */
  function DigitChar(d: nat): char
    requires d < 36
  {
    if d < 10 then ('0' as int + d) as char else ('a' as int + d - 10) as char
  }

  lemma DigitRoundTrip(d: nat, radix: nat)
    requires d < radix <= 36
    ensures ToDigit(DigitChar(d), radix) == Some(d)
  {
  }

  /**
   * Reading `digits` left to right, each step multiplying by `radix` and adding the
   * digit, failing at the first non-digit, or as soon as the value passes `max`.
   */
  function Accumulate(digits: string, radix: nat, max: nat, overflow: IntErrorKind): (r: Result<nat, IntErrorKind>)
    ensures r.Ok? ==> r.value <= max
    decreases |digits|
  {
    if digits == [] then Ok(0)
    else
      var prefix := Accumulate(digits[..|digits| - 1], radix, max, overflow);
      var d := ToDigit(digits[|digits| - 1], radix);
      if prefix.Err? then prefix
      else if d.None? then Err(InvalidDigit)
      else if prefix.value * radix + d.value > max then Err(overflow)
      else Ok(prefix.value * radix + d.value)
  }

  /**
   * `from_str_radix` for an integer type whose values run from `-negMax` to `posMax`:
   * a lone sign is an invalid digit, '+' is skipped, '-' negates (an invalid digit for
   * unsigned types, whose `negMax` is 0).
   */
  function FromStrRadix(s: string, radix: nat, posMax: nat, negMax: nat): (r: Result<int, IntErrorKind>)
    ensures r.Ok? ==> -(negMax as int) <= r.value <= posMax
  {
    if s == [] then Err(Empty)
    else if (s[0] == '+' || s[0] == '-') && |s| == 1 then Err(InvalidDigit)
    else if s[0] == '+' then
      var v :- Accumulate(s[1..], radix, posMax, PosOverflow); Ok(v)
    else if s[0] == '-' && negMax > 0 then
      var v :- Accumulate(s[1..], radix, negMax, NegOverflow); Ok(0 - v)
    else
      var v :- Accumulate(s, radix, posMax, PosOverflow); Ok(v)
  }

  /** `s` starts with one of the two-character `prefixes`. */
  predicate HasPrefix(s: string, prefixes: seq<string>) {
    |s| >= 2 && s[..2] in prefixes
  }

  /** The radix a prefix selects: 0x/0X/0h/0H for 16, 0o/0O for 8, 0b/0B for 2, none for 10. */
  function Radix(s: string): (radix: nat) {
    if HasPrefix(s, ["0x", "0X", "0h", "0H"]) then 16
    else if HasPrefix(s, ["0o", "0O"]) then 8
    else if HasPrefix(s, ["0b", "0B"]) then 2
    else 10
  }

  /** `parse_usize_from_proper_redix`: the digits after the prefix, in the radix it selects. */
  function ParseUsizeFromProperRadix(s: string): (r: Result<int, IntErrorKind>)
    ensures r.Ok? ==> 0 <= r.value <= USIZE_MAX
  {
    var radix := Radix(s);
    FromStrRadix(if radix == 10 then s else s[2..], radix, USIZE_MAX, 0)
  }

  /** `n` written in `radix` with no leading zeros ("0" for zero). */
  function Render(n: nat, radix: nat): (r: string)
    requires 2 <= radix <= 36
    ensures |r| >= 1
    decreases n
  {
    if n < radix then [DigitChar(n)] else Render(n / radix, radix) + [DigitChar(n % radix)]
  }

  /** Reading one more digit multiplies by the radix and adds it. */
  lemma AccumulateSnoc(s: string, c: char, radix: nat, max: nat, overflow: IntErrorKind, v: nat, d: nat)
    requires Accumulate(s, radix, max, overflow) == Ok(v) && ToDigit(c, radix) == Some(d) && v * radix + d <= max
    ensures Accumulate(s + [c], radix, max, overflow) == Ok(v * radix + d)
  {
    assert (s + [c])[..|s|] == s;
  }

  lemma QuotientSmaller(n: nat, radix: nat)
    requires 2 <= radix <= n
    ensures n / radix < n
  {
    DivMod(n, radix);
  }

  /** A rendering of two or more digits is the rendering of the quotient followed by the last digit. */
  lemma RenderStep(n: nat, radix: nat, max: nat, overflow: IntErrorKind)
    requires 2 <= radix <= 36 && radix <= n <= max
    requires Accumulate(Render(n / radix, radix), radix, max, overflow) == Ok(n / radix)
    ensures Accumulate(Render(n, radix), radix, max, overflow) == Ok(n)
  {
    var q, m := n / radix, n % radix;
    DivMod(n, radix);
    DigitRoundTrip(m, radix);
    AccumulateSnoc(Render(q, radix), DigitChar(m), radix, max, overflow, q, m);
  }

  /** Reading back a rendered number gives the number, when it does not pass `max`. */
  lemma {:induction false} AccumulateRender(n: nat, radix: nat, max: nat, overflow: IntErrorKind)
    requires 2 <= radix <= 36 && n <= max
    ensures Accumulate(Render(n, radix), radix, max, overflow) == Ok(n)
    decreases n
  {
    if n < radix {
      DigitRoundTrip(n, radix);
      assert Render(n, radix) == [] + [DigitChar(n)];
      AccumulateSnoc([], DigitChar(n), radix, max, overflow, 0, n);
    } else {
      QuotientSmaller(n, radix);
      AccumulateRender(n / radix, radix, max, overflow);
      RenderStep(n, radix, max, overflow);
    }
  }

  /** Every character of a rendering is a digit of the radix, and none is a sign. */
  lemma {:induction false} RenderDigits(n: nat, radix: nat)
    requires 2 <= radix <= 36
    ensures forall i | 0 <= i < |Render(n, radix)| :: ToDigit(Render(n, radix)[i], radix).Some?
    decreases n
  {
    DigitRoundTrip(n % radix, radix);
    if n >= radix {
      QuotientSmaller(n, radix);
      RenderDigits(n / radix, radix);
      assert Render(n, radix) == Render(n / radix, radix) + [DigitChar(n % radix)];
    } else {
      DigitRoundTrip(n, radix);
    }
  }

  /** The radix prefix each base is written with. */
  function Prefix(radix: nat): string {
    if radix == 16 then "0x" else if radix == 8 then "0o" else if radix == 2 then "0b" else ""
  }

  /** Digits that read as `n` parse as `n`: the first is not a sign. */
  lemma FromDigits(digits: string, radix: nat, n: nat, posMax: nat, negMax: nat)
    requires radix <= 36 && digits != [] && ToDigit(digits[0], radix).Some? && Accumulate(digits, radix, posMax, PosOverflow) == Ok(n)
    ensures FromStrRadix(digits, radix, posMax, negMax) == Ok(n)
  {
    assert digits[0] != '+' && digits[0] != '-';
  }

  /** Decimal digits carry no radix prefix. */
  lemma DecimalUnprefixed(digits: string)
    requires |digits| >= 2 && ToDigit(digits[1], 10).Some?
    ensures Radix(digits) == 10
  {
    assert '0' <= digits[1] <= '9';
    assert digits[..2][1] == digits[1];
  }

  /** Every usize written with the prefix of radix 16, 8, 2 or 10 parses back to itself. */
  lemma ParseRender(n: nat, radix: nat)
    requires (radix == 16 || radix == 8 || radix == 2 || radix == 10) && n <= USIZE_MAX
    ensures ParseUsizeFromProperRadix(Prefix(radix) + Render(n, radix)) == Ok(n)
  {
    var digits := Render(n, radix);
    AccumulateRender(n, radix, USIZE_MAX, PosOverflow);
    RenderDigits(n, radix);
    FromDigits(digits, radix, n, USIZE_MAX, 0);
    var s := Prefix(radix) + digits;
    if radix == 10 {
      assert s == digits;
      if |digits| >= 2 {
        DecimalUnprefixed(digits);
      }
    } else {
      assert s[..2] == Prefix(radix) && s[2..] == digits;
    }
  }

  // ---------------------------------------------------------------------------
  // Times: `parse_time_from_proper_unit`

  /** i64::MAX, the range of `ApexSystemTime` being -(I64_MAX + 1) to I64_MAX. */
  const I64_MAX: nat := 0x7fff_ffff_ffff_ffff

  datatype TimeError = InvalidTimeUnit | InvalidTimeValue

  predicate EndsWith(s: string, suffix: string) {
    |s| >= |suffix| && s[|s| - |suffix|..] == suffix
  }

  /**
   * The unit a suffix selects and the digits before it: "ns" (tested before "s") ×1,
   * "us" ×1000, "ms" ×10^6, "s" ×10^9; a bare "0" is 0 of unit 1; anything else has no unit.
   */
  function Unit(s: string): Option<(nat, string)> {
    if EndsWith(s, "ns") then Some((1, s[..|s| - 2]))
    else if EndsWith(s, "us") then Some((1000, s[..|s| - 2]))
    else if EndsWith(s, "ms") then Some((1000 * 1000, s[..|s| - 2]))
    else if EndsWith(s, "s") then Some((1000 * 1000 * 1000, s[..|s| - 1]))
    else if s == "0" then Some((1, s))
    else None
  }

  /**
   * `parse_time_from_proper_unit`: the value before the unit, read as an i64, times the
   * unit; a negative time is the infinite time.
   */
  function ParseTimeFromProperUnit(s: string): (r: Result<ApexTime, TimeError>) {
    match Unit(s)
    case None => Err(InvalidTimeUnit)
    case Some((unit, digits)) =>
      var v := FromStrRadix(digits, 10, I64_MAX, I64_MAX + 1);
      if v.Err? then Err(InvalidTimeValue)
      else if v.value * unit < 0 then Ok(APEX_TIME_INFINITY)
      else Ok(v.value * unit)
  }

  /** Only a string ending in 's', or "0", has a unit. */
  lemma UnitRequired(s: string)
    ensures ParseTimeFromProperUnit(s) == Err(InvalidTimeUnit) <==> !EndsWith(s, "s") && s != "0"
  {
    if EndsWith(s, "ns") || EndsWith(s, "us") || EndsWith(s, "ms") {
      assert s[|s| - 1..] == s[|s| - 2..][1..];
    }
  }

  /** The factor of each unit suffix. */
  function Factor(suffix: string): nat {
    if suffix == "ns" then 1 else if suffix == "us" then 1000 else if suffix == "ms" then 1000 * 1000 else 1000 * 1000 * 1000
  }

  /** A rendered number followed by a unit: the unit is recognised and the value is what precedes it. */
  lemma UnitOfRendered(sign: string, n: nat, suffix: string)
    requires suffix in ["ns", "us", "ms", "s"]
    ensures Unit(sign + Render(n, 10) + suffix) == Some((Factor(suffix), sign + Render(n, 10)))
  {
    var digits := sign + Render(n, 10);
    var s := digits + suffix;
    RenderDigits(n, 10);
    assert digits[|digits| - 1] == Render(n, 10)[|Render(n, 10)| - 1];
    assert ToDigit(digits[|digits| - 1], 10).Some?;
    assert s[..|s| - |suffix|] == digits;
    assert s[|s| - |suffix|..] == suffix;
    if suffix == "s" {
      assert s[|s| - 2] == digits[|digits| - 1];
      assert !EndsWith(s, "ns") && !EndsWith(s, "us") && !EndsWith(s, "ms");
    }
  }

  /** Every non-negative i64 count of a unit parses to that many times the unit's factor. */
  lemma ParseTimeRender(n: nat, suffix: string)
    requires suffix in ["ns", "us", "ms", "s"] && n <= I64_MAX
    ensures ParseTimeFromProperUnit(Render(n, 10) + suffix) == Ok(n * Factor(suffix))
  {
    var digits := Render(n, 10);
    UnitOfRendered("", n, suffix);
    assert "" + digits + suffix == digits + suffix && "" + digits == digits;
    AccumulateRender(n, 10, I64_MAX, PosOverflow);
    RenderDigits(n, 10);
    FromDigits(digits, 10, n, I64_MAX, I64_MAX + 1);
    Product(n, Factor(suffix));
  }

  lemma Product(a: nat, b: nat)
    ensures a * b >= 0 && (a > 0 && b > 0 ==> (0 - a) * b < 0)
  {
  }

  /** Every negative i64 count of a unit parses to the infinite time. */
  lemma ParseTimeNegative(n: nat, suffix: string)
    requires suffix in ["ns", "us", "ms", "s"] && 0 < n <= I64_MAX + 1
    ensures ParseTimeFromProperUnit("-" + Render(n, 10) + suffix) == Ok(APEX_TIME_INFINITY)
  {
    UnitOfRendered("-", n, suffix);
    NegativeValue(n);
    Product(n, Factor(suffix));
  }

  /** A '-' before rendered digits reads as the negated number, down to -(I64_MAX + 1). */
  lemma NegativeValue(n: nat)
    requires 0 < n <= I64_MAX + 1
    ensures FromStrRadix("-" + Render(n, 10), 10, I64_MAX, I64_MAX + 1) == Ok(0 - n)
  {
    var digits := Render(n, 10);
    AccumulateRender(n, 10, I64_MAX + 1, NegOverflow);
    var signed := "-" + digits;
    assert signed[1..] == digits && signed[0] == '-' && |signed| >= 2;
  }

  /** A bare "0" is the zero time. */
  lemma ParseTimeZero()
    ensures ParseTimeFromProperUnit("0") == Ok(0)
  {
    assert !EndsWith("0", "s");
    assert Accumulate("0", 10, I64_MAX, PosOverflow) == Ok(0) by {
      assert "0"[..0] == [];
    }
  }

  // ---------------------------------------------------------------------------
  // The duration accounting of `scheduler`

  /** One parsed `--scheduler` table entry: the partition it names, its offset and its duration. */
  datatype SchedEntry = SchedEntry(partition: nat, offset: ApexTime, duration: ApexTime)

  /** The panics of the accounting loop and of the final budget check. */
  datatype SchedError =
    | InvalidOffset(offset: ApexTime)
    | UnknownPartition(partition: nat)
    | InvalidDuration(duration: ApexTime, left: ApexTime)
    | DurationLeft

  /** An offset lies inside the major frame, unless the frame is infinite. */
  predicate OffsetOk(frame: ApexTime, offset: ApexTime) {
    frame == APEX_TIME_INFINITY || (offset != APEX_TIME_INFINITY && offset < frame)
  }

  /**
   * One entry against the budgets left so far (a partition starts from its own
   * duration): an infinite budget stays infinite, a finite one is charged the entry's
   * duration and may not be overdrawn.
   */
  function Charge(frame: ApexTime, quota: map<nat, ApexTime>, left: map<nat, ApexTime>, e: SchedEntry): Result<map<nat, ApexTime>, SchedError> {
    if !OffsetOk(frame, e.offset) then Err(InvalidOffset(e.offset))
    else if e.partition !in quota then Err(UnknownPartition(e.partition))
    else
      var cur := if e.partition in left then left[e.partition] else quota[e.partition];
      if cur == APEX_TIME_INFINITY then Ok(left[e.partition := APEX_TIME_INFINITY])
      else if cur < e.duration then Err(InvalidDuration(e.duration, cur))
      else Ok(left[e.partition := cur - e.duration])
  }

  /** The entries charged in order; the first failure stops the accounting. */
  function Account(frame: ApexTime, quota: map<nat, ApexTime>, entries: seq<SchedEntry>): Result<map<nat, ApexTime>, SchedError>
    decreases |entries|
  {
    if entries == [] then Ok(map[])
    else
      var left :- Account(frame, quota, entries[..|entries| - 1]);
      Charge(frame, quota, left, entries[|entries| - 1])
  }

  /** Every budget was used up exactly, or is infinite. */
  predicate Settled(left: map<nat, ApexTime>) {
    forall p | p in left :: left[p] == 0 || left[p] == APEX_TIME_INFINITY
  }

  /** The sum of the durations of the entries for partition `p`. */
  function DurationOf(entries: seq<SchedEntry>, p: nat): int
    decreases |entries|
  {
    if entries == [] then 0
    else
      var e := entries[|entries| - 1];
      DurationOf(entries[..|entries| - 1], p) + (if e.partition == p then e.duration else 0)
  }

  /** `p` is named by some entry. */
  ghost predicate Named(entries: seq<SchedEntry>, p: nat) {
    exists i | 0 <= i < |entries| :: entries[i].partition == p
  }

  /**
   * What the accounting computes: an entry for exactly the partitions the table names,
   * each known and each entry's offset inside the frame; an infinite budget stays
   * infinite, a finite one is its partition's duration less the durations of its entries.
   */
  ghost predicate Charged(frame: ApexTime, quota: map<nat, ApexTime>, entries: seq<SchedEntry>, left: map<nat, ApexTime>) {
    && (forall i | 0 <= i < |entries| :: OffsetOk(frame, entries[i].offset) && entries[i].partition in quota)
    && (forall p :: p in left <==> Named(entries, p))
    && (forall p | p in left :: p in quota &&
          if quota[p] == APEX_TIME_INFINITY then left[p] == APEX_TIME_INFINITY
          else left[p] == quota[p] - DurationOf(entries, p) && left[p] >= 0)
  }

  /** The partitions named by a table with one more entry. */
  lemma NamedSnoc(entries: seq<SchedEntry>, e: SchedEntry, p: nat)
    ensures Named(entries + [e], p) <==> Named(entries, p) || e.partition == p
  {
    var all := entries + [e];
    if Named(all, p) {
      var i :| 0 <= i < |all| && all[i].partition == p;
      if i < |entries| {
        assert entries[i].partition == p;
      }
    }
    if Named(entries, p) {
      var i :| 0 <= i < |entries| && entries[i].partition == p;
      assert all[i].partition == p;
    }
    if e.partition == p {
      assert all[|entries|].partition == p;
    }
  }

  /** Charging one more entry keeps the meaning of the budgets. */
  lemma ChargeKeeps(frame: ApexTime, quota: map<nat, ApexTime>, entries: seq<SchedEntry>, left: map<nat, ApexTime>, e: SchedEntry)
    requires Charged(frame, quota, entries, left) && Charge(frame, quota, left, e).Ok?
    ensures Charged(frame, quota, entries + [e], Charge(frame, quota, left, e).value)
  {
    var all := entries + [e];
    assert all[..|all| - 1] == entries;
    forall p
      ensures Named(all, p) <==> Named(entries, p) || e.partition == p
    {
      NamedSnoc(entries, e, p);
    }
    if e.partition !in left {
      assert !Named(entries, e.partition);
      DurationAbsent(entries, e.partition);
    }
  }

  /** A partition no entry names has been charged nothing. */
  lemma {:induction false} DurationAbsent(entries: seq<SchedEntry>, p: nat)
    requires !Named(entries, p)
    ensures DurationOf(entries, p) == 0
    decreases |entries|
  {
    if entries != [] {
      var init := entries[..|entries| - 1];
      assert entries[|entries| - 1].partition != p;
      assert !Named(init, p) by {
        forall i | 0 <= i < |init|
          ensures init[i].partition != p
        {
          assert init[i] == entries[i];
        }
      }
      DurationAbsent(init, p);
    }
  }

  /** A table the accounting accepts has the meaning `Charged` describes. */
  lemma {:induction false} AccountMeaning(frame: ApexTime, quota: map<nat, ApexTime>, entries: seq<SchedEntry>)
    requires Account(frame, quota, entries).Ok?
    ensures Charged(frame, quota, entries, Account(frame, quota, entries).value)
    decreases |entries|
  {
    if entries != [] {
      var n := |entries| - 1;
      var init := entries[..n];
      AccountMeaning(frame, quota, init);
      assert init + [entries[n]] == entries;
      ChargeKeeps(frame, quota, init, Account(frame, quota, init).value, entries[n]);
    }
  }

  /**
   * A table the scheduler accepts charges every partition with a finite duration exactly
   * that duration over its entries.
   */
  lemma DurationsSumUp(frame: ApexTime, quota: map<nat, ApexTime>, entries: seq<SchedEntry>, p: nat)
    requires Account(frame, quota, entries).Ok? && Settled(Account(frame, quota, entries).value)
    requires p in quota && quota[p] != APEX_TIME_INFINITY && Named(entries, p)
    ensures DurationOf(entries, p) == quota[p]
  {
    AccountMeaning(frame, quota, entries);
  }

  /**
   * The accounting of `scheduler`: charge each entry of the table in order to its
   * partition, then require every budget to be used up or infinite.
   */
  method Schedule(frame: ApexTime, quota: map<nat, ApexTime>, entries: seq<SchedEntry>) returns (r: Result<map<nat, ApexTime>, SchedError>)
    ensures var a := Account(frame, quota, entries);
            r == if a.Err? then a else if Settled(a.value) then a else Err(DurationLeft)
  {
    var left: map<nat, ApexTime> := map[];
    var i := 0;
    while i < |entries|
      invariant 0 <= i <= |entries|
      invariant Account(frame, quota, entries[..i]) == Ok(left)
    {
      var e := entries[i];
      assert entries[..i + 1][..i] == entries[..i];
      if frame != APEX_TIME_INFINITY && (e.offset == APEX_TIME_INFINITY || e.offset >= frame) {
        AccountStops(frame, quota, entries, i + 1);
        return Err(InvalidOffset(e.offset));
      }
      if e.partition !in quota {
        AccountStops(frame, quota, entries, i + 1);
        return Err(UnknownPartition(e.partition));
      }
      var cur := if e.partition in left then left[e.partition] else quota[e.partition];
      if cur == APEX_TIME_INFINITY {
        left := left[e.partition := APEX_TIME_INFINITY];
      } else if cur < e.duration {
        AccountStops(frame, quota, entries, i + 1);
        return Err(InvalidDuration(e.duration, cur));
      } else {
        left := left[e.partition := cur - e.duration];
      }
      i := i + 1;
    }
    assert entries[..i] == entries;
    if !Settled(left) {
      return Err(DurationLeft);
    }
    return Ok(left);
  }

  /** Once a prefix of the table fails, the whole table fails the same way. */
  lemma {:induction false} AccountStops(frame: ApexTime, quota: map<nat, ApexTime>, entries: seq<SchedEntry>, k: nat)
    requires k <= |entries| && Account(frame, quota, entries[..k]).Err?
    ensures Account(frame, quota, entries) == Account(frame, quota, entries[..k])
    decreases |entries| - k
  {
    if k < |entries| {
      assert entries[..k + 1][..k] == entries[..k];
      AccountStops(frame, quota, entries, k + 1);
    } else {
      assert entries[..k] == entries;
    }
  }
}
