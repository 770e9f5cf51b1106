/**
 * The APEX value codecs of apex/src/basic.rs (names, return codes, port direction and
 * queue discipline) and the operating-mode codec of apex/src/partition.rs. Strings are
 * their UTF-8 bytes.
 */
module Apex {
  import opened Wrappers

  const APEX_NAME_MAX_LEN: nat := 32
  const APEX_LOCK_LEVEL_MIN: int := 0

  type Byte = b: int | 0 <= b < 256

  /** `ApexUnsigned`, a u32. */
  type ApexUnsigned = x: int | 0 <= x < 0x1_0000_0000

  /** An `ApexName`: a fixed array of 32 bytes. */
  type Name = s: seq<Byte> | |s| == APEX_NAME_MAX_LEN witness seq(APEX_NAME_MAX_LEN, _ => 0)

  /** n zero bytes. */
  function Zeros(n: nat): (r: seq<Byte>)
    ensures |r| == n && forall i | 0 <= i < n :: r[i] == 0
  {
    if n == 0 then [] else [0] + Zeros(n - 1)
  }

  /** The bytes of `value` followed by zeros up to 32 bytes. */
  function Padded(value: seq<Byte>): (r: Name)
    requires |value| <= APEX_NAME_MAX_LEN
    ensures r[..|value|] == value && forall i | |value| <= i < APEX_NAME_MAX_LEN :: r[i] == 0
  {
    value + Zeros(APEX_NAME_MAX_LEN - |value|)
  }

  /** `ApexName::try_from(&str)`: names longer than 32 bytes are handed back as the error. */
  function NameFromStr(value: seq<Byte>): (r: Result<Name, seq<Byte>>)
    ensures r.Err? <==> |value| > APEX_NAME_MAX_LEN
    ensures r.Err? ==> r.error == value
    ensures r.Ok? ==> r.value[..|value|] == value && forall i | |value| <= i < APEX_NAME_MAX_LEN :: r.value[i] == 0
  {
    if |value| > APEX_NAME_MAX_LEN then Err(value) else Ok(Padded(value))
  }

  /** `position(|&c| c == 0).unwrap_or(len)`: the length of the part before the first zero byte. */
  function FirstNul(s: seq<Byte>): (n: nat)
    ensures n <= |s|
    ensures forall i | 0 <= i < n :: s[i] != 0
    ensures n < |s| ==> s[n] == 0
  {
    if s == [] || s[0] == 0 then 0 else 1 + FirstNul(s[1..])
  }

  // ---------------------------------------------------------------------------
  // UTF-8 well-formedness (`core::str::from_utf8`), after Table 3-7 of The Unicode Standard

  predicate Cont(b: Byte) {
    0x80 <= b <= 0xBF
  }

  /** The second byte of a three- or four-byte character after the lead byte `b`. */
  predicate SecondOk(b: Byte, c: Byte) {
    if b == 0xE0 then 0xA0 <= c <= 0xBF
    else if b == 0xED then 0x80 <= c <= 0x9F
    else if b == 0xF0 then 0x90 <= c <= 0xBF
    else if b == 0xF4 then 0x80 <= c <= 0x8F
    else Cont(c)
  }

  /** The length of the well-formed character at the front of `s`, or 0 when there is none. */
  function CharLen(s: seq<Byte>): (n: nat)
    ensures n <= |s| && n <= 4
    ensures s != [] && s[0] <= 0x7F ==> n == 1
  {
    if s == [] then 0
    else
      var b := s[0];
      if b <= 0x7F then 1
      else if 0xC2 <= b <= 0xDF then
        if |s| >= 2 && Cont(s[1]) then 2 else 0
      else if 0xE0 <= b <= 0xEF then
        if |s| >= 3 && SecondOk(b, s[1]) && Cont(s[2]) then 3 else 0
      else if 0xF0 <= b <= 0xF4 then
        if |s| >= 4 && SecondOk(b, s[1]) && Cont(s[2]) && Cont(s[3]) then 4 else 0
      else 0
  }

  /** `s` is a sequence of well-formed UTF-8 characters. */
  predicate Utf8(s: seq<Byte>)
    decreases |s|
  {
    s == [] || (CharLen(s) > 0 && Utf8(s[CharLen(s)..]))
  }

  /** Plain ASCII is well-formed UTF-8. */
  lemma {:induction false} AsciiIsUtf8(s: seq<Byte>)
    requires forall i | 0 <= i < |s| :: s[i] <= 0x7F
    ensures Utf8(s)
    decreases |s|
  {
    if s != [] {
      AsciiIsUtf8(s[1..]);
    }
  }

  /** The bytes of "<invalid utf8>". */
  const INVALID_UTF8: seq<Byte> := [0x3C, 0x69, 0x6E, 0x76, 0x61, 0x6C, 0x69, 0x64, 0x20, 0x75, 0x74, 0x66, 0x38, 0x3E]

  /** Printable ASCII, space to tilde: UTF-8 with no zero byte, as "<invalid utf8>" is. */
  predicate Printable(s: seq<Byte>) {
    forall i | 0 <= i < |s| :: 0x20 <= s[i] <= 0x7E
  }

  /**
   * `Debug` (and `Display`) of an `ApexName`: the bytes before the first zero byte when
   * they are UTF-8, "<invalid utf8>" otherwise.
   */
  function NameDebug(name: Name): (r: seq<Byte>)
    ensures Utf8(r)
    ensures Utf8(name[..FirstNul(name)]) ==> r == name[..FirstNul(name)]
    ensures !Utf8(name[..FirstNul(name)]) ==> r == INVALID_UTF8
    ensures forall i | 0 <= i < |r| :: r[i] != 0
  {
    var text := name[..FirstNul(name)];
    assert Printable(INVALID_UTF8);
    AsciiIsUtf8(INVALID_UTF8);
    if Utf8(text) then text else INVALID_UTF8
  }

  /** The name of a string has its zero padding exactly after the string. */
  lemma PaddedNul(value: seq<Byte>)
    requires |value| <= APEX_NAME_MAX_LEN && forall i | 0 <= i < |value| :: value[i] != 0
    ensures FirstNul(Padded(value)) == |value|
  {
    var p := Padded(value);
    assert |value| < |p| ==> p[|value|] == 0;
  }

  /** `Debug` gives back a NUL-free UTF-8 string of at most 32 bytes that became a name. */
  lemma NameRoundTrip(value: seq<Byte>)
    requires |value| <= APEX_NAME_MAX_LEN && Utf8(value)
    requires forall i | 0 <= i < |value| :: value[i] != 0
    ensures NameFromStr(value).Ok? && NameDebug(NameFromStr(value).value) == value
  {
    PaddedNul(value);
  }

  // ---------------------------------------------------------------------------
  // Return codes

  datatype ApexReturnCode = NoError | NoAction | NotAvailable | InvalidParam | InvalidConfig | InvalidMode | TimedOut

  /** The `repr(u32)` discriminant, `code as usize`. */
  function ReturnCodeValue(c: ApexReturnCode): (n: nat)
    ensures n <= 6
    ensures n == 0 <==> c == NoError
  {
    match c
    case NoError => 0
    case NoAction => 1
    case NotAvailable => 2
    case InvalidParam => 3
    case InvalidConfig => 4
    case InvalidMode => 5
    case TimedOut => 6
  }

  /** `ApexReturnCode::from(usize)`; any value above 6 ends in `unimplemented!`. */
  function ReturnCodeFrom(value: nat): (c: ApexReturnCode)
    requires value <= 6
    ensures ReturnCodeValue(c) == value
  {
    match value
    case 0 => NoError
    case 1 => NoAction
    case 2 => NotAvailable
    case 3 => InvalidParam
    case 4 => InvalidConfig
    case 5 => InvalidMode
    case _ => TimedOut
  }

  /** Decoding a code's discriminant gives the code back. */
  lemma ReturnCodeRoundTrip(c: ApexReturnCode)
    ensures ReturnCodeFrom(ReturnCodeValue(c)) == c
  {
    match c
    case NoError =>
    case NoAction =>
    case NotAvailable =>
    case InvalidParam =>
    case InvalidConfig =>
    case InvalidMode =>
    case TimedOut =>
  }

  /** `as_result`: NoError carries the value, every other code is the error. */
  function AsResult<T>(c: ApexReturnCode, ok: T): (r: Result<T, ApexReturnCode>)
    ensures r.Ok? <==> c == NoError
    ensures r.Ok? ==> r.value == ok
    ensures r.Err? ==> r.error == c
  {
    if c == NoError then Ok(ok) else Err(c)
  }

  // ---------------------------------------------------------------------------
  // Small enumerations

  datatype PortDirection = Source | Destination

  function PortDirectionValue(d: PortDirection): ApexUnsigned {
    if d == Source then 0 else 1
  }

  /** `ApexPortDirection::try_from(u32)`: 0 and 1, any other value is handed back. */
  function PortDirectionFrom(value: ApexUnsigned): (r: Result<PortDirection, ApexUnsigned>)
    ensures r.Ok? <==> value <= 1
    ensures r.Ok? ==> PortDirectionValue(r.value) == value
    ensures r.Err? ==> r.error == value
  {
    match value
    case 0 => Ok(Source)
    case 1 => Ok(Destination)
    case _ => Err(value)
  }

  datatype QueueDiscipline = Fifo | Priority

  function QueueDisciplineValue(q: QueueDiscipline): ApexUnsigned {
    if q == Fifo then 0 else 1
  }

  /** `ApexQueueDiscipline::try_from(u32)`: 0 and 1, any other value is handed back. */
  function QueueDisciplineFrom(value: ApexUnsigned): (r: Result<QueueDiscipline, ApexUnsigned>)
    ensures r.Ok? <==> value <= 1
    ensures r.Ok? ==> QueueDisciplineValue(r.value) == value
    ensures r.Err? ==> r.error == value
  {
    match value
    case 0 => Ok(Fifo)
    case 1 => Ok(Priority)
    case _ => Err(value)
  }

  datatype OperatingMode = Idle | ColdStart | WarmStart | Normal

  function OperatingModeValue(m: OperatingMode): ApexUnsigned {
    match m
    case Idle => 0
    case ColdStart => 1
    case WarmStart => 2
    case Normal => 3
  }

  /** `ApexOperatingMode::try_from(u32)`: 0 to 3, any other value is handed back. */
  function OperatingModeFrom(value: ApexUnsigned): (r: Result<OperatingMode, ApexUnsigned>)
    ensures r.Ok? <==> value <= 3
    ensures r.Ok? ==> OperatingModeValue(r.value) == value
    ensures r.Err? ==> r.error == value
  {
    match value
    case 0 => Ok(Idle)
    case 1 => Ok(ColdStart)
    case 2 => Ok(WarmStart)
    case 3 => Ok(Normal)
    case _ => Err(value)
  }

  /** Each enumeration decodes its own discriminant to itself. */
  lemma EnumRoundTrips(d: PortDirection, q: QueueDiscipline, m: OperatingMode)
    ensures PortDirectionFrom(PortDirectionValue(d)) == Ok(d)
    ensures QueueDisciplineFrom(QueueDisciplineValue(q)) == Ok(q)
    ensures OperatingModeFrom(OperatingModeValue(m)) == Ok(m)
  {
    match m
    case Idle =>
    case ColdStart =>
    case WarmStart =>
    case Normal =>
  }
}
