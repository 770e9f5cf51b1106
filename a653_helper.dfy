/**
 * The name and time conversions of kern/modules/a653/src/helper.rs. The a653rs binding's
 * `ApexName` is a 32-byte array like the one of apex/src/basic.rs, and its
 * `MAX_NAME_LENGTH` is 32.
 */
module A653Helper {
  import opened Wrappers
  import opened Errors
  import opened Machine
  import opened Apex

  const MAX_NAME_LENGTH: nat := 32

  /** a653rs `INFINITE_TIME_VALUE` */
  const INFINITE_TIME_VALUE: int := -1

  /** `ApexSystemTime`, an i64. */
  type SystemTime = t: int | -0x8000_0000_0000_0000 <= t < 0x8000_0000_0000_0000

  datatype Utf8Error = Utf8Error

  /** `convert_name_to_str`: the bytes before the first zero byte, when they are UTF-8. */
  function ConvertNameToStr(name: Name): (r: Result<seq<Byte>, Utf8Error>)
    ensures r.Ok? <==> Utf8(name[..FirstNul(name)])
    ensures r.Ok? ==> r.value == name[..FirstNul(name)] && forall i | 0 <= i < |r.value| :: r.value[i] != 0
  {
    var text := name[..FirstNul(name)];
    if Utf8(text) then Ok(text) else Err(Utf8Error)
  }

  /**
   * `convert_str_to_name`: a string of 32 bytes or more is refused (one byte fewer than
   * `ApexName::try_from` admits); a shorter one is zero-padded.
   */
  function ConvertStrToName(s: seq<Byte>): (r: Result<Name, InternalError>)
    ensures r.Err? <==> |s| >= MAX_NAME_LENGTH
    ensures r.Err? ==> r.error == InvalidApexName
    ensures r.Ok? ==> r.value[..|s|] == s && forall i | |s| <= i < MAX_NAME_LENGTH :: r.value[i] == 0
  {
    if |s| >= MAX_NAME_LENGTH then Err(InvalidApexName) else Ok(Padded(s))
  }

  /** A NUL-free UTF-8 string shorter than 32 bytes survives the trip through a name. */
  lemma NameRoundTrip(s: seq<Byte>)
    requires |s| < MAX_NAME_LENGTH && Utf8(s)
    requires forall i | 0 <= i < |s| :: s[i] != 0
    ensures ConvertStrToName(s).Ok? && ConvertNameToStr(ConvertStrToName(s).value) == Ok(s)
  {
    PaddedNul(s);
  }

  /**
   * The helper is stricter than `ApexName::try_from`: what it accepts, `try_from` turns
   * into the same name, and a string of exactly 32 bytes is accepted only by `try_from`.
   */
  lemma StricterThanTryFrom(s: seq<Byte>)
    ensures ConvertStrToName(s).Ok? ==> NameFromStr(s) == Ok(ConvertStrToName(s).value)
    ensures |s| == APEX_NAME_MAX_LEN ==> ConvertStrToName(s).Err? && NameFromStr(s).Ok?
  {
    if |s| < MAX_NAME_LENGTH {
      assert ConvertStrToName(s).value == Padded(s);
    }
  }

  /**
   * `convert_time_to_duration`: the infinite time is `Duration::MAX`; any other time is
   * `time as u64` nanoseconds, so a negative one wraps round modulo 2^64.
   */
  function ConvertTimeToDuration(time: SystemTime): (r: nat)
    ensures time == INFINITE_TIME_VALUE ==> r == DURATION_MAX
    ensures time >= 0 ==> r == time
    ensures time < INFINITE_TIME_VALUE ==> r == time + USIZE_MOD
    ensures r == DURATION_MAX <==> time == INFINITE_TIME_VALUE
  {
    if time == INFINITE_TIME_VALUE then DURATION_MAX
    else if time >= 0 then time
    else time + USIZE_MOD
  }
}
