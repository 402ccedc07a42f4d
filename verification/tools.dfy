/** The duration and bitrate helpers of `tools.py`. */
module Tools {
  import opened Wrappers
  import opened Strings
  import opened Numerals

  /** Why `intduration` raises `ValueError`. */
  datatype DurationError =
    | FieldCount(found: nat)      // the split did not give exactly three fields to unpack
    | NotAnInteger(field: string) // `int()` rejected this field

  /** `intduration`: `"hh:mm:ss"` to whole seconds. Unpacking the split into
      three names fails unless there are exactly three fields. */
  function IntDuration(duration: string): (r: Result<int, DurationError>)
    ensures r.Failure? && r.error.FieldCount? ==> r.error.found >= 1 && r.error.found != 3
    ensures r.Failure? && r.error.NotAnInteger? ==> ParseInt(r.error.field).None?
  {
    var fields := Split(duration, ":");
    if |fields| != 3 then Failure(FieldCount(|fields|))
    else SecondsOfFields(fields[0], fields[1], fields[2])
  }

  /** The three fields converted with `int()` left to right; the first one
      rejected is reported. */
  function SecondsOfFields(hh: string, mm: string, ss: string): (r: Result<int, DurationError>)
    ensures r.Success? <==> ParseInt(hh).Some? && ParseInt(mm).Some? && ParseInt(ss).Some?
    ensures r.Failure? ==> r.error.NotAnInteger?
    ensures r.Failure? ==> r.error.field in [hh, mm, ss] && ParseInt(r.error.field).None?
  {
    var h, m, s := ParseInt(hh), ParseInt(mm), ParseInt(ss);
    if h.None? then Failure(NotAnInteger(hh))
    else if m.None? then Failure(NotAnInteger(mm))
    else if s.None? then Failure(NotAnInteger(ss))
    else Success(Seconds(h.value, m.value, s.value))
  }

  /** Hours, minutes and seconds as a number of seconds. */
  function Seconds(h: int, m: int, s: int): int
  {
    h * 3600 + m * 60 + s
  }

  /** The text `h:m:s`. */
  function Colons(h: string, m: string, s: string): string
  {
    h + ":" + m + ":" + s
  }

  /** `hh:mm:ss` with each field zero-padded to two digits. */
  function FormatDuration(h: nat, m: nat, s: nat): string
  {
    Colons(TwoDigits(h), TwoDigits(m), TwoDigits(s))
  }

  function TwoDigits(n: nat): string
  {
    ZeroPad(Decimal(n), 2)
  }

  /** `getbpf`: bits per pixel and frame for a frame width, from a table of
      two entries. */
  function GetBpf(width: int): (bpf: Option<real>)
    ensures bpf.Some? <==> width == 1920 || width == 1280
    ensures width == 1920 ==> bpf == Some(0.076)
    ensures width == 1280 ==> bpf == Some(0.092)
  {
    if width == 1920 then Some(0.076)
    else if width == 1280 then Some(0.092)
    else None
  }

  /** `n` is `x` rounded to the nearest integer, halves away from zero, as
      Python 2's `round`. */
  predicate IsRoundedHalfAway(x: real, n: int)
  {
    if x >= 0.0 then n as real - 0.5 <= x < n as real + 0.5
    else n as real - 0.5 < x <= n as real + 0.5
  }

  function RoundHalfAway(x: real): (n: int)
    ensures IsRoundedHalfAway(x, n)
  {
    if x >= 0.0 then (x + 0.5).Floor else -((-x + 0.5).Floor)
  }

  /** The exact bitrate in kbps before rounding: bpf * width * height * fps / 1000. */
  function ExactKbps(bpf: real, width: int, height: int, fps: real): real
  {
    bpf * width as real * height as real * fps / 1000.0
  }

  /** `getbitrate`: the target bitrate in kbps, or `None` for a width the
      table does not know, whatever the height and frame rate. */
  function GetBitrate(width: int, height: int, fps: real): (kbps: Option<int>)
    ensures kbps.None? <==> GetBpf(width).None?
    ensures kbps.Some? ==> IsRoundedHalfAway(ExactKbps(GetBpf(width).value, width, height, fps), kbps.value)
  {
    var bpf := GetBpf(width);
    if bpf.None? then None
    else Some(RoundHalfAway(ExactKbps(bpf.value, width, height, fps)))
  }
}
