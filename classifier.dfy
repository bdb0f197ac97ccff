/**
 * `PrintError`: the reason code of a rejected login picks exactly one
 * explanation; `LICENSE_EXPIRED` and `HWID_MISMATCH` refine it from optional
 * fields of the response's `data` object, the latter with cooldown arithmetic.
 *
 * Time comes from a `DateEnv`: the library's timestamp parser, the machine's
 * offset from UTC and the UTC clock. `DateTime.TryParse` on a string that
 * carries an offset (which the `Replace("Z", "+00:00")` guarantees for the
 * usual ISO-8601 form) gives the LOCAL wall-clock time, so the code as written
 * reports and subtracts shifted times. Every classification therefore takes a
 * `Reading`: `AsWritten` follows the code, `Intended` uses the UTC instant and
 * unbounded arithmetic, as the messages evidently mean.
 */
module Classifier {
  import opened Wrappers
  import opened Text
  import opened Numerics

  /** A point in time: a count of 100-nanosecond ticks, as .NET's `DateTime` keeps it. */
  type Instant = int

  /** A JSON property that ought to hold a string. */
  datatype JsonString = Missing | Null | Str(value: string) {

    /** `TryGetProperty(...) && prop.GetString() is { } s` yields `s`. */
    function AsString(): Option<string>
    {
      if Str? then Some(value) else None
    }
  }

  /** The `data` object of a response. A boolean property is absent or a JSON
      boolean; `hwidResetCooldown` is `Some(n)` when the property is an integer
      literal of value `n` and `None` otherwise (absent, or any other number). */
  datatype ResponseData = ResponseData(
    key: JsonString,
    expiresAt: JsonString,
    hwidResetAllowed: Option<bool>,
    lastHwidResetAt: JsonString,
    hwidResetCooldown: Option<int>)

  /** The date library and the clock. `parse` is `DateTime.TryParse(s, null,
      DateTimeStyles.AssumeUniversal)` reduced to the UTC instant `s` denotes;
      `utcOffset(t)` is the local time zone's offset from UTC at `t`, in ticks;
      `now` is `DateTime.UtcNow`. */
  datatype DateEnv = DateEnv(parse: string -> Option<Instant>, utcOffset: Instant -> int, now: Instant)

  datatype Reading = AsWritten | Intended

  /** What is reported for `LICENSE_EXPIRED`. `ExpiredOn(shown)` prints the
      wall-clock value `shown` followed by "UTC". */
  datatype ExpiryDetail = ExpiredOn(shown: Instant) | InvalidDateFormat | NoDate

  /** What is reported for `HWID_MISMATCH`, after "HWID does not match the registered device." */
  datatype ResetDetail =
    | ResetNotAllowed
    | TryReset
    | TryResetInvalidTimestamp
    | AvailableIn(seconds: int)
    | AvailableNow

  /** The explanation `PrintError` prints for a reason code. */
  datatype Failure =
    | LicenseNotFound
    | InvalidCredentials
    | LicenseNotActive
    | DeviceBoundElsewhere
    | LicenseExpired(expiry: ExpiryDetail)
    | HwidMismatch(reset: ResetDetail)
    | Unexpected(code: string)

  const KnownCodes: set<string> := {
    "LICENSE_NOT_FOUND", "INVALID_USERNAME_OR_PASSWORD", "LICENSE_NOT_ACTIVE",
    "DEVICE_ALREADY_REGISTERED_WITH_OTHER_LICENSE", "LICENSE_EXPIRED", "HWID_MISMATCH"
  }

  /** `DateTime.TryParse(s.Replace("Z", "+00:00"), ...)` as a UTC instant. */
  function ParseTimestamp(s: string, env: DateEnv): (t: Option<Instant>)
    ensures 'Z' !in s ==> t == env.parse(s)
  {
    ReplaceCharRemoves(s, 'Z', "+00:00");
    env.parse(ReplaceChar(s, 'Z', "+00:00"))
  }

  /** A timestamp ending in the UTC designator `Z` (and with no other `Z`) is
      read as the same timestamp with the explicit offset `+00:00`. */
  lemma ParseTimestampZulu(s: string, env: DateEnv)
    requires 'Z' !in s
    ensures ParseTimestamp(s + "Z", env) == env.parse(s + "+00:00")
  {
    var z: string := ['Z'];
    assert z == "Z";
    ReplaceCharAppend(s, z, 'Z', "+00:00");
    ReplaceCharRemoves(s, 'Z', "+00:00");
    assert z[1..] == [];
    assert ReplaceChar(z, 'Z', "+00:00") == "+00:00";
    assert ReplaceChar(s + z, 'Z', "+00:00") == s + "+00:00";
  }

  /** The `DateTime` value `TryParse` returns for instant `t`: its local wall clock. */
  function LocalTime(t: Instant, env: DateEnv): Instant
  {
    t + env.utcOffset(t)
  }

  /** Seconds since the last reset `t`. As written: `(int)(DateTime.UtcNow -
      lastDt).TotalSeconds` with `lastDt` the local wall clock, truncated toward
      zero and saturated to `int`; intended: truncated seconds since `t`. */
  function ElapsedSeconds(t: Instant, env: DateEnv, reading: Reading): (e: int)
    ensures reading == AsWritten ==> InInt32(e)
  {
    match reading
    case AsWritten => Saturate32(WholeSeconds(env.now - LocalTime(t, env)))
    case Intended => WholeSeconds(env.now - t)
  }

  /** `cd - (int)ago`: an unchecked 32-bit subtraction as written, the exact
      difference as intended. */
  function RemainingSeconds(cooldown: Int32, elapsed: int, reading: Reading): (left: int)
    ensures reading == Intended ==> left == cooldown - elapsed
    ensures reading == AsWritten ==> InInt32(left) && (left - (cooldown - elapsed)) % Modulus32 == 0
  {
    match reading
    case AsWritten => Wrap32(cooldown - elapsed)
    case Intended => cooldown - elapsed
  }

  /** The countdown once the reset time and the cooldown are both known. */
  function Countdown(cooldown: Int32, lastReset: Instant, env: DateEnv, reading: Reading): (d: ResetDetail)
    ensures d.AvailableIn? || d.AvailableNow?
    ensures d.AvailableIn? ==> d.seconds > 0
  {
    var left := RemainingSeconds(cooldown, ElapsedSeconds(lastReset, env, reading), reading);
    if left > 0 then AvailableIn(left) else AvailableNow
  }

  /** The `LICENSE_EXPIRED` arm. */
  function Expiry(data: Option<ResponseData>, env: DateEnv, reading: Reading): (d: ExpiryDetail)
    ensures d == NoDate <==> data.None? || !data.value.expiresAt.Str?
    ensures d.ExpiredOn? <==> data.Some? && data.value.expiresAt.Str? && ParseTimestamp(data.value.expiresAt.value, env).Some?
    ensures d.ExpiredOn? && reading == Intended ==> d.shown == ParseTimestamp(data.value.expiresAt.value, env).value
  {
    if data.Some? && data.value.expiresAt.Str? then
      match ParseTimestamp(data.value.expiresAt.value, env)
      case Some(t) => ExpiredOn(if reading == AsWritten then LocalTime(t, env) else t)
      case None => InvalidDateFormat
    else
      NoDate
  }

  /** The two readings of the `LICENSE_EXPIRED` arm agree on whether a date is
      shown; as written, the date shown is the intended one moved to the local
      wall clock, so the two coincide exactly on a machine at UTC. */
  lemma ExpiryReadingsDiffer(data: Option<ResponseData>, env: DateEnv)
    ensures Expiry(data, env, AsWritten).ExpiredOn? <==> Expiry(data, env, Intended).ExpiredOn?
    ensures Expiry(data, env, Intended).ExpiredOn? ==>
      Expiry(data, env, AsWritten).shown == LocalTime(Expiry(data, env, Intended).shown, env)
    ensures Expiry(data, env, Intended).ExpiredOn? ==>
      (Expiry(data, env, AsWritten) == Expiry(data, env, Intended) <==> env.utcOffset(Expiry(data, env, Intended).shown) == 0)
  {
  }

  /** The `HWID_MISMATCH` arm. */
  function Reset(data: Option<ResponseData>, env: DateEnv, reading: Reading): (d: ResetDetail)
    ensures d == ResetNotAllowed <==> data.None? || data.value.hwidResetAllowed != Some(true)
    ensures (d.AvailableIn? || d.AvailableNow?) ==>
      data.Some? && data.value.lastHwidResetAt.Str? && ParseTimestamp(data.value.lastHwidResetAt.value, env).Some?
    ensures d.AvailableIn? ==> d.seconds > 0
  {
    if data.Some? && data.value.hwidResetAllowed == Some(true) then
      var fields := data.value;
      if fields.lastHwidResetAt.Str? && fields.hwidResetCooldown.Some? && InInt32(fields.hwidResetCooldown.value) then
        match ParseTimestamp(fields.lastHwidResetAt.value, env)
        case Some(t) => Countdown(fields.hwidResetCooldown.value, t, env, reading)
        case None => TryResetInvalidTimestamp
      else
        TryReset
    else
      ResetNotAllowed
  }

  /** `PrintError(msg, data)`: the explanation chosen for reason code `code`. */
  function Classify(code: string, data: Option<ResponseData>, env: DateEnv, reading: Reading): (f: Failure)
    ensures f.Unexpected? <==> code !in KnownCodes
    ensures f.Unexpected? ==> f.code == code
  {
    if code == "LICENSE_NOT_FOUND" then LicenseNotFound
    else if code == "INVALID_USERNAME_OR_PASSWORD" then InvalidCredentials
    else if code == "LICENSE_NOT_ACTIVE" then LicenseNotActive
    else if code == "DEVICE_ALREADY_REGISTERED_WITH_OTHER_LICENSE" then DeviceBoundElsewhere
    else if code == "LICENSE_EXPIRED" then LicenseExpired(Expiry(data, env, reading))
    else if code == "HWID_MISMATCH" then HwidMismatch(Reset(data, env, reading))
    else Unexpected(code)
  }

  /** The four codes without enrichment each have their own fixed explanation,
      whatever `data` holds. */
  lemma FixedExplanations(data: Option<ResponseData>, env: DateEnv, reading: Reading)
    ensures Classify("LICENSE_NOT_FOUND", data, env, reading) == LicenseNotFound
    ensures Classify("INVALID_USERNAME_OR_PASSWORD", data, env, reading) == InvalidCredentials
    ensures Classify("LICENSE_NOT_ACTIVE", data, env, reading) == LicenseNotActive
    ensures Classify("DEVICE_ALREADY_REGISTERED_WITH_OTHER_LICENSE", data, env, reading) == DeviceBoundElsewhere
  {
  }

  /** `LICENSE_EXPIRED` has exactly three outcomes: the expiry date when
      `expires_at` is a string that parses, "invalid date format" when it is a
      string that does not, and a plain "expired" when `data` or a string
      `expires_at` is missing. As intended, the date shown is the parsed instant. */
  lemma ExpiredOutcomes(data: Option<ResponseData>, env: DateEnv, reading: Reading)
    ensures var f := Classify("LICENSE_EXPIRED", data, env, reading);
      && f.LicenseExpired?
      && (f.expiry == NoDate <==> data.None? || !data.value.expiresAt.Str?)
      && (f.expiry == InvalidDateFormat <==>
            data.Some? && data.value.expiresAt.Str? && ParseTimestamp(data.value.expiresAt.value, env).None?)
      && (f.expiry.ExpiredOn? <==>
            data.Some? && data.value.expiresAt.Str? && ParseTimestamp(data.value.expiresAt.value, env).Some?)
      && (f.expiry.ExpiredOn? && reading == Intended ==>
            f.expiry.shown == ParseTimestamp(data.value.expiresAt.value, env).value)
  {
  }

  /** `HWID_MISMATCH` without `data`, or with `hwid_reset_allowed` absent or
      false, is "reset not allowed", and only then: the later fields are not
      consulted. */
  lemma ResetGating(data: Option<ResponseData>, env: DateEnv, reading: Reading)
    ensures Classify("HWID_MISMATCH", data, env, reading) == HwidMismatch(ResetNotAllowed)
        <==> data.None? || data.value.hwidResetAllowed != Some(true)
  {
  }

  /** With reset allowed: "try resetting" when the reset time is not a string or
      the cooldown is not an `int`, "invalid timestamp" when the reset time does
      not parse, and a countdown otherwise. */
  lemma ResetFallbacks(data: Option<ResponseData>, env: DateEnv, reading: Reading)
    requires data.Some? && data.value.hwidResetAllowed == Some(true)
    ensures var d := data.value;
      var known := d.lastHwidResetAt.Str? && d.hwidResetCooldown.Some? && InInt32(d.hwidResetCooldown.value);
      var r := Classify("HWID_MISMATCH", data, env, reading);
      && r.HwidMismatch?
      && (r.reset == TryReset <==> !known)
      && (r.reset == TryResetInvalidTimestamp <==> known && ParseTimestamp(d.lastHwidResetAt.value, env).None?)
      && ((r.reset.AvailableIn? || r.reset.AvailableNow?)
            <==> known && ParseTimestamp(d.lastHwidResetAt.value, env).Some?)
      && (known && ParseTimestamp(d.lastHwidResetAt.value, env).Some? ==>
            r.reset == Countdown(d.hwidResetCooldown.value, ParseTimestamp(d.lastHwidResetAt.value, env).value, env, reading))
  {
  }

  /** `max(0, cooldown - elapsed)`: the seconds still to wait. */
  function CooldownRemaining(cooldown: int, elapsed: int): (r: nat)
    ensures r == 0 <==> elapsed >= cooldown
    ensures r > 0 ==> r == cooldown - elapsed
  {
    if cooldown - elapsed > 0 then cooldown - elapsed else 0
  }

  /** As intended, the countdown reports exactly the seconds still to wait, and a
      reset is available exactly when the elapsed seconds reach the cooldown. */
  lemma CountdownIntended(cooldown: Int32, lastReset: Instant, env: DateEnv)
    ensures var elapsed := WholeSeconds(env.now - lastReset);
      var d := Countdown(cooldown, lastReset, env, Intended);
      && (d == AvailableNow <==> elapsed >= cooldown)
      && (d == AvailableNow <==> CooldownRemaining(cooldown, elapsed) == 0)
      && (d.AvailableIn? ==> d.seconds == CooldownRemaining(cooldown, elapsed) == cooldown - elapsed)
  {
  }

  /** A reset 30 seconds ago with a 60-second cooldown leaves 30 seconds, in
      every time zone. */
  lemma ThirtySecondsLeft(lastReset: Instant, env: DateEnv)
    requires env.now == lastReset + 30 * TicksPerSecond
    ensures Countdown(60, lastReset, env, Intended) == AvailableIn(30)
  {
  }

  /** On a machine whose clock is at UTC, and while neither the elapsed seconds
      nor the difference leave the range of `int`, the code as written gives the
      intended countdown. */
  lemma ReadingsAgreeAtUtc(cooldown: Int32, lastReset: Instant, env: DateEnv)
    requires env.utcOffset(lastReset) == 0
    requires InInt32(WholeSeconds(env.now - lastReset))
    requires InInt32(cooldown - WholeSeconds(env.now - lastReset))
    ensures Countdown(cooldown, lastReset, env, AsWritten) == Countdown(cooldown, lastReset, env, Intended)
  {
  }

  /** As written, and while the subtraction does not wrap around, a reset is
      available exactly when the elapsed seconds reach the cooldown, where the
      elapsed seconds count from the reset time shifted by the local offset. */
  lemma SkewedAvailability(cooldown: Int32, lastReset: Instant, env: DateEnv)
    requires InInt32(cooldown - ElapsedSeconds(lastReset, env, AsWritten))
    ensures Countdown(cooldown, lastReset, env, AsWritten) == AvailableNow
        <==> ElapsedSeconds(lastReset, env, AsWritten) >= cooldown
    ensures InInt32(WholeSeconds(env.now - lastReset - env.utcOffset(lastReset))) ==>
      ElapsedSeconds(lastReset, env, AsWritten) == WholeSeconds(env.now - lastReset - env.utcOffset(lastReset))
  {
  }

  /** The `LICENSE_EXPIRED` and `HWID_MISMATCH` arms of the switch. */
  lemma EnrichedArms(data: Option<ResponseData>, env: DateEnv, reading: Reading)
    ensures Classify("LICENSE_EXPIRED", data, env, reading) == LicenseExpired(Expiry(data, env, reading))
    ensures Classify("HWID_MISMATCH", data, env, reading) == HwidMismatch(Reset(data, env, reading))
  {
  }

  /** The expiry instant used by the two counterexamples below: 2023-01-01 00:00:00 UTC. */
  const Jan2023: Instant := 638081280000000000

  /** Two hours, in ticks. */
  const TwoHours: int := 72_000_000_000

  /** A parser that reads every text as the instant `t`. */
  function ParseAs(t: Instant): string -> Option<Instant> {
    s => Some(t)
  }

  /** As written, on a machine at UTC+02:00 the expiry 2023-01-01T00:00:00Z
      (whatever its exact text, `stamp`) is reported as 02:00:00 "UTC":
      `TryParse` returned the local wall clock. */
  lemma ExpiryShownInLocalTime(stamp: string)
    ensures var env := DateEnv(ParseAs(Jan2023), t => TwoHours, Jan2023);
      var data := Some(ResponseData(Missing, Str(stamp), None, Missing, None));
      && Classify("LICENSE_EXPIRED", data, env, AsWritten) == LicenseExpired(ExpiredOn(Jan2023 + TwoHours))
      && Classify("LICENSE_EXPIRED", data, env, Intended) == LicenseExpired(ExpiredOn(Jan2023))
  {
    var env := DateEnv(ParseAs(Jan2023), t => TwoHours, Jan2023);
    var data := Some(ResponseData(Missing, Str(stamp), None, Missing, None));
    EnrichedArms(data, env, AsWritten);
    EnrichedArms(data, env, Intended);
    assert ParseTimestamp(stamp, env) == Some(Jan2023);
    assert LocalTime(Jan2023, env) == Jan2023 + TwoHours;
  }

  /** The countdown in the skewed case: 30 seconds after the reset, on a clock
      two hours ahead of UTC. */
  lemma SkewedCountdown(env: DateEnv)
    requires env.utcOffset(Jan2023) == TwoHours && env.now == Jan2023 + 30 * TicksPerSecond
    ensures Countdown(60, Jan2023, env, AsWritten) == AvailableIn(7230)
    ensures Countdown(60, Jan2023, env, Intended) == AvailableIn(30)
  {
    assert WholeSeconds(-71_700_000_000) == -7170;
    assert ElapsedSeconds(Jan2023, env, AsWritten) == -7170;
    assert WholeSeconds(300_000_000) == 30;
    assert ElapsedSeconds(Jan2023, env, Intended) == 30;
    assert Wrap32(7230) == 7230;
  }

  /** As written, on a machine at UTC+02:00 a reset made 30 seconds ago (stamped
      2023-01-01T00:00:00Z, whatever its exact text `stamp`) with a 60-second
      cooldown reports 7230 seconds left instead of 30. */
  lemma CountdownSkewedByLocalOffset(stamp: string)
    ensures var env := DateEnv(ParseAs(Jan2023), t => TwoHours, Jan2023 + 30 * TicksPerSecond);
      var data := Some(ResponseData(Missing, Missing, Some(true), Str(stamp), Some(60)));
      && Classify("HWID_MISMATCH", data, env, AsWritten) == HwidMismatch(AvailableIn(7230))
      && Classify("HWID_MISMATCH", data, env, Intended) == HwidMismatch(AvailableIn(30))
  {
    var env := DateEnv(ParseAs(Jan2023), t => TwoHours, Jan2023 + 30 * TicksPerSecond);
    var data := Some(ResponseData(Missing, Missing, Some(true), Str(stamp), Some(60)));
    EnrichedArms(data, env, AsWritten);
    EnrichedArms(data, env, Intended);
    assert ParseTimestamp(stamp, env) == Some(Jan2023);
    SkewedCountdown(env);
  }

  /** Five hours, in ticks. */
  const FiveHours: int := 180_000_000_000

  /** On a clock five hours behind UTC, a reset made 30 seconds ago with a
      60-second cooldown already reads as available, as written: the elapsed
      time comes out as 5 hours 30 seconds. */
  lemma EarlyResetWestOfUtc(env: DateEnv)
    requires env.utcOffset(Jan2023) == -FiveHours && env.now == Jan2023 + 30 * TicksPerSecond
    ensures Countdown(60, Jan2023, env, AsWritten) == AvailableNow
    ensures Countdown(60, Jan2023, env, Intended) == AvailableIn(30)
  {
    assert WholeSeconds(180_300_000_000) == 18030;
    assert ElapsedSeconds(Jan2023, env, AsWritten) == 18030;
    assert WholeSeconds(300_000_000) == 30;
    assert ElapsedSeconds(Jan2023, env, Intended) == 30;
    assert Wrap32(60 - 18030) == 60 - 18030;
  }

  /** 2025-01-01 and 2125-01-01, 00:00:00 UTC. */
  const Jan2025: Instant := 638712864000000000
  const Jan2125: Instant := 670269600000000000

  /** The countdown in the wrap-around case: at 2025-01-01 UTC, a reset stamped
      2125-01-01 UTC. */
  lemma WrappedCountdown(env: DateEnv)
    requires env.utcOffset(Jan2125) == 0 && env.now == Jan2025
    ensures Countdown(60, Jan2125, env, AsWritten) == AvailableNow
    ensures Countdown(60, Jan2125, env, Intended) == AvailableIn(3155673660)
  {
    assert WholeSeconds(-31_556_736_000_000_000) == -3155673600;
    assert ElapsedSeconds(Jan2125, env, AsWritten) == Int32Min;
    assert ElapsedSeconds(Jan2125, env, Intended) == -3155673600;
    assert Wrap32(60 - Int32Min) == 60 + Int32Min;
  }

  /** As written, a last reset a century in the future (at 2025-01-01, a reset
      stamped 2125-01-01T00:00:00Z, whatever its exact text `stamp`) with a
      60-second cooldown reports the reset as available: the elapsed seconds
      saturate to `int.MinValue` and `cd - (int)ago` wraps around to a negative
      number. As intended, 3155673660 seconds remain. */
  lemma CountdownWrapsAround(stamp: string)
    ensures var env := DateEnv(ParseAs(Jan2125), t => 0, Jan2025);
      var data := Some(ResponseData(Missing, Missing, Some(true), Str(stamp), Some(60)));
      && Classify("HWID_MISMATCH", data, env, AsWritten) == HwidMismatch(AvailableNow)
      && Classify("HWID_MISMATCH", data, env, Intended) == HwidMismatch(AvailableIn(3155673660))
  {
    var env := DateEnv(ParseAs(Jan2125), t => 0, Jan2025);
    var data := Some(ResponseData(Missing, Missing, Some(true), Str(stamp), Some(60)));
    EnrichedArms(data, env, AsWritten);
    EnrichedArms(data, env, Intended);
    assert ParseTimestamp(stamp, env) == Some(Jan2125);
    WrappedCountdown(env);
  }
}
