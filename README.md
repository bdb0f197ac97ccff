# Keycrate client login flow, modelled in Dafny

This project models the decision logic of the Keycrate full example client
(`keycrate-example/full-example/Program.cs`). The client ties a license to a
device in three steps:

- **Device identifier (`Hwid.Get`).** Three hardware attributes are read: the
  processor id, the BIOS serial and the disk serial. The non-empty ones are
  joined with `|` in that order. The result is hashed with SHA-256, written as
  lower-case hexadecimal and cut to 16 characters.
- **Credential mode (`LoginAsync`, `UsernameLoginAsync`).** A non-blank license
  key selects license mode. Otherwise a username and a password are required,
  and the program exits when either one is blank. Every request carries the
  device identifier.
- **Response classification (`PrintError`).** A rejection's reason code maps to
  exactly one explanation. `LICENSE_EXPIRED` and `HWID_MISMATCH` refine that
  explanation from optional fields of the response's `data` object. The
  refinement includes a countdown until a hardware-ID reset is allowed.

Modules:

- `Wrappers`: `Option`.
- `Text`: .NET's `char.IsWhiteSpace`, `Trim`, `IsNullOrWhiteSpace`, `Join` and
  single-character `Replace`, plus a `Split` that serves as the inverse of
  `Join`.
- `Numerics`: `int` wrap-around, the saturating `(int)` cast, and the
  conversion of ticks to whole seconds, rounded toward zero.
- `Hwid`: the device identifier.
- `Classifier`: `PrintError`.
- `Login`: `LoginAsync`.

Everything is modelled as pure functions; the source's decisions have no loops.
The date library and the clock come in as a `DateEnv` value:

- a timestamp parser, giving the UTC instant a string stands for;
- the machine's offset from UTC;
- the current UTC time.

Times are counted in .NET ticks (100 ns). The classifier takes a `Reading`:

- `AsWritten` follows the code, including its use of local time and 32-bit
  arithmetic (see "## Findings");
- `Intended` uses the UTC instant and exact arithmetic.

The `(int)` cast of the elapsed seconds truncates toward zero rather than
flooring. The two differ whenever the elapsed time is negative: for a reset
stamped in the future or, as written, for a recent reset on a machine ahead of
UTC. Both readings truncate.

## Model

| member | source | states |
|---|---|---|
| Text.TrimStart | keycrate-example/full-example/Program.cs:55 | the result is no longer than the input and does not start with white space |
| Text.TrimStartSuffix | keycrate-example/full-example/Program.cs:55 | what `TrimStart` keeps is a suffix of the input, and everything it drops is white space |
| Text.TrimEnd | keycrate-example/full-example/Program.cs:55 | the result is a prefix of the input, everything dropped is white space, and the result does not end with white space |
| Text.Trim | keycrate-example/full-example/Program.cs:87-89 | the trimmed string neither starts nor ends with white space |
| Text.TrimSlice | keycrate-example/full-example/Program.cs:87-89 | `Trim` keeps the slice after the leading white space; all it drops on either side is white space |
| Text.TrimEmptyIffBlank | keycrate-example/full-example/Program.cs:90 | a string trims to "" exactly when it is blank, so `IsNullOrWhiteSpace` of a trimmed string is the same test as emptiness |
| Text.TrimIdempotent | keycrate-example/full-example/Program.cs:87-89 | trimming twice equals trimming once |
| Text.NonEmpty | keycrate-example/full-example/Program.cs:216 | every element the `Where(!IsNullOrEmpty)` filter keeps is a non-empty element of the input, and every non-empty element is kept |
| Text.NonEmptyCounts | keycrate-example/full-example/Program.cs:216 | the filter keeps each non-empty element as many times as it occurs and drops every "": the kept multiset is the input's with "" removed |
| Text.NonEmptyAppend | keycrate-example/full-example/Program.cs:216 | the filter keeps the order: filtering a concatenation concatenates the filtered parts |
| Text.Join | keycrate-example/full-example/Program.cs:216 | `string.Join` starts with the first element, and with an empty separator it is the plain concatenation |
| Text.Split | keycrate-example/full-example/Program.cs:216 | reference inverse of the join: at least one part, and no part contains the separator |
| Text.SplitJoin | keycrate-example/full-example/Program.cs:216 | round trip: splitting a join of separator-free strings at the separator gives the list back |
| Text.JoinEmptyIff | keycrate-example/full-example/Program.cs:216 | a join of non-empty strings is "" exactly when the list is empty |
| Text.JoinInjective | keycrate-example/full-example/Program.cs:216 | the join is one-to-one on non-empty lists of separator-free strings |
| Text.ReplaceChar | keycrate-example/full-example/Program.cs:153 | replacing a character by one character keeps the length, and replacing it by itself changes nothing |
| Text.ReplaceCharRemoves | keycrate-example/full-example/Program.cs:153 | after replacing a character with text that does not contain it, the character is gone; a string without the character is unchanged |
| Text.RemoveSeparator | keycrate-example/full-example/Program.cs:219 | `Replace("-", "")` on a join of dash-free pieces is their concatenation |
| Numerics.Wrap32 | keycrate-example/full-example/Program.cs:177 | the unchecked `int` result is congruent to the exact value modulo 2^32, and equals it when it fits |
| Numerics.Saturate32 | keycrate-example/full-example/Program.cs:176-177 | the `(int)` cast gives the `int` nearest to the whole number; a value that fits is kept |
| Numerics.WholeSeconds | keycrate-example/full-example/Program.cs:176-177 | ticks become whole seconds rounded toward zero: the leftover ticks have the sign of the input and are fewer than one second's worth |
| Hwid.Attribute | keycrate-example/full-example/Program.cs:223-229 | the attribute is "" exactly when the query failed or returned only white space; otherwise it neither starts nor ends with white space |
| Hwid.Combined | keycrate-example/full-example/Program.cs:216 | the combined string is "" exactly when all three attributes are empty; that case still yields an identifier |
| Hwid.BlankAttributeDropped | keycrate-example/full-example/Program.cs:216-225 | a processor query that fails or returns only white space contributes nothing: the combined string is the BIOS and disk attributes joined alone |
| Hwid.UpperPairs | keycrate-example/full-example/Program.cs:219 | one upper-case digit pair per byte, in order |
| Hwid.BitConverterToString | keycrate-example/full-example/Program.cs:219 | `BitConverter.ToString` writes three characters per byte, less one: two digits and a dash between pairs; "" for no bytes |
| Hwid.ToLower | keycrate-example/full-example/Program.cs:219 | lower-casing keeps the length and maps each character on its own |
| Hwid.LowerHex | keycrate-example/full-example/Program.cs:219 | the reference encoding has two characters per byte, all from `0-9a-f` |
| Hwid.Get | keycrate-example/full-example/Program.cs:207-220 | the identifier has exactly 16 characters, all from `0-9a-f`; it is the lower-case hex of the first 8 digest bytes of the combined attributes |
| Hwid.HexChain | keycrate-example/full-example/Program.cs:219 | `BitConverter.ToString`, then `Replace("-", "")`, then `ToLower()` is exactly the lower-case hex encoding |
| Hwid.LowerHexPrefix | keycrate-example/full-example/Program.cs:219 | the first 2k hex digits encode the first k bytes, so `[..16]` covers 8 digest bytes |
| Hwid.DigitValue | keycrate-example/full-example/Program.cs:219 | decoding one hex digit inverts the digit table |
| Hwid.ParseLowerHex | keycrate-example/full-example/Program.cs:219 | the reference decoder gives one byte per two digits |
| Hwid.ParseLowerHexAccepts | keycrate-example/full-example/Program.cs:219 | only text of even length made of `0-9a-f` decodes |
| Hwid.ParseLowerHexRoundTrip | keycrate-example/full-example/Program.cs:219 | decoding the hex encoding gives the bytes back, so the encoding is one-to-one |
| Hwid.IdentifierEncodesDigestPrefix | keycrate-example/full-example/Program.cs:217-219 | decoding the identifier gives exactly the first 8 bytes of the SHA-256 digest of the UTF-8 combined string |
| Hwid.CombinedSplits | keycrate-example/full-example/Program.cs:209-216 | the combined string is the non-empty attributes in the order CPU, BIOS, disk, separated by `|`: splitting it gives them back |
| Hwid.CombinedInjective | keycrate-example/full-example/Program.cs:209-216 | with all three attributes present and `|`-free, the combined string determines them in order, so the fixed order matters |
| Hwid.EmptyAttributePositionLost | keycrate-example/full-example/Program.cs:216 | dropping empty attributes loses their position: an empty BIOS serial with disk serial `x` combines like BIOS serial `x` with an empty disk serial |
| Classifier.ParseTimestamp | keycrate-example/full-example/Program.cs:153 | a timestamp without `Z` goes to the parser unchanged |
| Classifier.ParseTimestampZulu | keycrate-example/full-example/Program.cs:153 | a timestamp ending in the UTC designator `Z` is parsed as the same timestamp with offset `+00:00` |
| Classifier.ExpiryReadingsDiffer | keycrate-example/full-example/Program.cs:153-155 | both readings show a date in the same cases; as written, the date shown is the intended UTC instant moved to the local wall clock, so the two agree exactly on a machine at UTC |
| Classifier.ElapsedSeconds | keycrate-example/full-example/Program.cs:176-177 | as written, the elapsed seconds are an `int` |
| Classifier.RemainingSeconds | keycrate-example/full-example/Program.cs:177 | as intended, `left` is exactly cooldown minus elapsed; as written, it is the `int` congruent to that modulo 2^32 |
| Classifier.Countdown | keycrate-example/full-example/Program.cs:176-178 | the countdown either says "now available" or reports a positive number of seconds |
| Classifier.Expiry | keycrate-example/full-example/Program.cs:150-166 | no date exactly when `data` or a string `expires_at` is missing; a date exactly when the string parses; as intended, that date is the parsed instant |
| Classifier.Reset | keycrate-example/full-example/Program.cs:167-194 | "reset not allowed" exactly when `data` is absent or `hwid_reset_allowed` is not true; a countdown only for a reset time that parses; a wait is a positive number of seconds |
| Classifier.Classify | keycrate-example/full-example/Program.cs:136-198 | `Unexpected` comes out exactly for codes outside the switch, and it carries the raw code verbatim |
| Classifier.FixedExplanations | keycrate-example/full-example/Program.cs:138-149 | each of the four enrichment-free codes gets its own fixed explanation whatever `data` holds |
| Classifier.ExpiredOutcomes | keycrate-example/full-example/Program.cs:150-166 | `LICENSE_EXPIRED` has exactly three outcomes: the date when `expires_at` parses, "invalid date format" when it is a string that does not, and plain "expired" when `data` or `expires_at` is missing; as intended, the date shown is the parsed instant |
| Classifier.ResetGating | keycrate-example/full-example/Program.cs:169 | `HWID_MISMATCH` gives "reset not allowed" if and only if `data` is absent or `hwid_reset_allowed` is absent or false |
| Classifier.ResetFallbacks | keycrate-example/full-example/Program.cs:171-188 | with reset allowed: "try resetting" iff the reset time is not a string or the cooldown is not an `int`; "invalid timestamp" iff the reset time does not parse; otherwise the countdown on the parsed time |
| Classifier.CooldownRemaining | keycrate-example/full-example/Program.cs:177-178 | the remaining wait `max(0, cooldown - elapsed)` is 0 exactly when elapsed reaches the cooldown |
| Classifier.CountdownIntended | keycrate-example/full-example/Program.cs:176-178 | as intended, "now available" comes out iff elapsed >= cooldown, iff the remaining wait is 0; otherwise it reports exactly cooldown - elapsed seconds |
| Classifier.ThirtySecondsLeft | keycrate-example/full-example/Program.cs:174-178 | as intended, a reset 30 s ago with a 60 s cooldown leaves 30 s in every time zone |
| Classifier.ReadingsAgreeAtUtc | keycrate-example/full-example/Program.cs:174-178 | on a machine at UTC, with no `int` overflow, the code as written gives the intended countdown |
| Classifier.ExpiryShownInLocalTime | keycrate-example/full-example/Program.cs:153-155 | as written, at UTC+02:00, expiry 2023-01-01T00:00:00Z is reported as 02:00:00 "UTC"; as intended, as 00:00:00 |
| Classifier.SkewedAvailability | keycrate-example/full-example/Program.cs:174-178 | as written, without wrap-around, a reset is available exactly when the elapsed seconds reach the cooldown, elapsed seconds being counted from the reset time shifted by the local offset |
| Classifier.EarlyResetWestOfUtc | keycrate-example/full-example/Program.cs:174-178 | as written, at UTC-05:00, a reset 30 s ago with a 60 s cooldown already reads "now available"; as intended, 30 s remain |
| Classifier.SkewedCountdown | keycrate-example/full-example/Program.cs:174-178 | the countdown itself, 30 s after a reset on a clock two hours ahead of UTC: 7230 s as written, 30 s as intended |
| Classifier.CountdownSkewedByLocalOffset | keycrate-example/full-example/Program.cs:174-178 | as written, at UTC+02:00, a reset 30 s ago with a 60 s cooldown reports 7230 s left; as intended, 30 s |
| Classifier.WrappedCountdown | keycrate-example/full-example/Program.cs:176-178 | the countdown itself, at 2025-01-01 for a reset stamped 2125-01-01 with a 60 s cooldown: "now available" as written, 3155673660 s as intended |
| Classifier.CountdownWrapsAround | keycrate-example/full-example/Program.cs:176-178 | as written, a reset stamped a century ahead with a 60 s cooldown reports "now available"; as intended, 3155673660 s remain |
| Login.ReadTrimmed | keycrate-example/full-example/Program.cs:55 | `ReadLine()?.Trim()` is null exactly for a null line; otherwise it is "" exactly for a blank line, and neither starts nor ends with white space |
| Login.LicenseMode | keycrate-example/full-example/Program.cs:55-61 | license mode exactly when a key line was read and it is not blank |
| Login.BuildAttempt | keycrate-example/full-example/Program.cs:59-63 | every request carries the device identifier |
| Login.Outcome | keycrate-example/full-example/Program.cs:65-81 | a reply never makes the program stop for an empty field |
| Login.LoginAsync | keycrate-example/full-example/Program.cs:51-82 | login stops before any request exactly when the credential step asks for both fields |
| Login.Returned | keycrate-example/full-example/Program.cs:68-81 | the returned flag is true exactly for a successful login; a `false` flag always comes with a null key; nothing is returned when the process stopped |
| Login.LicenseModeChosen | keycrate-example/full-example/Program.cs:55-62 | license mode is chosen iff a key line was read and it is not blank; the trimmed key is sent with the device identifier |
| Login.LicenseModeIgnoresPassword | keycrate-example/full-example/Program.cs:61-63 | in license mode the username and password lines make no difference |
| Login.PasswordModeChosen | keycrate-example/full-example/Program.cs:84-95 | without a key, the program stops before any request iff the username or password line is missing or blank; otherwise both are sent trimmed with the identifier |
| Login.RequestsWellFormed | keycrate-example/full-example/Program.cs:62 | every field a request carries is non-empty, already trimmed, and comes with the device identifier |
| Login.ExitSendsNothing | keycrate-example/full-example/Program.cs:90-94 | when the program stops for an empty field, the outcome is the same whatever the client would have answered |
| Login.LoginOutcomes | keycrate-example/full-example/Program.cs:59-81 | success with a key gives `(true, data.key)`; a rejection is classified and gives `(false, null)`; a client exception gives `(false, null)` without classification |

## Left out

- WMI queries (`QueryWmi`, Program.cs:232-244) are platform I/O. Each query's
  result is an input: `None` when it fails or finds nothing, otherwise the text
  the query returned.
- SHA-256 and UTF-8 encoding are library code. They are function parameters of
  `Hwid.Get`; the only property assumed is that a digest has 32 bytes.
- `DateTime.TryParse` is library code. Which strings it accepts is the `parse`
  parameter of `DateEnv`. The model keeps what the code does around it: the
  `Replace("Z", "+00:00")`, and the conversion to local time via `utcOffset`.
- `TotalSeconds` is a `double`. The model divides ticks exactly and truncates.
  Rounding of very large elapsed times (beyond about 17 years) by the
  floating-point division is not modelled.
- The `(int)` cast of an out-of-range `double` is modelled as saturating, as on
  .NET 9 and later. Earlier runtimes on x86/x64 give `int.MinValue` for large
  positive values too; for large negative values both give `int.MinValue`.
- Printed text is left out: the `yyyy-MM-dd HH:mm:ss` formatting, the
  "Authentication failed: …" header, the extra "HWID does not match" line and
  the colours. The model returns which explanation is printed, with its values.
- `LocalTime` stands in for the conversion to local time that `TryParse`
  applies: the instant plus the machine's UTC offset. It has no contract of
  its own; `ExpiryReadingsDiffer` states what it changes.
- `JsonString.AsString` stands in for `GetString()` on the typed `data`
  record: `Some` of the text for a JSON string, `None` for a missing or null
  property. It has no contract of its own; it only selects a case.
- Ill-typed JSON is left out. On ill-typed fields `GetBoolean` and `GetString`
  throw, `TryGetInt32` throws on a non-number, and `TryGetProperty` throws on a
  `data` that is not an object. The model's `data` record is typed, so none of
  these cases can be written.
- A response without `success` or `message`, or with a null `message`, is left
  out because the envelope record has both fields. A success reply without
  `data.key` is modelled, as the outcome `KeyMissing`.
- `Console` I/O, the post-login menu loop (Program.cs:39-46) and
  `RegisterAsync` (Program.cs:98-128) are prompt, network and print glue.
  `Environment.Exit(0)` is modelled as the outcome `Exited`.
- `keycrate-example/simple-example/Program.cs` is left out. It only prompts,
  calls the client and prints.
- `Hwid.ToLower` maps only ASCII capitals. The string it is applied to holds
  only hexadecimal digits, so culture-specific lower-casing makes no difference.
- Strings are sequences of Unicode scalar values. The lone UTF-16 surrogates a
  .NET string may hold are not represented.

## Findings

| source | as written | input that shows it | evidently intended | confidence | as-written member | corrected member |
|---|---|---|---|---|---|---|
| keycrate-example/full-example/Program.cs:153-155 | `TryParse` on a string with an offset returns local time, which is printed with "UTC" after it | machine at UTC+02:00, `expires_at` = "2023-01-01T00:00:00Z": prints 2023-01-01 02:00:00 UTC | the UTC expiry, 2023-01-01 00:00:00 UTC | medium, not executed | Classifier.ExpiryShownInLocalTime | Classifier.ExpiredOutcomes |
| keycrate-example/full-example/Program.cs:174-177 | `DateTime.UtcNow - lastDt` subtracts a local wall-clock time from a UTC time, so the elapsed time is off by the UTC offset | machine at UTC+02:00, reset 30 s ago, cooldown 60: "Reset available in 7230 seconds." | "Reset available in 30 seconds." | medium, not executed | Classifier.CountdownSkewedByLocalOffset | Classifier.ThirtySecondsLeft |
| keycrate-example/full-example/Program.cs:177 | `cd - (int)ago` wraps around in 32 bits when `ago` saturates to `int.MinValue` | at 2025-01-01, `last_hwid_reset_at` = "2125-01-01T00:00:00Z", cooldown 60: "HWID reset is now available." | 3155673660 seconds remain, and a reset is available exactly when the elapsed time reaches the cooldown | low, not executed | Classifier.CountdownWrapsAround | Classifier.CountdownIntended |
