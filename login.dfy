/**
 * `LoginAsync` and `UsernameLoginAsync`: choosing the credential mode from
 * what was typed, building the authentication request with the device
 * identifier attached, and turning the client's reply into the pair
 * `(success, licenseKey)` that the program goes on with.
 *
 * Console lines are inputs (`None` when `Console.ReadLine` returns null, at
 * the end of input); the licensing client is a function from request to reply.
 */
module Login {
  import opened Wrappers
  import opened Text
  import opened Classifier

  /** `AuthenticateOptions` as sent: a license key, or a username and password;
      the device identifier always. */
  datatype AuthRequest =
    | LicenseAuth(license: string, hwid: string)
    | PasswordAuth(username: string, password: string, hwid: string)
  {
    function Hwid(): string {
      match this
      case LicenseAuth(_, h) => h
      case PasswordAuth(_, _, h) => h
    }
  }

  /** What the typed lines lead to: a request, or "Both fields required." and
      `Environment.Exit(0)` before any request is built. */
  datatype Attempt = Send(request: AuthRequest) | BothFieldsRequired

  /** The response envelope: `success`, `message` (the reason code on failure)
      and the optional `data` object. */
  datatype Envelope = Envelope(success: bool, message: string, data: Option<ResponseData>)

  /** What `AuthenticateAsync` does with a request: throw, or answer. */
  datatype Reply = Threw(error: string) | Answered(envelope: Envelope)

  /** How `LoginAsync` ends. `Exited`: the process stopped for an empty field.
      `KeyMissing`: a success reply without `data.key` makes `GetProperty` throw,
      which nothing catches. */
  datatype LoginOutcome =
    | LoggedIn(licenseKey: Option<string>)
    | Denied(reason: Failure)
    | ConnectionError(error: string)
    | Exited
    | KeyMissing

  /** `Console.ReadLine()?.Trim()`. */
  function ReadTrimmed(line: Option<string>): (r: Option<string>)
    ensures r.Some? <==> line.Some?
    ensures r.Some? ==> (r.value == "" <==> IsNullOrWhiteSpace(line.value))
    ensures r.Some? ==> r.value == [] || (!IsWhiteSpace(r.value[0]) && !IsWhiteSpace(r.value[|r.value| - 1]))
    ensures line.Some? ==> r.value == Trim(line.value)
  {
    if line.Some? then
      TrimEmptyIffBlank(line.value);
      Some(Trim(line.value))
    else
      None
  }

  /** License mode: the trimmed key is neither null nor empty (`!string.IsNullOrEmpty(key)`). */
  function LicenseMode(keyLine: Option<string>): (license: bool)
    ensures license <==> keyLine.Some? && !IsNullOrWhiteSpace(keyLine.value)
  {
    var key := ReadTrimmed(keyLine);
    key.Some? && key.value != ""
  }

  /** The credential part of `LoginAsync` and `UsernameLoginAsync`. The username
      and password lines are read only in username/password mode. */
  function BuildAttempt(keyLine: Option<string>, userLine: Option<string>, passLine: Option<string>, hwid: string): (a: Attempt)
    ensures a.Send? ==> a.request.Hwid() == hwid
  {
    if LicenseMode(keyLine) then
      Send(LicenseAuth(ReadTrimmed(keyLine).value, hwid))
    else
      var u := ReadTrimmed(userLine).GetOr("");
      var p := ReadTrimmed(passLine).GetOr("");
      if IsNullOrWhiteSpace(u) || IsNullOrWhiteSpace(p) then BothFieldsRequired
      else Send(PasswordAuth(u, p, hwid))
  }

  /** What `LoginAsync` makes of the client's reply to a request. */
  function Outcome(reply: Reply, env: DateEnv, reading: Reading): (o: LoginOutcome)
    ensures o != Exited
  {
    match reply
    case Threw(e) => ConnectionError(e)
    case Answered(Envelope(success, message, data)) =>
      if !success then Denied(Classify(message, data, env, reading))
      else if data.None? || data.value.key.Missing? then KeyMissing
      else LoggedIn(data.value.key.AsString())
  }

  /** `LoginAsync`, from the typed lines, the identifier and the client. */
  function LoginAsync(keyLine: Option<string>, userLine: Option<string>, passLine: Option<string>, hwid: string,
                      client: AuthRequest -> Reply, env: DateEnv, reading: Reading): (o: LoginOutcome)
    ensures o == Exited <==> BuildAttempt(keyLine, userLine, passLine, hwid) == BothFieldsRequired
  {
    match BuildAttempt(keyLine, userLine, passLine, hwid)
    case BothFieldsRequired => Exited
    case Send(request) => Outcome(client(request), env, reading)
  }

  /** The value `LoginAsync` returns, `(success, licenseKey)`; `None` when it
      does not return because the process stopped inside it. */
  function Returned(o: LoginOutcome): (r: Option<(bool, Option<string>)>)
    ensures r.None? <==> o.Exited? || o.KeyMissing?
    ensures r.Some? ==> (r.value.0 <==> o.LoggedIn?)
    ensures r.Some? && !r.value.0 ==> r.value.1.None?
  {
    match o
    case LoggedIn(key) => Some((true, key))
    case Denied(_) => Some((false, None))
    case ConnectionError(_) => Some((false, None))
    case Exited => None
    case KeyMissing => None
  }

  /** License mode is chosen exactly when a key line was read and it is not
      blank; the key is sent trimmed, with the device identifier. */
  lemma LicenseModeChosen(keyLine: Option<string>, userLine: Option<string>, passLine: Option<string>, hwid: string)
    ensures LicenseMode(keyLine) <==> keyLine.Some? && !IsNullOrWhiteSpace(keyLine.value)
    ensures var a := BuildAttempt(keyLine, userLine, passLine, hwid);
      LicenseMode(keyLine) <==> a.Send? && a.request.LicenseAuth?
    ensures LicenseMode(keyLine) ==>
      BuildAttempt(keyLine, userLine, passLine, hwid) == Send(LicenseAuth(Trim(keyLine.value), hwid))
  {
    if keyLine.Some? {
      TrimEmptyIffBlank(keyLine.value);
    }
  }

  /** In license mode the username and password lines make no difference. */
  lemma LicenseModeIgnoresPassword(keyLine: Option<string>, userLine: Option<string>, passLine: Option<string>,
                                   userLine': Option<string>, passLine': Option<string>, hwid: string)
    requires LicenseMode(keyLine)
    ensures BuildAttempt(keyLine, userLine, passLine, hwid) == BuildAttempt(keyLine, userLine', passLine', hwid)
  {
  }

  /** Without a license key, the program stops before building a request exactly
      when the username or the password line is missing or blank; otherwise it
      sends both, trimmed, with the device identifier. */
  lemma PasswordModeChosen(keyLine: Option<string>, userLine: Option<string>, passLine: Option<string>, hwid: string)
    requires !LicenseMode(keyLine)
    ensures BuildAttempt(keyLine, userLine, passLine, hwid) == BothFieldsRequired
        <==> IsNullOrWhiteSpace(userLine.GetOr("")) || IsNullOrWhiteSpace(passLine.GetOr(""))
    ensures userLine.Some? && passLine.Some? && !IsNullOrWhiteSpace(userLine.value) && !IsNullOrWhiteSpace(passLine.value) ==>
      BuildAttempt(keyLine, userLine, passLine, hwid) == Send(PasswordAuth(Trim(userLine.value), Trim(passLine.value), hwid))
  {
    if userLine.Some? {
      TrimEmptyIffBlank(userLine.value);
    }
    if passLine.Some? {
      TrimEmptyIffBlank(passLine.value);
    }
  }

  /** Every field a request carries is non-empty and already trimmed. */
  predicate WellFormed(request: AuthRequest) {
    match request
    case LicenseAuth(key, _) => key != "" && Trim(key) == key
    case PasswordAuth(user, password, _) => user != "" && Trim(user) == user && password != "" && Trim(password) == password
  }

  lemma RequestsWellFormed(keyLine: Option<string>, userLine: Option<string>, passLine: Option<string>, hwid: string)
    ensures var a := BuildAttempt(keyLine, userLine, passLine, hwid);
      a.Send? ==> WellFormed(a.request) && a.request.Hwid() == hwid
  {
    var a := BuildAttempt(keyLine, userLine, passLine, hwid);
    if LicenseMode(keyLine) {
      TrimIdempotent(keyLine.value);
    } else if a.Send? {
      var u, p := ReadTrimmed(userLine).GetOr(""), ReadTrimmed(passLine).GetOr("");
      assert a.request == PasswordAuth(u, p, hwid);
      assert u != "" && p != "";
      if userLine.Some? {
        TrimIdempotent(userLine.value);
      }
      if passLine.Some? {
        TrimIdempotent(passLine.value);
      }
    }
  }

  /** When the program stops for an empty field, the client is never called. */
  lemma ExitSendsNothing(keyLine: Option<string>, userLine: Option<string>, passLine: Option<string>, hwid: string,
                         client: AuthRequest -> Reply, client': AuthRequest -> Reply, env: DateEnv, reading: Reading)
    requires BuildAttempt(keyLine, userLine, passLine, hwid) == BothFieldsRequired
    ensures LoginAsync(keyLine, userLine, passLine, hwid, client, env, reading) == Exited
    ensures LoginAsync(keyLine, userLine, passLine, hwid, client', env, reading) == Exited
  {
  }

  /** Once a request is sent: success with a key gives `(true, data.key)`;
      a rejection is classified and gives `(false, null)`; an exception from the
      client gives `(false, null)` and nothing is classified. */
  lemma LoginOutcomes(keyLine: Option<string>, userLine: Option<string>, passLine: Option<string>, hwid: string,
                      client: AuthRequest -> Reply, env: DateEnv, reading: Reading)
    requires BuildAttempt(keyLine, userLine, passLine, hwid).Send?
    ensures var reply := client(BuildAttempt(keyLine, userLine, passLine, hwid).request);
      var o := LoginAsync(keyLine, userLine, passLine, hwid, client, env, reading);
      && (o.LoggedIn? <==>
            reply.Answered? && reply.envelope.success && reply.envelope.data.Some? && !reply.envelope.data.value.key.Missing?)
      && (o.LoggedIn? ==> Returned(o) == Some((true, reply.envelope.data.value.key.AsString())))
      && (o.Denied? <==> reply.Answered? && !reply.envelope.success)
      && (o.Denied? ==> o.reason == Classify(reply.envelope.message, reply.envelope.data, env, reading)
                        && Returned(o) == Some((false, None)))
      && (o.ConnectionError? <==> reply.Threw?)
      && (o.ConnectionError? ==> Returned(o) == Some((false, None)))
  {
  }
}
