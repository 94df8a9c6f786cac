/**
 * The registration screen: trimming and ordered validation of the three
 * fields, the `submitting` guard against double submission, the enabled state
 * of the five controls, and the chain account creation -> profile write ->
 * sign-out -> back to the sign-in screen with the email filled in.
 */
module RegisterActivity {
  import opened JavaLang
  import opened Remote
  import LoginActivity

  // ---------------------------------------------------------------------------
  // Validation

  /** The failures validate reports, one per check. */
  datatype InputError =
    | UsernameRequired
    | EmailRequired
    | EmailInvalid
    | PasswordRequired
    | PasswordTooShort

  datatype Field = EmailField | PasswordField | UsernameField

  /** The field that gets the error and the focus: the field whose check failed. */
  function ErrorField(e: InputError): (f: Field)
    ensures f == UsernameField <==> e.UsernameRequired?
    ensures f == EmailField <==> e.EmailRequired? || e.EmailInvalid?
    ensures f == PasswordField <==> e.PasswordRequired? || e.PasswordTooShort?
  {
    match e
    case UsernameRequired => UsernameField
    case EmailRequired | EmailInvalid => EmailField
    case PasswordRequired | PasswordTooShort => PasswordField
  }

  /** The error text set on that field: "Required" for every missing value. */
  function ErrorText(e: InputError): (t: string)
    ensures t == "Required" <==> e.UsernameRequired? || e.EmailRequired? || e.PasswordRequired?
    ensures t == "Invalid email" <==> e.EmailInvalid?
    ensures t == "At least 6 characters" <==> e.PasswordTooShort?
  {
    match e
    case EmailInvalid => "Invalid email"
    case PasswordTooShort => "At least 6 characters"
    case _ => "Required"
  }

  datatype Validation = Valid | Invalid(error: InputError)

  /**
   * validate: the checks run in the order username present, email present,
   * email well-formed (`emailPattern` stands for the platform's email-address
   * pattern), password present, password at least six UTF-16 code units
   * (String.length); the first
   * failing one is reported.
   */
  function Validate(email: string, pass: string, uname: string, emailPattern: string -> bool): (v: Validation)
    ensures v.Valid? <==>
              0 < |uname| && 0 < |email| && emailPattern(email) && MinPasswordLength <= JavaLength(pass)
    ensures v == Invalid(UsernameRequired) <==> |uname| == 0
    ensures v == Invalid(EmailRequired) <==> 0 < |uname| && |email| == 0
    ensures v == Invalid(EmailInvalid) <==> 0 < |uname| && 0 < |email| && !emailPattern(email)
    ensures v == Invalid(PasswordRequired) <==>
              0 < |uname| && 0 < |email| && emailPattern(email) && |pass| == 0
    ensures v == Invalid(PasswordTooShort) <==>
              0 < |uname| && 0 < |email| && emailPattern(email) && 0 < |pass| && JavaLength(pass) < MinPasswordLength
  {
    if |uname| == 0 then Invalid(UsernameRequired)
    else if |email| == 0 then Invalid(EmailRequired)
    else if !emailPattern(email) then Invalid(EmailInvalid)
    else if |pass| == 0 then Invalid(PasswordRequired)
    else if JavaLength(pass) < MinPasswordLength then Invalid(PasswordTooShort)
    else Valid
  }

  // ---------------------------------------------------------------------------
  // Screen state

  /** The enabled flags of the email, password and username fields, the register button and the sign-in link. */
  datatype Controls = Controls(email: bool, password: bool, username: bool, register: bool, toLogin: bool)

  /** setUiEnabled(enabled): every control gets the same flag. */
  function SetUiEnabled(enabled: bool): (c: Controls)
    ensures c.email == enabled && c.password == enabled && c.username == enabled
    ensures c.register == enabled && c.toLogin == enabled
  {
    Controls(enabled, enabled, enabled, enabled, enabled)
  }

  /** Which remote call is in flight, carrying the trimmed inputs it was started with. */
  datatype Phase =
    | Editing
    | CreatingUser(email: string, uname: string)
    | WritingProfile(uid: string, email: string, uname: string)
    | Done

  datatype RegisterScreen = RegisterScreen(submitting: bool, controls: Controls, phase: Phase)

  const RegisterStart := RegisterScreen(false, SetUiEnabled(true), Editing)

  /**
   * The invariant of the screen: `submitting` is set exactly while a remote
   * call is in flight or the screen has finished, the controls are enabled
   * exactly when it is clear, and the inputs carried along are trimmed and
   * non-empty.
   */
  predicate ValidRegister(s: RegisterScreen)
  {
    && (s.submitting <==> !s.phase.Editing?)
    && s.controls == SetUiEnabled(!s.submitting)
    && (s.phase.CreatingUser? ==>
          0 < |s.phase.email| && IsTrimmed(s.phase.email) && 0 < |s.phase.uname| && IsTrimmed(s.phase.uname))
    && (s.phase.WritingProfile? ==>
          0 < |s.phase.email| && IsTrimmed(s.phase.email) && 0 < |s.phase.uname| && IsTrimmed(s.phase.uname))
  }

  // ---------------------------------------------------------------------------
  // Steps

  datatype RegisterEvent =
    | RegisterTapped(emailText: string, passwordText: string, unameText: string)
    | AuthFinished(auth: Outcome<Nullable<string>>)         // the new user's uid, or a null user
    | ProfileFinished(result: Outcome<()>, userPresent: bool) // whether auth still has a current user

  datatype RegisterEffect =
    | NoEffect
    | ShowInputError(field: Field, text: string)
    | CreateUser(email: string, password: string)
    | WriteProfile(uid: string, email: string, uname: string)
    | GoToLogin(signOut: bool, extras: LoginActivity.Extras)

  datatype RegisterStep = RegisterStep(screen: RegisterScreen, effect: RegisterEffect, toast: Nullable<string>)

  /** fail(msg): report, clear `submitting`, enable the controls again. */
  function Fail(message: string): (t: RegisterStep)
    ensures !t.screen.submitting && t.screen.controls == SetUiEnabled(true)
    ensures ValidRegister(t.screen) && t.effect.NoEffect? && t.toast == NonNull(message)
  {
    RegisterStep(RegisterScreen(false, SetUiEnabled(true), Editing), NoEffect, NonNull(message))
  }

  /** The message for a failed account creation. */
  function AuthErrorMessage(e: Exception): (m: string)
    ensures e.kind.UserCollision? ==> m == "This email is already registered. Please sign in!"
    ensures e.kind.OtherError? ==> m == ConcatNullable("Registration error: ", e.message)
  {
    if e.kind.UserCollision? then "This email is already registered. Please sign in!"
    else ConcatNullable("Registration error: ", e.message)
  }

  /**
   * One event of the registration screen. A callback arrives only for the
   * call that is in flight; any other pairing leaves the screen as it is.
   */
  function StepRegister(s: RegisterScreen, e: RegisterEvent, emailPattern: string -> bool): (t: RegisterStep)
    requires ValidRegister(s)
    ensures ValidRegister(t.screen)
    // re-entrancy: nothing happens while a submission is under way
    ensures s.submitting && e.RegisterTapped? ==> t.screen == s && t.effect.NoEffect?
    // a failed validation makes no call and leaves the screen as it was
    ensures !s.submitting && e.RegisterTapped? &&
            Validate(Trim(e.emailText), Trim(e.passwordText), Trim(e.unameText), emailPattern).Invalid? ==>
              t.screen == s && !t.screen.submitting && t.effect.ShowInputError?
    // ... and marks the field whose check failed with that check's text
    ensures !s.submitting && e.RegisterTapped? ==>
              var v := Validate(Trim(e.emailText), Trim(e.passwordText), Trim(e.unameText), emailPattern);
              v.Invalid? ==> t.effect == ShowInputError(ErrorField(v.error), ErrorText(v.error))
    // submitting is raised only by a tap whose trimmed inputs pass validation
    ensures !s.submitting && t.screen.submitting ==>
              e.RegisterTapped? &&
              Validate(Trim(e.emailText), Trim(e.passwordText), Trim(e.unameText), emailPattern).Valid?
    ensures t.effect.CreateUser? ==>
              e.RegisterTapped? && !s.submitting &&
              t.effect.email == Trim(e.emailText) && t.effect.password == Trim(e.passwordText) &&
              t.screen.phase == CreatingUser(Trim(e.emailText), Trim(e.unameText))
    // the profile is written only after the account was created, with the trimmed inputs
    ensures t.effect.WriteProfile? ==>
              s.phase.CreatingUser? && e.AuthFinished? && e.auth == Success(NonNull(t.effect.uid)) &&
              t.effect.email == s.phase.email && t.effect.uname == s.phase.uname
    // after the profile is written: sign out if needed, and go to sign-in with the email and the flag
    ensures t.effect.GoToLogin? ==>
              s.phase.WritingProfile? && e.ProfileFinished? && e.result.Success? &&
              t.effect.signOut == e.userPresent &&
              t.effect.extras == LoginActivity.Extras(NonNull(true), NonNull(s.phase.email))
    // every failure of a remote call ends the submission through fail(msg)
    ensures s.phase.CreatingUser? && e.AuthFinished? && e.auth.Failure? ==>
              t == Fail(AuthErrorMessage(e.auth.error))
    ensures s.phase.CreatingUser? && e == AuthFinished(Success(Null)) ==>
              t == Fail("Unknown auth error (user null)")
    ensures s.phase.WritingProfile? && e.ProfileFinished? && e.result.Failure? ==>
              t == Fail(ConcatNullable("Profile save error: ", e.result.error.message))
  {
    match (s.phase, e)
    case (Editing, RegisterTapped(emailText, passwordText, unameText)) =>
      var email := Trim(emailText);
      var pass := Trim(passwordText);
      var uname := Trim(unameText);
      var v := Validate(email, pass, uname, emailPattern);
      if v.Invalid? then
        RegisterStep(s, ShowInputError(ErrorField(v.error), ErrorText(v.error)), Null)
      else
        RegisterStep(RegisterScreen(true, SetUiEnabled(false), CreatingUser(email, uname)),
                     CreateUser(email, pass), NonNull("Registration in progress..."))
    case (CreatingUser(email, uname), AuthFinished(Success(user))) =>
      if user.Null? then Fail("Unknown auth error (user null)")
      else RegisterStep(s.(phase := WritingProfile(user.value, email, uname)),
                        WriteProfile(user.value, email, uname), Null)
    case (CreatingUser(_, _), AuthFinished(Failure(err))) =>
      Fail(AuthErrorMessage(err))
    case (WritingProfile(_, email, _), ProfileFinished(Success(_), userPresent)) =>
      RegisterStep(s.(phase := Done),
                   GoToLogin(userPresent, LoginActivity.Extras(NonNull(true), NonNull(email))),
                   NonNull("Registration successful! Please sign in."))
    case (WritingProfile(_, _, _), ProfileFinished(Failure(err), _)) =>
      Fail(ConcatNullable("Profile save error: ", err.message))
    case _ =>
      RegisterStep(s, NoEffect, Null)
  }

  /** The screen after a sequence of events. */
  function RunRegister(s: RegisterScreen, events: seq<RegisterEvent>, emailPattern: string -> bool): RegisterScreen
    requires ValidRegister(s)
    decreases |events|
  {
    if |events| == 0 then s
    else RunRegister(StepRegister(s, events[0], emailPattern).screen, events[1..], emailPattern)
  }

  /** No sequence of taps and callbacks breaks the screen's invariant. */
  lemma {:induction false} RunRegisterValid(s: RegisterScreen, events: seq<RegisterEvent>, emailPattern: string -> bool)
    requires ValidRegister(s)
    ensures ValidRegister(RunRegister(s, events, emailPattern))
    decreases |events|
  {
    if |events| > 0 {
      RunRegisterValid(StepRegister(s, events[0], emailPattern).screen, events[1..], emailPattern);
    }
  }

  /**
   * Taps that arrive while an account creation is in flight are all ignored:
   * the screen is exactly as the first tap left it.
   */
  lemma {:induction false} RepeatedTapsIgnored(s: RegisterScreen, taps: seq<RegisterEvent>, emailPattern: string -> bool)
    requires ValidRegister(s) && s.submitting
    requires forall k :: 0 <= k < |taps| ==> taps[k].RegisterTapped?
    ensures RunRegister(s, taps, emailPattern) == s
    decreases |taps|
  {
    if |taps| > 0 {
      RepeatedTapsIgnored(s, taps[1..], emailPattern);
    }
  }

  /**
   * The whole happy path: a valid tap, a created account, a written profile.
   * The sign-in screen is opened with the trimmed email and the success flag.
   */
  lemma HappyPath(emailText: string, passwordText: string, unameText: string, uid: string,
                  userPresent: bool, emailPattern: string -> bool)
    requires Validate(Trim(emailText), Trim(passwordText), Trim(unameText), emailPattern).Valid?
    ensures
      var s1 := StepRegister(RegisterStart, RegisterTapped(emailText, passwordText, unameText), emailPattern);
      var s2 := StepRegister(s1.screen, AuthFinished(Success(NonNull(uid))), emailPattern);
      var s3 := StepRegister(s2.screen, ProfileFinished(Success(()), userPresent), emailPattern);
      && s1.effect == CreateUser(Trim(emailText), Trim(passwordText))
      && s2.effect == WriteProfile(uid, Trim(emailText), Trim(unameText))
      && s3.effect == GoToLogin(userPresent, LoginActivity.Extras(NonNull(true), NonNull(Trim(emailText))))
  {
  }
}
