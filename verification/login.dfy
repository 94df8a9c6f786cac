/**
 * The sign-in screen: how it routes on entry (a return from registration, an
 * already signed-in user, or neither) and the input check before signing in.
 */
module LoginActivity {
  import opened JavaLang
  import opened Remote

  /**
   * The extras of the intent that opened the screen; an absent extra is Null.
   * The registration screen sends "reg_success" and "prefill_email".
   */
  datatype Extras = Extras(regSuccess: Nullable<bool>, prefillEmail: Nullable<string>)

  /** getBooleanExtra("reg_success", false) on a possibly-null intent. */
  predicate RegSuccess(intent: Nullable<Extras>)
  {
    intent.NonNull? && intent.value.regSuccess == NonNull(true)
  }

  /** How onCreate ends. */
  datatype LoginEntry =
    | ForwardToMain
    | ShowLogin(emailField: Nullable<string>, signOut: bool, toast: Nullable<string>)

  /**
   * onCreate: after a registration the screen fills in the email it was
   * given, signs out any current user and stays; otherwise a signed-in user is
   * sent on to the map screen before any handler is installed.
   */
  function LoginOnCreate(intent: Nullable<Extras>, userPresent: bool): (r: LoginEntry)
    ensures r.ForwardToMain? <==> !RegSuccess(intent) && userPresent
    ensures r.ShowLogin? && RegSuccess(intent) ==>
              r.emailField == intent.value.prefillEmail && r.signOut == userPresent && r.toast.NonNull?
    ensures r.ShowLogin? && !RegSuccess(intent) ==> r == ShowLogin(Null, false, Null)
  {
    if RegSuccess(intent) then
      ShowLogin(intent.value.prefillEmail, userPresent, NonNull("Sikeres regisztráció! Jelentkezz be."))
    else if userPresent then ForwardToMain
    else ShowLogin(Null, false, Null)
  }

  /** What the login button does with the two fields. */
  datatype LoginAction = LoginRejected(message: string) | SignIn(email: string, password: string)

  /**
   * doLogin: both fields are trimmed, and the sign-in call is made only when
   * neither trimmed value is empty.
   */
  function DoLogin(emailText: string, passwordText: string): (a: LoginAction)
    ensures a.SignIn? <==>
              (exists i :: 0 <= i < |emailText| && !IsTrimmable(emailText[i])) &&
              (exists i :: 0 <= i < |passwordText| && !IsTrimmable(passwordText[i]))
    ensures a.SignIn? ==>
              0 < |a.email| && 0 < |a.password| &&
              IsTrimOf(emailText, a.email) && IsTrimOf(passwordText, a.password)
    ensures a.SignIn? ==> a.email == Trim(emailText) && a.password == Trim(passwordText)
  {
    var email := Trim(emailText);
    var pass := Trim(passwordText);
    assert |email| == 0 <==> forall i :: 0 <= i < |emailText| ==> IsTrimmable(emailText[i]);
    assert |pass| == 0 <==> forall i :: 0 <= i < |passwordText| ==> IsTrimmable(passwordText[i]);
    assert IsTrimOf(emailText, email) && IsTrimOf(passwordText, pass);
    if |email| == 0 || |pass| == 0 then LoginRejected("Email és jelszó kell!")
    else SignIn(email, pass)
  }

  /** Retyping what was just sent signs in with the very same credentials. */
  lemma DoLoginStable(emailText: string, passwordText: string)
    ensures
      var a := DoLogin(emailText, passwordText);
      a.SignIn? ==> DoLogin(a.email, a.password) == a
  {
    TrimIdempotent(emailText);
    TrimIdempotent(passwordText);
  }

  /** What the sign-in result does. */
  datatype SignInResult = GoToMainAndFinish | ShowSignInError(message: string)

  /** A successful sign-in opens the map screen and closes this one; a failure reports the message. */
  function OnSignInResult(result: Outcome<()>): (r: SignInResult)
    ensures r.GoToMainAndFinish? <==> result.Success?
    ensures result.Failure? ==> r.message == ConcatNullable("Hiba: ", result.error.message)
  {
    match result
    case Success(_) => GoToMainAndFinish
    case Failure(e) => ShowSignInError(ConcatNullable("Hiba: ", e.message))
  }
}
