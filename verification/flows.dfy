/**
 * Properties that span screens: the hand-over from registration to sign-in,
 * and how the three screens treat the same typed credentials.
 */
module Flows {
  import opened JavaLang
  import opened Remote
  import AccountActivity
  import RegisterActivity
  import LoginActivity

  /**
   * A completed registration opens the sign-in screen with the trimmed email
   * filled in, signs out whoever is still signed in there, and never forwards
   * to the map screen.
   */
  lemma RegistrationLandsOnLogin(emailText: string, passwordText: string, unameText: string, uid: string,
                                 userPresent: bool, userStillPresent: bool, emailPattern: string -> bool)
    requires RegisterActivity.Validate(Trim(emailText), Trim(passwordText), Trim(unameText), emailPattern).Valid?
    ensures
      var s1 := RegisterActivity.StepRegister(RegisterActivity.RegisterStart,
                  RegisterActivity.RegisterTapped(emailText, passwordText, unameText), emailPattern);
      var s2 := RegisterActivity.StepRegister(s1.screen, RegisterActivity.AuthFinished(Success(NonNull(uid))), emailPattern);
      var s3 := RegisterActivity.StepRegister(s2.screen, RegisterActivity.ProfileFinished(Success(()), userPresent), emailPattern);
      && s3.effect.GoToLogin?
      && var entry := LoginActivity.LoginOnCreate(NonNull(s3.effect.extras), userStillPresent);
      && entry.ShowLogin?
      && entry.emailField == NonNull(Trim(emailText))
      && entry.signOut == userStillPresent
  {
    RegisterActivity.HappyPath(emailText, passwordText, unameText, uid, userPresent, emailPattern);
  }

  /**
   * Both screens trim the same way: the credentials registration creates the
   * account with are exactly those the sign-in screen sends for the same
   * typed text.
   */
  lemma SameCredentialsAtRegistrationAndLogin(emailText: string, passwordText: string, unameText: string,
                                              emailPattern: string -> bool)
    requires RegisterActivity.Validate(Trim(emailText), Trim(passwordText), Trim(unameText), emailPattern).Valid?
    ensures
      var s1 := RegisterActivity.StepRegister(RegisterActivity.RegisterStart,
                  RegisterActivity.RegisterTapped(emailText, passwordText, unameText), emailPattern);
      s1.effect.CreateUser? &&
      LoginActivity.DoLogin(emailText, passwordText) == LoginActivity.SignIn(s1.effect.email, s1.effect.password)
  {
  }

  /**
   * The password-change dialog uses its fields untrimmed while sign-in trims:
   * a new password with a trailing blank passes every dialog check, yet the
   * sign-in screen sends it without that blank.
   */
  lemma PasswordChangeKeepsBlanksLoginDropsThem(email: string, current: string, stem: string)
    requires 0 < |current| && 5 <= |stem|
    requires !IsTrimmable(stem[0]) && !IsTrimmable(stem[|stem| - 1])
    requires 0 < |email| && !IsTrimmable(email[0]) && !IsTrimmable(email[|email| - 1])
    ensures AccountActivity.CheckNewPassword(current, stem + " ", stem + " ").Accepted?
    ensures LoginActivity.DoLogin(email, stem + " ") == LoginActivity.SignIn(email, stem)
    ensures stem != stem + " "
  {
    var p := stem + " ";
    assert p[0] == stem[0];
    TrimOfTrimmed(email);
    TrimOfTrimmed(stem);
    assert TrimStart(p) == 0;
    assert TrimEnd(p) == |stem| by {
      assert p[..|p| - 1] == stem;
    }
    assert p[0..|stem|] == stem;
  }

  /** Six blanks: accepted as a new password by the dialog, refused by registration and sign-in. */
  lemma BlankPasswordOnlyAcceptedByDialog(current: string, emailText: string, unameText: string,
                                          emailPattern: string -> bool)
    requires 0 < |current|
    ensures AccountActivity.CheckNewPassword(current, "      ", "      ").Accepted?
    ensures !RegisterActivity.Validate(Trim(emailText), Trim("      "), Trim(unameText), emailPattern).Valid?
    ensures LoginActivity.DoLogin(emailText, "      ").LoginRejected?
  {
    var blanks := "      ";
    assert forall i :: 0 <= i < |blanks| ==> IsTrimmable(blanks[i]);
  }

  /**
   * Password lengths are counted in UTF-16 code units, as String.length
   * counts them: three characters from outside the Basic Multilingual Plane
   * make a password of length six, which the dialog accepts and registration
   * does not refuse as too short.
   */
  lemma SupplementaryCharactersCountTwice(current: string, emailText: string, unameText: string,
                                          emailPattern: string -> bool)
    requires 0 < |current|
    ensures
      var p := "\U{1F600}\U{1F600}\U{1F600}";
      && |p| == 3 && JavaLength(p) == 6
      && AccountActivity.CheckNewPassword(current, p, p).Accepted?
      && RegisterActivity.Validate(Trim(emailText), Trim(p), Trim(unameText), emailPattern)
           != RegisterActivity.Invalid(RegisterActivity.PasswordTooShort)
  {
    var p := "\U{1F600}\U{1F600}\U{1F600}";
    TrimOfTrimmed(p);
  }
}
