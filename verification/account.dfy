/**
 * The account screen: profile loading with lazy creation of a default
 * profile, username update, the local password-change dialog with its
 * button discipline, and the translation of provider error text into
 * user-facing messages.
 */
module AccountActivity {
  import opened JavaLang
  import opened Remote

  // ---------------------------------------------------------------------------
  // Default username

  /**
   * The username a freshly created profile gets: the part of the email before
   * its first '@', the email itself when that part would be empty or there is
   * no '@', and "user" when the account has no email.
   */
  function DeriveDefaultUsername(email: Nullable<string>): (r: string)
    ensures email.Null? ==> r == "user"
    ensures email.NonNull? ==> r <= email.value
    ensures email.NonNull? && ('@' !in email.value || email.value[0] == '@') ==> r == email.value
    ensures email.NonNull? && '@' in email.value && email.value[0] != '@' ==>
              0 < |r| < |email.value| && email.value[|r|] == '@' && '@' !in r
  {
    match email
    case Null => "user"
    case NonNull(e) =>
      var at := IndexOf(e, '@');
      if at > 0 then e[..at] else e
  }

  /** The default username of `local@domain` is `local` whenever `local` is a non-empty name without '@'. */
  lemma DefaultUsernameIsLocalPart(local: string, domain: string)
    requires 0 < |local| && '@' !in local
    ensures DeriveDefaultUsername(NonNull(local + "@" + domain)) == local
  {
    var e := local + "@" + domain;
    assert forall j :: 0 <= j < |local| ==> e[j] == local[j];
    assert e[|local|] == '@';
    assert e[..|local|] == local;
  }

  // ---------------------------------------------------------------------------
  // Error text translation

  const UnknownErrorMessage := "unknown error"
  const PermissionDeniedMessage := "Permission denied (Firestore rules / API)."
  const DocumentNotFoundMessage := "Document not found."
  const NetworkErrorMessage := "Network error. Check your internet connection."
  const RecentLoginMessage := "For security reasons, a recent login is required. Please sign out and sign in again."
  const WeakPasswordMessage := "Weak password. Use at least 6 characters."
  const WrongPasswordMessage := "Incorrect current password."

  // The phrases the translation looks for.
  const PermissionDeniedCode := "PERMISSION_DENIED"
  const NotFoundCode := "NOT_FOUND"
  const NetworkPhrase := "network"
  const RequiresRecentLoginPhrase := "requires recent login"
  const RecentPhrase := "recent"
  const WeakPasswordPhrase := "weak password"
  const PasswordLengthPhrase := "password should be at least"
  const PasswordInvalidPhrase := "password is invalid"
  const InvalidPasswordPhrase := "invalid password"

  /**
   * Translates provider error text into a user-facing message. The first two
   * tests look at the raw text; the others at its lower-cased form.
   */
  function Readable(raw: Nullable<string>): (r: string)
    ensures raw.Null? ==> r == UnknownErrorMessage
    ensures raw.NonNull? ==> r == RuleTranslation(raw.value)
    ensures raw.NonNull? && (forall j :: 0 <= j < |ErrorRules| ==> !Fires(ErrorRules[j], raw.value)) ==>
              r == raw.value
  {
    match raw
    case Null => UnknownErrorMessage
    case NonNull(text) =>
      var low := ToLower(text);
      var r :=
        if Contains(text, PermissionDeniedCode) then PermissionDeniedMessage
        else if Contains(text, NotFoundCode) then DocumentNotFoundMessage
        else if Contains(low, NetworkPhrase) then NetworkErrorMessage
        else if Contains(low, RecentPhrase) || Contains(low, RequiresRecentLoginPhrase) then RecentLoginMessage
        else if Contains(low, WeakPasswordPhrase) || Contains(low, PasswordLengthPhrase) then WeakPasswordMessage
        else if Contains(low, PasswordInvalidPhrase) || Contains(low, InvalidPasswordPhrase) then WrongPasswordMessage
        else text;
      ReadableFollowsRules(text);
      r
  }

  /** What a translation rule looks at: the raw text or its lower-cased form. */
  datatype Test = RawContains(phrases: seq<string>) | LowerContains(phrases: seq<string>)

  /** One translation rule: when its test matches, the message replaces the text. */
  datatype ErrorRule = ErrorRule(test: Test, message: string)

  /** The translation rules, highest priority first. */
  const ErrorRules: seq<ErrorRule> := [
    ErrorRule(RawContains([PermissionDeniedCode]), PermissionDeniedMessage),
    ErrorRule(RawContains([NotFoundCode]), DocumentNotFoundMessage),
    ErrorRule(LowerContains([NetworkPhrase]), NetworkErrorMessage),
    ErrorRule(LowerContains([RecentPhrase, RequiresRecentLoginPhrase]), RecentLoginMessage),
    ErrorRule(LowerContains([WeakPasswordPhrase, PasswordLengthPhrase]), WeakPasswordMessage),
    ErrorRule(LowerContains([PasswordInvalidPhrase, InvalidPasswordPhrase]), WrongPasswordMessage)
  ]

  predicate ContainsAny(text: string, phrases: seq<string>)
  {
    exists k :: 0 <= k < |phrases| && Contains(text, phrases[k])
  }

  /** Whether `rule` matches the error text `raw`. */
  predicate Fires(rule: ErrorRule, raw: string)
  {
    match rule.test
    case RawContains(ps) => ContainsAny(raw, ps)
    case LowerContains(ps) => ContainsAny(ToLower(raw), ps)
  }

  /** The index of the first rule that matches `raw`, or -1 when none does. */
  function FirstFiring(rules: seq<ErrorRule>, raw: string): (k: int)
    ensures -1 <= k < |rules|
    ensures 0 <= k ==> Fires(rules[k], raw)
    ensures forall j :: 0 <= j < |rules| && (k < 0 || j < k) ==> !Fires(rules[j], raw)
  {
    if |rules| == 0 then -1
    else if Fires(rules[0], raw) then 0
    else
      var k := FirstFiring(rules[1..], raw);
      if k < 0 then -1 else k + 1
  }

  /** The table-driven reading of the translation: the first matching rule's message, else the text itself. */
  function RuleTranslation(raw: string): string
  {
    var k := FirstFiring(ErrorRules, raw);
    if k < 0 then raw else ErrorRules[k].message
  }

  /** `readable`'s chain of tests is the rule table read in priority order. */
  lemma ReadableFollowsRules(text: string)
    ensures
      var low := ToLower(text);
      RuleTranslation(text) ==
        if Contains(text, PermissionDeniedCode) then PermissionDeniedMessage
        else if Contains(text, NotFoundCode) then DocumentNotFoundMessage
        else if Contains(low, NetworkPhrase) then NetworkErrorMessage
        else if Contains(low, RecentPhrase) || Contains(low, RequiresRecentLoginPhrase) then RecentLoginMessage
        else if Contains(low, WeakPasswordPhrase) || Contains(low, PasswordLengthPhrase) then WeakPasswordMessage
        else if Contains(low, PasswordInvalidPhrase) || Contains(low, InvalidPasswordPhrase) then WrongPasswordMessage
        else text
  {
    RuleTests(text);
    var k := FirstFiring(ErrorRules, text);
    if Fires(ErrorRules[0], text) {
      assert k == 0;
    } else if Fires(ErrorRules[1], text) {
      assert k == 1;
    } else if Fires(ErrorRules[2], text) {
      assert k == 2;
    } else if Fires(ErrorRules[3], text) {
      assert k == 3;
    } else if Fires(ErrorRules[4], text) {
      assert k == 4;
    } else if Fires(ErrorRules[5], text) {
      assert k == 5;
    } else {
      assert k == -1;
    }
  }

  /** What each rule of the table tests, phrase by phrase. */
  lemma RuleTests(raw: string)
    ensures Fires(ErrorRules[0], raw) <==> Contains(raw, PermissionDeniedCode)
    ensures Fires(ErrorRules[1], raw) <==> Contains(raw, NotFoundCode)
    ensures Fires(ErrorRules[2], raw) <==> Contains(ToLower(raw), NetworkPhrase)
    ensures Fires(ErrorRules[3], raw) <==>
              Contains(ToLower(raw), RecentPhrase) || Contains(ToLower(raw), RequiresRecentLoginPhrase)
    ensures Fires(ErrorRules[4], raw) <==>
              Contains(ToLower(raw), WeakPasswordPhrase) || Contains(ToLower(raw), PasswordLengthPhrase)
    ensures Fires(ErrorRules[5], raw) <==>
              Contains(ToLower(raw), PasswordInvalidPhrase) || Contains(ToLower(raw), InvalidPasswordPhrase)
  {
    var low := ToLower(raw);
    ContainsAnyOfOne(raw, PermissionDeniedCode);
    ContainsAnyOfOne(raw, NotFoundCode);
    ContainsAnyOfOne(low, NetworkPhrase);
    ContainsAnyOfTwo(low, RecentPhrase, RequiresRecentLoginPhrase);
    ContainsAnyOfTwo(low, WeakPasswordPhrase, PasswordLengthPhrase);
    ContainsAnyOfTwo(low, PasswordInvalidPhrase, InvalidPasswordPhrase);
  }

  lemma ContainsAnyOfOne(text: string, a: string)
    ensures ContainsAny(text, [a]) <==> Contains(text, a)
  {
    assert [a][0] == a;
  }

  lemma ContainsAnyOfTwo(text: string, a: string, b: string)
    ensures ContainsAny(text, [a, b]) <==> Contains(text, a) || Contains(text, b)
  {
    assert [a, b][0] == a && [a, b][1] == b;
  }

  /** Every character of a contained phrase occurs in the text. */
  lemma ContainedCharsOccur(s: string, sub: string, k: int)
    requires 0 <= k < |sub|
    ensures Contains(s, sub) ==> sub[k] in s
  {
    if Contains(s, sub) {
      var i :| OccursAt(s, sub, i);
      assert s[i + k] == s[i..i + |sub|][k];
    }
  }

  /** A rule that does not match is never the first matching one. */
  lemma FirstFiringSkips(rules: seq<ErrorRule>, raw: string, j: int)
    requires 0 <= j < |rules| && !Fires(rules[j], raw)
    ensures FirstFiring(rules, raw) != j
  {
  }

  /** The two codes cannot match a text that lacks their first letters. */
  lemma CodesNeedTheirFirstLetters(raw: string)
    requires 'P' !in raw && 'N' !in raw
    ensures FirstFiring(ErrorRules, raw) !in {0, 1}
  {
    RuleTests(raw);
    ContainedCharsOccur(raw, PermissionDeniedCode, 0);
    ContainedCharsOccur(raw, NotFoundCode, 0);
    FirstFiringSkips(ErrorRules, raw, 0);
    FirstFiringSkips(ErrorRules, raw, 1);
  }

  /**
   * The two upper-case codes are matched case-sensitively: error text without
   * upper-case ASCII letters never reaches the first two rules.
   */
  lemma CaseSensitiveCodes(raw: string)
    requires forall i :: 0 <= i < |raw| ==> !('A' <= raw[i] <= 'Z')
    ensures FirstFiring(ErrorRules, raw) !in {0, 1}
  {
    assert 'P' !in raw && 'N' !in raw;
    CodesNeedTheirFirstLetters(raw);
  }

  /** An upper-case occurrence of a lower-case phrase becomes an occurrence in the lower-cased text. */
  lemma LowerCasedOccurrence(raw: string, upper: string, lower: string, i: int)
    requires OccursAt(raw, upper, i) && |upper| == |lower|
    requires forall k :: 0 <= k < |upper| ==> LowerChar(upper[k]) == lower[k]
    ensures Contains(ToLower(raw), lower)
  {
    var low := ToLower(raw);
    forall k | 0 <= k < |upper|
      ensures low[i + k] == lower[k]
    {
      assert raw[i + k] == upper[k];
    }
    assert low[i..i + |lower|] == lower;
    assert OccursAt(low, lower, i);
  }

  /** "NETWORK" in a text is "network" in its lower-cased form. */
  lemma UpperNetworkLowers(raw: string)
    requires Contains(raw, "NETWORK")
    ensures Contains(ToLower(raw), NetworkPhrase)
  {
    var i :| OccursAt(raw, "NETWORK", i);
    assert "NETWORK" == ['N', 'E', 'T', 'W', 'O', 'R', 'K'];
    assert NetworkPhrase == ['n', 'e', 't', 'w', 'o', 'r', 'k'];
    assert forall k :: 0 <= k < 7 ==> LowerChar("NETWORK"[k]) == NetworkPhrase[k];
    LowerCasedOccurrence(raw, "NETWORK", NetworkPhrase, i);
  }

  /** Lower-casing makes the later phrases case-insensitive: "NETWORK" is a network error. */
  lemma NetworkPhraseIgnoresCase(raw: string)
    requires Contains(raw, "NETWORK")
    requires !Contains(raw, PermissionDeniedCode) && !Contains(raw, NotFoundCode)
    ensures Readable(NonNull(raw)) == NetworkErrorMessage
  {
    UpperNetworkLowers(raw);
    ReadableFollowsRules(raw);
  }

  /** "recent" occurs in "requires recent login". */
  lemma RecentInRequiresRecentLogin()
    ensures Contains(RequiresRecentLoginPhrase, RecentPhrase)
  {
    assert RequiresRecentLoginPhrase[9..15] == RecentPhrase;
    assert OccursAt(RequiresRecentLoginPhrase, RecentPhrase, 9);
  }

  /**
   * The longer phrase of the recent-login rule can never decide the outcome:
   * any text containing "requires recent login" already contains "recent".
   */
  lemma RecentLoginPhraseSubsumed(raw: string)
    ensures Fires(ErrorRules[3], raw) <==> Contains(ToLower(raw), RecentPhrase)
  {
    RuleTests(raw);
    RecentInRequiresRecentLogin();
    if Contains(ToLower(raw), RequiresRecentLoginPhrase) {
      ContainsTransitive(ToLower(raw), RequiresRecentLoginPhrase, RecentPhrase);
    }
  }

  // ---------------------------------------------------------------------------
  // Entering the screen and loading the profile

  /** What onCreate does: close the screen, or show it and load the profile. */
  datatype AccountEntry = CloseScreen | ShowAccount(emailLabel: string, loadProfileOf: string)

  /** Session guard of the account screen: without a signed-in user it closes at once. */
  function AccountOnCreate(user: Nullable<AuthUser>): (r: AccountEntry)
    ensures r.CloseScreen? <==> user.Null?
    ensures r.ShowAccount? ==> r.loadProfileOf == user.value.uid
    ensures r.ShowAccount? ==> r.emailLabel == ConcatNullable("Email: ", user.value.email)
  {
    match user
    case Null => CloseScreen
    case NonNull(u) => ShowAccount(ConcatNullable("Email: ", u.email), u.uid)
  }

  /** The profile document as a read returns it. */
  datatype Snapshot = NoSnapshot | Missing | Existing(username: Nullable<string>)

  /** The fields of a profile document; `createdAt` is the clock reading at the write. */
  datatype Profile = Profile(username: string, email: Nullable<string>, createdAt: int)

  const NoUsernameHint := "No username"

  /** What fillUser does with a successful read. */
  datatype FillAction =
    | ShowUsername(username: string)
    | ShowHint(hint: string)
    | WriteDefaultProfile(uid: string, profile: Profile)
    | NoAction

  /**
   * fillUser: an existing document fills the username field (or the hint when
   * it has no username); a missing one makes the screen write a default
   * profile for the current user, if there still is one. `now` is the clock.
   */
  function FillUser(snap: Snapshot, current: Nullable<AuthUser>, now: int): (a: FillAction)
    ensures snap.Existing? && snap.username.NonNull? <==> a.ShowUsername?
    ensures a.ShowUsername? ==> a.username == snap.username.value
    ensures snap.Existing? && snap.username.Null? <==> a.ShowHint?
    ensures a.ShowHint? ==> a.hint == NoUsernameHint
    ensures a.NoAction? <==> !snap.Existing? && current.Null?
    ensures a.WriteDefaultProfile? <==> !snap.Existing? && current.NonNull?
    ensures a.WriteDefaultProfile? ==>
              a.uid == current.value.uid &&
              a.profile == Profile(DeriveDefaultUsername(current.value.email), current.value.email, now)
  {
    match snap
    case Existing(Null) => ShowHint(NoUsernameHint)
    case Existing(NonNull(u)) => ShowUsername(u)
    case _ =>
      match current
      case Null => NoAction
      case NonNull(u) =>
        WriteDefaultProfile(u.uid, Profile(DeriveDefaultUsername(u.email), u.email, now))
  }

  /** Outcome of writing the default profile: the username shown, or the failure message. */
  datatype DefaultWriteResult = DefaultShown(username: string, toast: string) | DefaultFailed(toast: string)

  function AfterDefaultWrite(profile: Profile, result: Outcome<()>): (r: DefaultWriteResult)
    ensures result.Success? <==> r.DefaultShown?
    ensures r.DefaultShown? ==> r.username == profile.username
    ensures r.DefaultFailed? ==> r.toast == "Failed to create default profile: " + Readable(result.error.message)
  {
    match result
    case Success(_) => DefaultShown(profile.username, "Default profile created.")
    case Failure(e) => DefaultFailed("Failed to create default profile: " + Readable(e.message))
  }

  /**
   * A signed-in user whose profile is missing ends up, once the write
   * succeeds, with the local part of the email as username.
   */
  lemma MissingProfileGetsLocalPart(uid: string, local: string, domain: string, providers: seq<string>, now: int)
    requires 0 < |local| && '@' !in local
    ensures
      var email := local + "@" + domain;
      var a := FillUser(Missing, NonNull(AuthUser(uid, NonNull(email), providers)), now);
      a.WriteDefaultProfile? && a.uid == uid && a.profile.email == NonNull(email) &&
      AfterDefaultWrite(a.profile, Success(())).username == local
  {
    DefaultUsernameIsLocalPart(local, domain);
  }

  // ---------------------------------------------------------------------------
  // Username update

  /** What tapping the update button does with the username field. */
  datatype UsernameAction =
    | UsernameRejected(message: string)
    | UsernameSubmitted(username: string)
    | UsernameWithoutDocument(username: string)   // the repository returns no task

  /**
   * updateUsername: the field is trimmed; an empty result is refused without
   * calling the repository. The repository writes only when a user is signed
   * in (it has a profile document to update).
   */
  function UpdateUsername(fieldText: string, signedIn: bool): (a: UsernameAction)
    ensures a.UsernameRejected? <==> forall i :: 0 <= i < |fieldText| ==> IsTrimmable(fieldText[i])
    ensures a.UsernameRejected? ==> a.message == "Username cannot be empty."
    ensures a.UsernameSubmitted? <==> signedIn && !a.UsernameRejected?
    ensures !a.UsernameRejected? ==>
              0 < |a.username| && IsTrimOf(fieldText, a.username)
    ensures !a.UsernameRejected? ==> a.username == Trim(fieldText)
  {
    var name := Trim(fieldText);
    if |name| == 0 then UsernameRejected("Username cannot be empty.")
    else if signedIn then UsernameSubmitted(name)
    else UsernameWithoutDocument(name)
  }

  /** Submitting the username that was just submitted sends exactly the same name. */
  lemma UsernameResubmitStable(fieldText: string)
    requires UpdateUsername(fieldText, true).UsernameSubmitted?
    ensures UpdateUsername(UpdateUsername(fieldText, true).username, true) == UpdateUsername(fieldText, true)
  {
    TrimIdempotent(fieldText);
  }

  // ---------------------------------------------------------------------------
  // Password change

  /** The provider id of email/password accounts. */
  const PasswordProviderId := "password"

  /** What tapping the password button leads to. */
  datatype DialogGate = NotSignedIn | NoEmail | NotPasswordAccount | OpenDialog(email: string)

  /**
   * startChangePasswordDialog: the dialog opens only for a signed-in user with
   * a non-empty email and an email/password provider; otherwise the first
   * missing condition, in that order, is reported.
   */
  function PasswordDialogGate(user: Nullable<AuthUser>): (g: DialogGate)
    ensures g.NotSignedIn? <==> user.Null?
    ensures g.NoEmail? <==> user.NonNull? && IsEmptyText(user.value.email)
    ensures g.NotPasswordAccount? <==>
              user.NonNull? && !IsEmptyText(user.value.email) && PasswordProviderId !in user.value.providers
    ensures g.OpenDialog? ==> g.email == user.value.email.value && 0 < |g.email|
  {
    match user
    case Null => NotSignedIn
    case NonNull(u) =>
      if IsEmptyText(u.email) then NoEmail
      else if PasswordProviderId !in u.providers then NotPasswordAccount
      else OpenDialog(u.email.value)
  }

  const NotSignedInMessage := "You are not signed in."
  const NoEmailMessage := "No email address associated with this account."
  const NotPasswordAccountMessage := "This account is not registered with email/password (e.g., Google)."

  /** The toast for a gate that keeps the dialog closed; each failure has its own text. */
  function GateMessage(g: DialogGate): (m: string)
    ensures g.OpenDialog? <==> |m| == 0
    ensures g.NotSignedIn? <==> m == NotSignedInMessage
    ensures g.NoEmail? <==> m == NoEmailMessage
    ensures g.NotPasswordAccount? <==> m == NotPasswordAccountMessage
  {
    match g
    case NotSignedIn => NotSignedInMessage
    case NoEmail => NoEmailMessage
    case NotPasswordAccount => NotPasswordAccountMessage
    case OpenDialog(_) => ""
  }

  /** Result of checking the three dialog fields. */
  datatype PasswordCheck = FieldsMissing | TooShort | Mismatch | Accepted

  /**
   * The Save handler's checks, in order: all three fields present, the new
   * password at least six UTF-16 code units long (String.length), and equal
   * to its confirmation. The fields are used exactly as typed, without
   * trimming.
   */
  function CheckNewPassword(current: string, newPassword: string, confirm: string): (c: PasswordCheck)
    ensures c.Accepted? <==>
              0 < |current| && 0 < |confirm| && MinPasswordLength <= JavaLength(newPassword) && newPassword == confirm
    ensures c.FieldsMissing? <==> |current| == 0 || |newPassword| == 0 || |confirm| == 0
    ensures c.TooShort? <==> !c.FieldsMissing? && JavaLength(newPassword) < MinPasswordLength
    ensures c.Mismatch? ==> MinPasswordLength <= JavaLength(newPassword) && newPassword != confirm
  {
    if |current| == 0 || |newPassword| == 0 || |confirm| == 0 then FieldsMissing
    else if JavaLength(newPassword) < MinPasswordLength then TooShort
    else if newPassword != confirm then Mismatch
    else Accepted
  }

  const FieldsMissingMessage := "All fields are required."
  const TooShortMessage := "New password must be at least 6 characters."
  const MismatchMessage := "New passwords do not match."

  /** The toast for a refused Save; each failed check has its own text. */
  function CheckMessage(c: PasswordCheck): (m: string)
    ensures c.Accepted? <==> |m| == 0
    ensures c.FieldsMissing? <==> m == FieldsMissingMessage
    ensures c.TooShort? <==> m == TooShortMessage
    ensures c.Mismatch? <==> m == MismatchMessage
  {
    match c
    case FieldsMissing => FieldsMissingMessage
    case TooShort => TooShortMessage
    case Mismatch => MismatchMessage
    case Accepted => ""
  }

  /** Where the password change stands. */
  datatype PasswordPhase =
    | Idle
    | Dialog(email: string)
    | Reauthenticating(newPassword: string)
    | Updating

  /** The password button's enabled flag and the phase of the change. */
  datatype PasswordFlow = PasswordFlow(buttonEnabled: bool, phase: PasswordPhase)

  /** User actions and the callbacks of the two remote calls. */
  datatype PasswordEvent =
    | ButtonTapped(user: Nullable<AuthUser>)
    | DialogCancelled
    | DialogSaved(current: string, newPassword: string, confirm: string, userPresent: bool)
    | ReauthFinished(result: Outcome<()>)
    | UpdateFinished(result: Outcome<()>)

  /** The remote call a step starts. */
  datatype PasswordCall = NoCall | Reauthenticate(email: string, password: string) | UpdatePassword(newPassword: string)

  datatype PasswordStep = PasswordStep(flow: PasswordFlow, call: PasswordCall, toast: Nullable<string>)

  const PasswordStart := PasswordFlow(true, Idle)

  /**
   * The invariant of the password flow: the button is disabled exactly while
   * a remote call is in flight, and a password on its way to the provider
   * passed the dialog's checks.
   */
  predicate ValidPasswordFlow(f: PasswordFlow)
  {
    && (f.buttonEnabled <==> (f.phase.Idle? || f.phase.Dialog?))
    && (f.phase.Dialog? ==> 0 < |f.phase.email|)
    && (f.phase.Reauthenticating? ==> MinPasswordLength <= JavaLength(f.phase.newPassword))
  }

  /**
   * One event of the password flow. A disabled button, or an open dialog,
   * takes no tap; a callback arrives only for the call that is in flight, and
   * any other pairing of state and event leaves the flow as it is.
   */
  function StepPassword(f: PasswordFlow, e: PasswordEvent): (s: PasswordStep)
    requires ValidPasswordFlow(f)
    ensures ValidPasswordFlow(s.flow)
    ensures s.call.Reauthenticate? ==>
              f.phase.Dialog? && e.DialogSaved? && !s.flow.buttonEnabled &&
              s.call.email == f.phase.email && s.call.password == e.current &&
              CheckNewPassword(e.current, e.newPassword, e.confirm).Accepted?
    ensures s.call.UpdatePassword? ==>
              f.phase.Reauthenticating? && e.ReauthFinished? && e.result.Success? &&
              s.call.newPassword == f.phase.newPassword && MinPasswordLength <= JavaLength(s.call.newPassword)
    ensures f.phase.Reauthenticating? && e.ReauthFinished? && e.result.Failure? ==>
              s.flow == PasswordStart && s.toast == NonNull("Reauth error: " + Readable(e.result.error.message))
    ensures f.phase.Updating? && e.UpdateFinished? ==> s.flow == PasswordStart
    ensures !f.buttonEnabled && s.flow.buttonEnabled ==>
              (e.ReauthFinished? && e.result.Failure?) || e.UpdateFinished?
    // a closed gate keeps the flow idle and reports the first missing condition
    ensures f.phase.Idle? && e.ButtonTapped? && !PasswordDialogGate(e.user).OpenDialog? ==>
              s.flow == f && s.call.NoCall? && s.toast == NonNull(GateMessage(PasswordDialogGate(e.user)))
    // an accepted Save reauthenticates only while a user is still signed in
    ensures f.phase.Dialog? && e.DialogSaved? && CheckNewPassword(e.current, e.newPassword, e.confirm).Accepted? ==>
              && (s.call.Reauthenticate? <==> e.userPresent)
              && (e.userPresent ==> s.flow == PasswordFlow(false, Reauthenticating(e.newPassword)))
              && (!e.userPresent ==> s.flow == PasswordStart && s.toast == NonNull(NotSignedInMessage))
    // an open gate shows the dialog for the signed-in user's email
    ensures f.phase.Idle? && e.ButtonTapped? && PasswordDialogGate(e.user).OpenDialog? ==>
              s.flow == PasswordFlow(true, Dialog(e.user.value.email.value)) && s.call.NoCall?
    ensures f.phase.Dialog? && e.DialogCancelled? ==> s.flow == PasswordStart && s.call.NoCall?
    // the update's outcome is reported
    ensures f.phase.Updating? && e.UpdateFinished? && e.result.Success? ==>
              s.toast == NonNull("Password updated successfully.")
    ensures f.phase.Updating? && e.UpdateFinished? && e.result.Failure? ==>
              s.toast == NonNull("Error updating password: " + Readable(e.result.error.message))
    // a refused Save closes the dialog, makes no call and reports the failed check
    ensures f.phase.Dialog? && e.DialogSaved? && !CheckNewPassword(e.current, e.newPassword, e.confirm).Accepted? ==>
              s.flow == PasswordStart && s.call.NoCall? &&
              s.toast == NonNull(CheckMessage(CheckNewPassword(e.current, e.newPassword, e.confirm)))
  {
    match (f.phase, e)
    case (Idle, ButtonTapped(user)) =>
      var g := PasswordDialogGate(user);
      if g.OpenDialog? then PasswordStep(PasswordFlow(true, Dialog(g.email)), NoCall, Null)
      else PasswordStep(f, NoCall, NonNull(GateMessage(g)))
    case (Dialog(_), DialogCancelled) =>
      PasswordStep(PasswordStart, NoCall, Null)
    case (Dialog(email), DialogSaved(cur, npw, cfw, userPresent)) =>
      var c := CheckNewPassword(cur, npw, cfw);
      if !c.Accepted? then PasswordStep(PasswordStart, NoCall, NonNull(CheckMessage(c)))
      else if !userPresent then PasswordStep(PasswordStart, NoCall, NonNull(NotSignedInMessage))
      else PasswordStep(PasswordFlow(false, Reauthenticating(npw)), Reauthenticate(email, cur), NonNull("Changing password..."))
    case (Reauthenticating(npw), ReauthFinished(Success(_))) =>
      PasswordStep(PasswordFlow(false, Updating), UpdatePassword(npw), Null)
    case (Reauthenticating(_), ReauthFinished(Failure(err))) =>
      PasswordStep(PasswordStart, NoCall, NonNull("Reauth error: " + Readable(err.message)))
    case (Updating, UpdateFinished(Success(_))) =>
      PasswordStep(PasswordStart, NoCall, NonNull("Password updated successfully."))
    case (Updating, UpdateFinished(Failure(err))) =>
      PasswordStep(PasswordStart, NoCall, NonNull("Error updating password: " + Readable(err.message)))
    case _ =>
      PasswordStep(f, NoCall, Null)
  }

  /** The flow after a sequence of events. */
  function RunPassword(f: PasswordFlow, events: seq<PasswordEvent>): PasswordFlow
    requires ValidPasswordFlow(f)
    decreases |events|
  {
    if |events| == 0 then f
    else
      var s := StepPassword(f, events[0]);
      RunPassword(s.flow, events[1..])
  }

  /** No sequence of taps and callbacks breaks the password flow's invariant. */
  lemma {:induction false} RunPasswordValid(f: PasswordFlow, events: seq<PasswordEvent>)
    requires ValidPasswordFlow(f)
    ensures ValidPasswordFlow(RunPassword(f, events))
    decreases |events|
  {
    if |events| > 0 {
      RunPasswordValid(StepPassword(f, events[0]).flow, events[1..]);
    }
  }

  /**
   * An attempt that gets past the dialog disables the button, and whichever
   * way the remote calls end the button is enabled again.
   */
  lemma PasswordAttemptReenables(email: string, current: string, newPassword: string,
                                 reauth: Outcome<()>, update: Outcome<()>)
    requires 0 < |email| && 0 < |current| && MinPasswordLength <= JavaLength(newPassword)
    ensures
      var f1 := StepPassword(PasswordFlow(true, Dialog(email)), DialogSaved(current, newPassword, newPassword, true));
      var f2 := StepPassword(f1.flow, ReauthFinished(reauth));
      var f3 := StepPassword(f2.flow, UpdateFinished(update));
      && !f1.flow.buttonEnabled
      && f1.call == Reauthenticate(email, current)
      && (reauth.Failure? ==> f2.flow.buttonEnabled)
      && (reauth.Success? ==> !f2.flow.buttonEnabled && f2.call == UpdatePassword(newPassword) && f3.flow.buttonEnabled)
  {
  }
}
