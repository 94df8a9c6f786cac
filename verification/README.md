# Bicycle-Storage: the app's own screen logic in Dafny

Bicycle-Storage is an Android app. It shows bicycle-storage sites on a map. It
keeps a lock/unlock indicator that survives restarts. It also has sign-in,
registration and account screens backed by a cloud authentication and
document service. Almost all of the app calls vendor SDKs. This project models
only the logic the app itself decides, as pure functions and small immutable
screen-state records:

- `JavaLang` (`java_lang.dfy`) is the slice of `java.lang.String` the screens use:
  `indexOf`, `contains`, `trim` (strips characters up to U+0020 at both ends),
  ASCII `toLowerCase`, and concatenation of a null message as `"null"`.
- `Remote` (`remote.dfy`) holds the results of the asynchronous Firebase calls.
  Each call's result is a success or failure value passed in by the caller.
- `MainActivity` (`main_activity.dfy`) covers the map screen:
  - the session guard in `onCreate`/`onResume`;
  - the lock flag and its two backing copies, the saved-instance bundle
    (`state_locked`) and the `lock_prefs` preferences (`key_locked`);
  - tap and long-press on the lock button, and the indicator;
  - routing of marker and info-window taps to the three fixed storage sites.
- `AccountActivity` (`account.dfy`) covers the account screen:
  - the default username, the error-text translation `readable`, and
    `fillUser` with its lazy default profile;
  - the username update;
  - the password-change dialog, and the discipline that disables and then
    re-enables the password button.
- `RegisterActivity` (`register.dfy`) covers registration:
  - trimming and the ordered checks of `validate`;
  - the `submitting` guard and the enabled flags of the five controls;
  - the chain create account → write profile → sign out → open sign-in.
- `LoginActivity` (`login.dfy`) covers the sign-in screen's entry routing
  (`reg_success`, `prefill_email`, auto-forward) and `doLogin`.
- `Flows` (`flows.dfy`) proves properties that span screens. Examples: the
  hand-over from registration to sign-in, and how each screen treats the
  same typed credentials.

The registration screen and the password flow of the account screen are each a
record plus a step function. The step function takes a user action or a
callback result and returns the next record and the remote call it starts.
Every step preserves an invariant, and a lemma extends that invariant to any
sequence of events. The password button is disabled exactly while a call is in
flight. `submitting` is clear exactly while the registration form is being
edited. The other screens are modelled as functions of their inputs. The map
screen's lock flag is kept in step with its stored copy over any number of
taps (`MainActivity.TapsParity`).

The lock flag is restored in this order. The field starts `true`. A saved
bundle replaces it with `state_locked`, which defaults to `true` when missing.
Then a stored `key_locked` preference replaces that. So a stored preference
wins over the bundle even across a rotation, as
`MainActivity.PreferenceBeatsBundle` states. A marker tap falls through to
the map's default handling, which opens the info window, and an info-window
tap navigates.

Password lengths are counted as `String.length` counts them: in UTF-16 code
units, so a character outside the Basic Multilingual Plane counts twice
(`JavaLang.JavaLength`).

## Model

| member | source | states |
|---|---|---|
| `JavaLang.IndexOf` | app/src/main/java/com/example/bicyclestorage/auth/AccountActivity.java:106 | `indexOf('@')` is -1 exactly when there is no '@'; otherwise it is the first '@' |
| `JavaLang.Contains` | app/src/main/java/com/example/bicyclestorage/auth/AccountActivity.java:227-238 | `contains` holds exactly when the phrase occurs at some index |
| `JavaLang.Trim` | app/src/main/java/com/example/bicyclestorage/auth/RegisterActivity.java:66-68 | `trim` removes a prefix and a suffix made only of characters up to U+0020 and nothing else; what is left starts and ends with a non-blank, and is empty exactly when the input is all blanks |
| `JavaLang.TrimCharacterised` | app/src/main/java/com/example/bicyclestorage/auth/RegisterActivity.java:66-68 | any part of a text left after dropping a blank prefix and a blank suffix that does not itself start or end with a blank is the text's trim, so the two descriptions agree |
| `JavaLang.JavaLength` | app/src/main/java/com/example/bicyclestorage/auth/RegisterActivity.java:145 | `length()` counts UTF-16 code units: a single character counts one, or two when it lies outside the Basic Multilingual Plane; a text counts between one and two per character |
| `JavaLang.JavaLengthAppend` | app/src/main/java/com/example/bicyclestorage/auth/RegisterActivity.java:145 | the length of a concatenation is the sum of the lengths, so every text's length is the sum of its characters' code units |
| `JavaLang.ToLower` | app/src/main/java/com/example/bicyclestorage/auth/AccountActivity.java:226 | lower-casing keeps the length and maps each character to its lower-case form |
| `JavaLang.ConcatNullable` | app/src/main/java/com/example/bicyclestorage/auth/RegisterActivity.java:101 | a null exception message is rendered as "null" after the prefix |
| `MainActivity.RestoreLock` | app/src/main/java/com/example/bicyclestorage/MainActivity.java:121-126 | a stored `key_locked` decides; otherwise the bundle's `state_locked` decides; with neither, the flag is locked |
| `MainActivity.RestoredScreenAgrees` | app/src/main/java/com/example/bicyclestorage/MainActivity.java:195-198 | right after the restore, the in-memory flag equals any stored preference |
| `MainActivity.PreferenceBeatsBundle` | app/src/main/java/com/example/bicyclestorage/MainActivity.java:121-126 | when bundle and preference disagree, the preference's value is the one restored |
| `MainActivity.TapLock` | app/src/main/java/com/example/bicyclestorage/MainActivity.java:166-170 | a tap flips the flag and stores exactly the new value under `key_locked`; no other preference changes |
| `MainActivity.TapTwiceRestores` | app/src/main/java/com/example/bicyclestorage/MainActivity.java:166-170 | two taps restore the flag and store it; a screen whose preference already agreed comes back unchanged |
| `MainActivity.TapsParity` | app/src/main/java/com/example/bicyclestorage/MainActivity.java:200-205 | after n taps the flag is flipped n times, and after any tap the stored value equals the flag |
| `MainActivity.ColdStartAfterTaps` | app/src/main/java/com/example/bicyclestorage/MainActivity.java:195-205 | a restart after at least one tap restores the flag the user left, whatever bundle is supplied |
| `MainActivity.LongPressLock` | app/src/main/java/com/example/bicyclestorage/MainActivity.java:171-177 | a long press reports LOCKED or UNLOCKED to match the flag and changes nothing |
| `MainActivity.SaveInstanceState` | app/src/main/java/com/example/bicyclestorage/MainActivity.java:528-531 | the bundle gets the flag under `state_locked`; its other entries are kept |
| `MainActivity.RotationKeepsLock` | app/src/main/java/com/example/bicyclestorage/MainActivity.java:121-126 | saving and then restoring with the same preferences keeps the flag |
| `MainActivity.LockVisual` | app/src/main/java/com/example/bicyclestorage/MainActivity.java:267-273 | selected is the negation of locked, the closed icon is shown exactly when locked, and the description names the state |
| `MainActivity.IndicatorReflectsState` | app/src/main/java/com/example/bicyclestorage/MainActivity.java:267-273 | different states give different indicators; one tap changes the indicator and two taps restore it |
| `MainActivity.OnCreate` | app/src/main/java/com/example/bicyclestorage/MainActivity.java:114-135 | with no user the screen redirects to login and restores nothing; otherwise it restores the flag and either closes for missing Play services or shows that flag's indicator |
| `MainActivity.FreshInstallScenario` | app/src/main/java/com/example/bicyclestorage/MainActivity.java:94-126 | a fresh install starts locked; one tap unlocks and stores false; a restart shows unlocked |
| `MainActivity.OnResume` | app/src/main/java/com/example/bicyclestorage/MainActivity.java:500-513 | with no user, resume redirects before any location work; location updates restart only when the map is ready and permission is granted |
| `MainActivity.RegisterMarkers` | app/src/main/java/com/example/bicyclestorage/MainActivity.java:306-318 | the registry holds exactly the marker handles the map actually returned |
| `MainActivity.RegisteredToItsStorage` | app/src/main/java/com/example/bicyclestorage/MainActivity.java:306-318 | when handles are distinct, each drawn marker is registered to its own storage |
| `MainActivity.InfoWindowDestination` | app/src/main/java/com/example/bicyclestorage/MainActivity.java:352-356 | a registered marker navigates to its storage's position and title; any other marker navigates to its own |
| `MainActivity.MarkerClickConsumed` | app/src/main/java/com/example/bicyclestorage/MainActivity.java:346-349 | a marker click is never consumed |
| `MainActivity.InfoWindowText` | app/src/main/java/com/example/bicyclestorage/MainActivity.java:331-338 | the custom info window exists exactly for registered markers and shows the storage's snippet |
| `MainActivity.StorageMarkerNavigatesToStorage` | app/src/main/java/com/example/bicyclestorage/MainActivity.java:344-356 | a drawn storage marker shows its storage's snippet and navigates to that site, whatever position the marker object reports |
| `AccountActivity.DeriveDefaultUsername` | app/src/main/java/com/example/bicyclestorage/auth/AccountActivity.java:104-108 | null gives "user"; no '@', or '@' first, gives the email unchanged; otherwise the result is the non-empty, '@'-free prefix before the first '@' |
| `AccountActivity.DefaultUsernameIsLocalPart` | app/src/main/java/com/example/bicyclestorage/auth/AccountActivity.java:104-108 | for `local@domain` with a non-empty, '@'-free local part, the default username is that local part |
| `AccountActivity.Readable` | app/src/main/java/com/example/bicyclestorage/auth/AccountActivity.java:224-240 | null gives "unknown error"; otherwise the result is the first matching rule's message, and text matching no rule is returned unchanged |
| `AccountActivity.FirstFiring` | app/src/main/java/com/example/bicyclestorage/auth/AccountActivity.java:227-238 | the rule chosen matches, and no earlier rule does; with no choice, no rule matches |
| `AccountActivity.ReadableFollowsRules` | app/src/main/java/com/example/bicyclestorage/auth/AccountActivity.java:226-239 | the chain of tests in the code equals the table of rules read in priority order |
| `AccountActivity.RuleTests` | app/src/main/java/com/example/bicyclestorage/auth/AccountActivity.java:227-238 | the two codes are tested on the raw text; every phrase after them is tested on the lower-cased text |
| `AccountActivity.CaseSensitiveCodes` | app/src/main/java/com/example/bicyclestorage/auth/AccountActivity.java:226-230 | text without upper-case letters never triggers the PERMISSION_DENIED or NOT_FOUND rule |
| `AccountActivity.CodesNeedTheirFirstLetters` | app/src/main/java/com/example/bicyclestorage/auth/AccountActivity.java:227-230 | text lacking 'P' and 'N' never triggers the two code rules |
| `AccountActivity.NetworkPhraseIgnoresCase` | app/src/main/java/com/example/bicyclestorage/auth/AccountActivity.java:226-232 | "NETWORK" in upper case still gives the network message, provided neither code is present |
| `AccountActivity.RecentLoginPhraseSubsumed` | app/src/main/java/com/example/bicyclestorage/auth/AccountActivity.java:233-234 | the recent-login rule matches exactly when the lower-cased text contains "recent"; its second phrase never matters |
| `AccountActivity.AccountOnCreate` | app/src/main/java/com/example/bicyclestorage/auth/AccountActivity.java:34-50 | with no user the screen closes; otherwise it shows "Email: " followed by the email, or by "null" when there is none, and loads that user's profile |
| `AccountActivity.FillUser` | app/src/main/java/com/example/bicyclestorage/auth/AccountActivity.java:71-101 | an existing document shows its username or the "No username" hint; a missing one writes a default profile for the current user, if there is one |
| `AccountActivity.AfterDefaultWrite` | app/src/main/java/com/example/bicyclestorage/auth/AccountActivity.java:93-100 | a successful write shows the written username; a failed one reports the translated error |
| `AccountActivity.MissingProfileGetsLocalPart` | app/src/main/java/com/example/bicyclestorage/auth/AccountActivity.java:79-94 | a user with a missing profile and email `local@domain` gets `local` as username |
| `AccountActivity.UpdateUsername` | app/src/main/java/com/example/bicyclestorage/auth/AccountActivity.java:110-116 | a blank field is refused before the repository is called; otherwise the name sent is exactly the field's trim, which is non-empty |
| `AccountActivity.UsernameResubmitStable` | app/src/main/java/com/example/bicyclestorage/auth/AccountActivity.java:110-116 | sending the name that was just sent sends the same name again |
| `AccountActivity.PasswordDialogGate` | app/src/main/java/com/example/bicyclestorage/auth/AccountActivity.java:124-149 | the dialog opens only for a signed-in user with an email and a password provider; otherwise the first missing condition is reported |
| `AccountActivity.GateMessage` | app/src/main/java/com/example/bicyclestorage/auth/AccountActivity.java:127-148 | each closed gate has its own message, and only the open dialog has none |
| `AccountActivity.CheckNewPassword` | app/src/main/java/com/example/bicyclestorage/auth/AccountActivity.java:175-191 | the change goes ahead exactly when all fields are present, the new password is at least 6 UTF-16 units long and matches its confirmation; the first failing check is the one reported |
| `AccountActivity.CheckMessage` | app/src/main/java/com/example/bicyclestorage/auth/AccountActivity.java:179-190 | each failed check has its own message, and an accepted Save has none |
| `AccountActivity.StepPassword` | app/src/main/java/com/example/bicyclestorage/auth/AccountActivity.java:174-221 | the button is disabled while a call is in flight; an accepted Save reauthenticates only if a user is still signed in, and otherwise reports "You are not signed in." with the button left enabled; reauthentication uses the dialog's email and current password; the new password sent is the validated one; both terminal outcomes re-enable the button and report the outcome; an open gate shows the dialog for the user's own email, Cancel returns to idle, and a closed gate or a refused Save makes no call and reports its message |
| `AccountActivity.RunPasswordValid` | app/src/main/java/com/example/bicyclestorage/auth/AccountActivity.java:198-221 | no sequence of taps and callbacks breaks that invariant |
| `AccountActivity.PasswordAttemptReenables` | app/src/main/java/com/example/bicyclestorage/auth/AccountActivity.java:205-220 | an attempt disables the button, and the button is enabled again whether reauthentication fails or the update finishes |
| `RegisterActivity.Validate` | app/src/main/java/com/example/bicyclestorage/auth/RegisterActivity.java:124-151 | the input is valid exactly when username, email, email pattern and a password at least 6 UTF-16 units long all hold; the first failing check is reported |
| `RegisterActivity.ErrorField` | app/src/main/java/com/example/bicyclestorage/auth/RegisterActivity.java:125-148 | the error and the focus go to the field whose check failed |
| `RegisterActivity.ErrorText` | app/src/main/java/com/example/bicyclestorage/auth/RegisterActivity.java:126-146 | every missing value gets "Required"; a malformed email and a short password each get their own text |
| `RegisterActivity.SetUiEnabled` | app/src/main/java/com/example/bicyclestorage/auth/RegisterActivity.java:159-164 | all five controls get the same enabled flag |
| `RegisterActivity.Fail` | app/src/main/java/com/example/bicyclestorage/auth/RegisterActivity.java:153-169 | a failure clears `submitting` and enables all five controls |
| `RegisterActivity.AuthErrorMessage` | app/src/main/java/com/example/bicyclestorage/auth/RegisterActivity.java:96-103 | a collision gives the "already registered" message; any other error gives "Registration error: " followed by its message |
| `RegisterActivity.StepRegister` | app/src/main/java/com/example/bicyclestorage/auth/RegisterActivity.java:63-121 | a tap while submitting does nothing; a failed validation makes no call, leaves `submitting` false and marks the failing field with its check's text; `submitting` rises only after validation passes; the profile is written only after the account is created, with the trimmed inputs; the redirect carries the trimmed email and `reg_success`; a failed sign-up, a null user and a failed profile write each end in `fail` with their own message |
| `RegisterActivity.RunRegisterValid` | app/src/main/java/com/example/bicyclestorage/auth/RegisterActivity.java:63-104 | no sequence of events breaks the invariant: controls are enabled exactly when `submitting` is clear, and that is exactly while the form is being edited |
| `RegisterActivity.RepeatedTapsIgnored` | app/src/main/java/com/example/bicyclestorage/auth/RegisterActivity.java:63-64 | any number of taps during a submission leave the screen unchanged |
| `RegisterActivity.HappyPath` | app/src/main/java/com/example/bicyclestorage/auth/RegisterActivity.java:76-121 | a valid tap, a created account and a written profile lead to the sign-in screen with the trimmed email |
| `LoginActivity.LoginOnCreate` | app/src/main/java/com/example/bicyclestorage/auth/LoginActivity.java:32-57 | after registration the email is prefilled, any user is signed out, and the screen stays; otherwise a present user is forwarded before any handler is installed |
| `LoginActivity.DoLogin` | app/src/main/java/com/example/bicyclestorage/auth/LoginActivity.java:59-65 | sign-in is called exactly when both fields hold a non-blank character, and then with exactly the two fields' trims |
| `LoginActivity.DoLoginStable` | app/src/main/java/com/example/bicyclestorage/auth/LoginActivity.java:59-65 | retyping the credentials just sent sends the same credentials |
| `LoginActivity.OnSignInResult` | app/src/main/java/com/example/bicyclestorage/auth/LoginActivity.java:66-73 | success opens the map screen and finishes; failure reports the message |
| `Flows.RegistrationLandsOnLogin` | app/src/main/java/com/example/bicyclestorage/auth/RegisterActivity.java:106-121 | a finished registration opens sign-in with the trimmed email prefilled, signs out any user, and never auto-forwards |
| `Flows.SameCredentialsAtRegistrationAndLogin` | app/src/main/java/com/example/bicyclestorage/auth/RegisterActivity.java:66-68 | registration creates the account with exactly the credentials that sign-in sends for the same typed text |
| `Flows.PasswordChangeKeepsBlanksLoginDropsThem` | app/src/main/java/com/example/bicyclestorage/auth/AccountActivity.java:175-191 | the dialog accepts a new password with a trailing blank, and sign-in later sends it without that blank |
| `Flows.BlankPasswordOnlyAcceptedByDialog` | app/src/main/java/com/example/bicyclestorage/auth/AccountActivity.java:179-186 | six blanks pass the dialog, but registration and sign-in both refuse them |
| `Flows.SupplementaryCharactersCountTwice` | app/src/main/java/com/example/bicyclestorage/auth/AccountActivity.java:183 | three characters from outside the Basic Multilingual Plane make a password of length six, which the dialog accepts and registration does not call too short |

## Left out

- Maps, location and Play Services code in `MainActivity` is not modelled. This covers map UI setup, location settings and updates, permission prompts, camera moves, `resetMapPosition`, marker icon scaling, insets and padding. It is all vendor-SDK calls on floating-point coordinates. Only the outcome of the Play Services check is a parameter of `OnCreate`.
- `onPause`/`onDestroy` location-update removal is not modelled. It is an SDK call with no decision in it.
- `openInGoogleMaps` is not modelled. Its URI is built from doubles, so it depends on float-to-string formatting and intent resolution. The model stops at the destination: position and title.
- `dp()`, `setAlpha` and the progress-bar visibility in `setUiEnabled` are not modelled. They are display arithmetic. Only the five enabled flags are.
- Toasts, dialogs, `hideKeyboard` and logging are not modelled. Message strings that depend on the logic are modelled as returned values.
- The account and storage buttons' listeners, the logout button and the links between the sign-in and registration screens are not modelled. Each is one navigation call with no decision in it.
- `FirebaseUserRepository` is not modelled. Its answers (user present or absent, uid, email, providers) are inputs, and its tasks' results are `Remote.Outcome` values.
- `AppDatabase`, `AppDao`, `StorageNote` and `City` are not modelled. The note table is Room-generated code with its behaviour inside SQLite, and `City` is unused. No shown file creates note markers or rebuilds them, so notes are absent from the model.
- The platform email-address pattern is not modelled. It is a function parameter of `RegisterActivity.Validate`.
- `JavaLang.IndexOf` counts positions in characters, not UTF-16 units. It is only used to cut the prefix before '@', and the prefix it cuts is the same either way.
- The toasts after a profile read fails and after the username write (`AccountActivity.java` lines 52-55 and 117-120) are not modelled. The two failure toasts put "Load error: " or "Error: " before `Readable`'s translation, and the success toast is the fixed text "Updated.".
- `JavaLang.ToLower`: maps only ASCII letters, because the locale rules of `String.toLowerCase` are library behaviour.
- `System.currentTimeMillis()` is a parameter (`now`) of `AccountActivity.FillUser`. The model's `WriteProfile` effect omits the `createdAt` field that `createUserProfile` sets from the clock.
- `AccountActivity.StepPassword` and `RegisterActivity.StepRegister`: callbacks are assumed to arrive only for the call in flight. Any other pairing of state and event leaves the screen unchanged. Callbacks that arrive after the screen has closed are not modelled.
- `AccountActivity.UpdateUsername`: when no user is signed in, the repository returns no task, and the code then dereferences null. The model reports this case as `UsernameWithoutDocument` rather than modelling the crash.
- `MainActivity.RegisterMarkers`: assumes one `addMarker` result per storage. `RegisteredToItsStorage` also assumes the map hands out distinct marker handles.
- A missing lock button (`lockButton == null`) is not modelled. In that case `applyLockVisual` and the listeners are skipped. The model assumes the layout provides the button.
