/**
 * The map screen's own logic: the session guard on creation and resume, the
 * lock flag with its two backing copies (the saved-instance bundle and the
 * "lock_prefs" preferences file), the lock indicator, and the routing of
 * marker and info-window taps to the fixed storage sites.
 */
module MainActivity {
  import opened JavaLang

  // ---------------------------------------------------------------------------
  // Key-value stores

  /** Preference key of the durable lock flag in the "lock_prefs" file. */
  const KeyLocked := "key_locked"
  /** Bundle key of the transient lock flag. */
  const StateLocked := "state_locked"

  /** The boolean entries of a Bundle or of a SharedPreferences file. */
  type BoolStore = map<string, bool>

  /** getBoolean(key, default): the stored value, or the default when the key is absent. */
  function GetBoolean(store: BoolStore, key: string, default: bool): (b: bool)
    ensures key in store ==> b == store[key]
    ensures key !in store ==> b == default
  {
    if key in store then store[key] else default
  }

  /** putBoolean(key, value): sets one key and keeps every other entry. */
  function PutBoolean(store: BoolStore, key: string, value: bool): (s: BoolStore)
    ensures s.Keys == store.Keys + {key}
    ensures GetBoolean(s, key, !value) == value
    ensures forall k :: k in store && k != key ==> s[k] == store[k]
  {
    store[key := value]
  }

  // ---------------------------------------------------------------------------
  // Lock state

  /** The lock flag held by the screen, and the preferences file that mirrors it. */
  datatype LockScreen = LockScreen(locked: bool, prefs: BoolStore)

  /** The durable copy never disagrees with the in-memory flag once it exists. */
  predicate PrefsAgree(s: LockScreen)
  {
    KeyLocked in s.prefs ==> s.prefs[KeyLocked] == s.locked
  }

  /**
   * The flag onCreate ends up with: the field starts locked, a saved bundle
   * replaces it with its "state_locked" entry (locked when absent), and then a
   * stored "key_locked" preference replaces that in turn.
   */
  function RestoreLock(saved: Nullable<BoolStore>, prefs: BoolStore): (locked: bool)
    ensures KeyLocked in prefs ==> locked == prefs[KeyLocked]
    ensures KeyLocked !in prefs && saved.NonNull? && StateLocked in saved.value ==>
              locked == saved.value[StateLocked]
    ensures KeyLocked !in prefs && (saved.Null? || StateLocked !in saved.value) ==> locked
  {
    var field := true;
    var fromBundle := match saved
      case Null => field
      case NonNull(bundle) => GetBoolean(bundle, StateLocked, true);
    GetBoolean(prefs, KeyLocked, fromBundle)
  }

  /** A screen whose flag was restored from `prefs` agrees with them. */
  lemma RestoredScreenAgrees(saved: Nullable<BoolStore>, prefs: BoolStore)
    ensures PrefsAgree(LockScreen(RestoreLock(saved, prefs), prefs))
  {
  }

  /** A tap on the lock button: flip the flag, then persist the new value. */
  function TapLock(s: LockScreen): (t: LockScreen)
    ensures t.locked != s.locked
    ensures PrefsAgree(t) && KeyLocked in t.prefs
    ensures forall k :: k in s.prefs && k != KeyLocked ==> k in t.prefs && t.prefs[k] == s.prefs[k]
    ensures t.prefs.Keys == s.prefs.Keys + {KeyLocked}
  {
    var locked := !s.locked;
    LockScreen(locked, PutBoolean(s.prefs, KeyLocked, locked))
  }

  /** Two taps give back the flag, and store it. */
  lemma TapTwiceRestores(s: LockScreen)
    ensures TapLock(TapLock(s)).locked == s.locked
    ensures TapLock(TapLock(s)).prefs == s.prefs[KeyLocked := s.locked]
    ensures PrefsAgree(s) && KeyLocked in s.prefs ==> TapLock(TapLock(s)) == s
  {
  }

  /** The screen after `n` taps. */
  function Taps(s: LockScreen, n: nat): LockScreen
  {
    if n == 0 then s else TapLock(Taps(s, n - 1))
  }

  /**
   * After any number of taps the flag is the start flag flipped once per tap,
   * and after at least one tap the stored value is the current flag.
   */
  lemma {:induction false} TapsParity(s: LockScreen, n: nat)
    ensures Taps(s, n).locked == (if n % 2 == 0 then s.locked else !s.locked)
    ensures 0 < n ==> KeyLocked in Taps(s, n).prefs && Taps(s, n).prefs[KeyLocked] == Taps(s, n).locked
    ensures PrefsAgree(s) ==> PrefsAgree(Taps(s, n))
  {
    if n > 0 {
      TapsParity(s, n - 1);
    }
  }

  /** A cold start (no bundle) after at least one tap restores the flag the user left. */
  lemma ColdStartAfterTaps(s: LockScreen, n: nat, saved: Nullable<BoolStore>)
    requires 0 < n
    ensures RestoreLock(saved, Taps(s, n).prefs) == Taps(s, n).locked
  {
    TapsParity(s, n);
  }

  /** A long press reports the state and leaves it alone. */
  function LongPressLock(s: LockScreen): (r: (LockScreen, string))
    ensures r.0 == s
    ensures s.locked <==> r.1 == "Storage is currently LOCKED."
    ensures !s.locked <==> r.1 == "Storage is currently UNLOCKED."
  {
    (s, if s.locked then "Storage is currently LOCKED." else "Storage is currently UNLOCKED.")
  }

  /** onSaveInstanceState: the flag goes into the bundle under "state_locked". */
  function SaveInstanceState(s: LockScreen, outState: BoolStore): (b: BoolStore)
    ensures StateLocked in b && b[StateLocked] == s.locked
    ensures forall k :: k in outState && k != StateLocked ==> k in b && b[k] == outState[k]
  {
    PutBoolean(outState, StateLocked, s.locked)
  }

  /** A configuration change (save, then restore with the same preferences) keeps the flag. */
  lemma RotationKeepsLock(s: LockScreen, outState: BoolStore)
    requires PrefsAgree(s)
    ensures RestoreLock(NonNull(SaveInstanceState(s, outState)), s.prefs) == s.locked
  {
  }

  /**
   * The stored preference beats the saved bundle: when they disagree the
   * restored flag is the preference's.
   */
  lemma PreferenceBeatsBundle(bundle: BoolStore, prefs: BoolStore)
    requires StateLocked in bundle && KeyLocked in prefs && bundle[StateLocked] != prefs[KeyLocked]
    ensures RestoreLock(NonNull(bundle), prefs) == prefs[KeyLocked]
    ensures RestoreLock(NonNull(bundle), prefs) != bundle[StateLocked]
  {
  }

  // ---------------------------------------------------------------------------
  // Indicator

  datatype LockIcon = LockClosed | LockOpen

  /** What the lock button shows: selector state, icon and content description. */
  datatype Indicator = Indicator(selected: bool, icon: LockIcon, description: string)

  /** applyLockVisual: selected means unlocked (green). */
  function LockVisual(locked: bool): (v: Indicator)
    ensures v.selected == !locked
    ensures v.icon == LockClosed <==> locked
    ensures v.description == (if locked then "Storage locked" else "Storage unlocked")
  {
    Indicator(!locked, if locked then LockClosed else LockOpen, if locked then "Storage locked" else "Storage unlocked")
  }

  /** The indicator tells the two states apart, and one tap always changes it. */
  lemma IndicatorReflectsState(s: LockScreen)
    ensures LockVisual(TapLock(s).locked) != LockVisual(s.locked)
    ensures LockVisual(TapLock(TapLock(s)).locked) == LockVisual(s.locked)
    ensures forall a: bool, b: bool :: LockVisual(a) == LockVisual(b) ==> a == b
  {
  }

  // ---------------------------------------------------------------------------
  // Lifecycle

  /** The outcome of onCreate. */
  datatype CreateOutcome =
    | CreateRedirectToLogin
    | ClosedWithoutPlayServices(lock: LockScreen)
    | Started(lock: LockScreen, indicator: Indicator)

  /**
   * onCreate: without a signed-in user the screen goes to login and does
   * nothing else; otherwise it restores the lock flag, and closes when Play
   * services are missing, or starts showing the indicator of the restored flag.
   */
  function OnCreate(signedIn: bool, saved: Nullable<BoolStore>, prefs: BoolStore, playServicesOk: bool): (r: CreateOutcome)
    ensures r.CreateRedirectToLogin? <==> !signedIn
    ensures r.ClosedWithoutPlayServices? <==> signedIn && !playServicesOk
    ensures !r.CreateRedirectToLogin? ==> r.lock == LockScreen(RestoreLock(saved, prefs), prefs) && PrefsAgree(r.lock)
    ensures r.Started? ==> r.indicator == LockVisual(r.lock.locked)
  {
    if !signedIn then CreateRedirectToLogin
    else
      var lock := LockScreen(RestoreLock(saved, prefs), prefs);
      if !playServicesOk then ClosedWithoutPlayServices(lock)
      else Started(lock, LockVisual(lock.locked))
  }

  /** The scenario of a fresh install: locked, one tap unlocks and stores it, a restart stays unlocked. */
  lemma FreshInstallScenario()
    ensures
      var first := OnCreate(true, Null, map[], true);
      && first.Started? && first.lock.locked
      && var tapped := TapLock(first.lock);
      && !tapped.locked && tapped.prefs[KeyLocked] == false
      && var again := OnCreate(true, Null, tapped.prefs, true);
      && again.Started? && !again.lock.locked && again.indicator.description == "Storage unlocked"
  {
  }

  /** What onResume does. */
  datatype ResumeAction = ResumeRedirectToLogin | RestartLocationUpdates | NothingToRestart

  /**
   * onResume: without a signed-in user the screen goes to login before any
   * location work; otherwise updates restart when the map is ready and the
   * fine-location permission is granted.
   */
  function OnResume(signedIn: bool, mapReady: bool, finePermission: bool): (r: ResumeAction)
    ensures r.ResumeRedirectToLogin? <==> !signedIn
    ensures r.RestartLocationUpdates? <==> signedIn && mapReady && finePermission
  {
    if !signedIn then ResumeRedirectToLogin
    else if mapReady && finePermission then RestartLocationUpdates
    else NothingToRestart
  }

  // ---------------------------------------------------------------------------
  // Markers

  /** A map position; coordinates are carried, never computed with. */
  datatype LatLng = LatLng(latitude: real, longitude: real)

  /** A fixed bicycle-storage site. */
  datatype Storage = Storage(position: LatLng, title: string, snippet: string)

  const Storages: seq<Storage> := [
    Storage(LatLng(47.543277, 21.640391), "Bicycle storage 1", "In use: 3/6"),
    Storage(LatLng(47.532368, 21.629087), "Bicycle storage 2", "In use: 1/4"),
    Storage(LatLng(47.553577, 21.621793), "Bicycle storage 3", "In use: 5/10")
  ]

  /** The map's handle of a rendered marker. */
  type MarkerId = nat

  /** A rendered marker: its handle and the position and title it was drawn with. */
  datatype Marker = Marker(id: MarkerId, position: LatLng, title: Nullable<string>)

  /** The marker-to-storage map the screen keeps. */
  type Registry = map<MarkerId, Storage>

  /**
   * addStorageMarkers: one marker per storage, in order; `added[i]` is what
   * addMarker returned for `storages[i]` (null when the map drew nothing).
   * Only drawn markers are registered.
   */
  function RegisterMarkers(storages: seq<Storage>, added: seq<Nullable<MarkerId>>): (reg: Registry)
    requires |added| == |storages|
    ensures forall id :: id in reg <==> NonNull(id) in added
    decreases |storages|
  {
    if |storages| == 0 then map[]
    else
      var n := |storages| - 1;
      var before := RegisterMarkers(storages[..n], added[..n]);
      assert added == added[..n] + [added[n]];
      match added[n]
      case Null => before
      case NonNull(id) => before[id := storages[n]]
  }

  /** Handles the map returned are pairwise distinct. */
  predicate DistinctHandles(added: seq<Nullable<MarkerId>>)
  {
    forall i, j :: 0 <= i < j < |added| && added[i].NonNull? ==> added[i] != added[j]
  }

  /** With distinct handles, the marker drawn for a storage is registered to that storage. */
  lemma {:induction false} RegisteredToItsStorage(storages: seq<Storage>, added: seq<Nullable<MarkerId>>, i: int)
    requires |added| == |storages| && DistinctHandles(added)
    requires 0 <= i < |added| && added[i].NonNull?
    ensures added[i].value in RegisterMarkers(storages, added)
    ensures RegisterMarkers(storages, added)[added[i].value] == storages[i]
    decreases |storages|
  {
    var n := |storages| - 1;
    var id := added[i].value;
    if i < n {
      var before := RegisterMarkers(storages[..n], added[..n]);
      assert DistinctHandles(added[..n]) by {
        forall a, b | 0 <= a < b < n && added[..n][a].NonNull?
          ensures added[..n][a] != added[..n][b]
        {
          assert added[..n][a] == added[a] && added[..n][b] == added[b];
        }
      }
      assert added[..n][i] == added[i];
      RegisteredToItsStorage(storages[..n], added[..n], i);
      assert id in before && before[id] == storages[i];
      assert added[n] != added[i];
      assert added[n].NonNull? ==> added[n].value != id;
    }
  }

  /** Where a tap on an info window navigates to. */
  datatype Destination = Destination(position: LatLng, title: Nullable<string>)

  /**
   * The info-window click: a registered marker navigates to its storage's
   * position and title, any other marker to its own.
   */
  function InfoWindowDestination(reg: Registry, m: Marker): (d: Destination)
    ensures m.id in reg ==> d == Destination(reg[m.id].position, NonNull(reg[m.id].title))
    ensures m.id !in reg ==> d == Destination(m.position, m.title)
  {
    if m.id in reg then Destination(reg[m.id].position, NonNull(reg[m.id].title))
    else Destination(m.position, m.title)
  }

  /**
   * The marker click never consumes the event: both branches of the listener
   * return false, so the map's default handling opens the info window.
   */
  function MarkerClickConsumed(reg: Registry, m: Marker): (consumed: bool)
    ensures !consumed
  {
    false
  }

  /** The custom info window: a storage's snippet, or nothing (the default window) for other markers. */
  function InfoWindowText(reg: Registry, m: Marker): (t: Nullable<string>)
    ensures t.NonNull? <==> m.id in reg
    ensures t.NonNull? ==> t.value == reg[m.id].snippet
  {
    if m.id in reg then NonNull(reg[m.id].snippet) else Null
  }

  /**
   * Every storage whose marker was drawn navigates to its own site and title,
   * whatever position and title the marker object reports.
   */
  lemma StorageMarkerNavigatesToStorage(added: seq<Nullable<MarkerId>>, i: int, pos: LatLng, title: Nullable<string>)
    requires |added| == |Storages| && DistinctHandles(added)
    requires 0 <= i < |added| && added[i].NonNull?
    ensures
      var reg := RegisterMarkers(Storages, added);
      var m := Marker(added[i].value, pos, title);
      && InfoWindowDestination(reg, m) == Destination(Storages[i].position, NonNull(Storages[i].title))
      && InfoWindowText(reg, m) == NonNull(Storages[i].snippet)
      && !MarkerClickConsumed(reg, m)
  {
    RegisteredToItsStorage(Storages, added, i);
  }
}
