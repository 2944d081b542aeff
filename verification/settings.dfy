/**
 * The role switch on the two apps' settings screens, as a state machine
 * over the alerts and the typed password. Tapping any button of an alert
 * dismisses that alert. The reader app (`DemoApp`) offers "Switch Role"
 * to everyone; the companion app (`PaperAndInk`) hides staff access behind
 * five taps for readers and offers "Switch to Reader Mode" to staff. Each
 * app has its own hard-coded staff password.
 */
module RoleSettings {
  import opened Roles

  datatype Screen = ReaderApp | CompanionApp

  /** The staff password compared on Submit. */
  function StaffPassword(screen: Screen): (p: string)
    ensures |p| > 0
  {
    match screen
    case ReaderApp => "bookiecookie123"
    case CompanionApp => "hello"
  }

  /** The two apps do not accept each other's password. */
  lemma PasswordsDiffer()
    ensures StaffPassword(ReaderApp) != StaffPassword(CompanionApp)
  {
    assert |StaffPassword(ReaderApp)| != |StaffPassword(CompanionApp)|;
  }

  datatype SettingsState = SettingsState(
    role: UserRole,
    showingRoleAlert: bool,
    showingPasswordAlert: bool,
    password: string,
    showingPasswordError: bool)

  /** The screen as it opens: no alert up, nothing typed. */
  function Opened(role: UserRole): (st: SettingsState)
    ensures st.role == role && st.password == "" && !st.showingPasswordAlert
  {
    SettingsState(role, false, false, "", false)
  }

  datatype Event =
    | SwitchRole          // the reader app's "Switch Role" button
    | FiveTaps            // the companion app's hidden gesture
    | SwitchToReaderMode  // the companion app's button, shown to staff
    | PickReader          // "Reader" in the role alert
    | PickStaff           // "Staff" in the role alert
    | PickCancel          // "Cancel" in the role alert
    | Type(text: string)  // editing the password field
    | Submit
    | CancelPassword
    | DismissError

  /** "Submit": the right password makes the user staff; any other raises the error. Both clear the field. */
  function SubmitPassword(screen: Screen, st: SettingsState): (r: SettingsState)
    requires st.showingPasswordAlert
    ensures r.password == "" && !r.showingPasswordAlert
    ensures st.password == StaffPassword(screen) ==> r.role == Staff && r.showingPasswordError == st.showingPasswordError
    ensures st.password != StaffPassword(screen) ==> r.role == st.role && r.showingPasswordError
  {
    var st' := st.(showingPasswordAlert := false, password := "");
    if st.password == StaffPassword(screen) then st'.(role := Staff)
    else st'.(showingPasswordError := true)
  }

  /**
   * One user action on the given screen. An action whose button is not on
   * screen (an alert not showing, a control the app or the role does not
   * offer) changes nothing.
   */
  function Step(screen: Screen, st: SettingsState, e: Event): (r: SettingsState)
    ensures r.role != st.role ==> (e == PickReader || e == SwitchToReaderMode || e == Submit)
    ensures r.role == Staff && st.role != Staff ==> e == Submit && st.password == StaffPassword(screen)
    ensures r.password != st.password ==> e.Type? || e == Submit || e == CancelPassword
  {
    match e
    case SwitchRole => if screen == ReaderApp then st.(showingRoleAlert := true) else st
    case FiveTaps => if screen == CompanionApp && st.role == Reader then st.(showingPasswordAlert := true) else st
    case SwitchToReaderMode => if screen == CompanionApp && st.role == Staff then st.(role := Reader) else st
    case PickReader => if st.showingRoleAlert then st.(showingRoleAlert := false, role := Reader) else st
    case PickStaff => if st.showingRoleAlert then st.(showingRoleAlert := false, showingPasswordAlert := true) else st
    case PickCancel => if st.showingRoleAlert then st.(showingRoleAlert := false) else st
    case Type(text) => if st.showingPasswordAlert then st.(password := text) else st
    case Submit => if st.showingPasswordAlert then SubmitPassword(screen, st) else st
    case CancelPassword => if st.showingPasswordAlert then st.(showingPasswordAlert := false, password := "") else st
    case DismissError => st.(showingPasswordError := false)
  }

  /** A sequence of actions. */
  function Run(screen: Screen, st: SettingsState, events: seq<Event>): SettingsState
    decreases |events|
  {
    if |events| == 0 then st else Run(screen, Step(screen, st, events[0]), events[1..])
  }

  /** "Staff" in the role alert only asks for the password; the role stays. */
  lemma PickStaffOnlyPrompts(screen: Screen, st: SettingsState)
    requires st.showingRoleAlert
    ensures Step(screen, st, PickStaff).role == st.role && Step(screen, st, PickStaff).showingPasswordAlert
  {
  }

  /** The five-tap gesture opens the prompt for readers only. */
  lemma FiveTapsForReadersOnly(st: SettingsState)
    ensures Step(CompanionApp, st, FiveTaps).showingPasswordAlert <==> st.role == Reader || st.showingPasswordAlert
    ensures Step(CompanionApp, st, FiveTaps).role == st.role
  {
  }

  /** Only staff can switch to reader mode on the companion app, and the reader app has no such button. */
  lemma SwitchToReaderModeForStaffOnly(screen: Screen, st: SettingsState)
    ensures Step(screen, st, SwitchToReaderMode).role == Reader <==> st.role == Reader || screen == CompanionApp
  {
  }

  /**
   * Nobody becomes staff without typing the screen's password: a reader
   * who starts with an empty field and ends as staff typed it at some point.
   */
  lemma {:induction false} StaffNeedsPassword(screen: Screen, st: SettingsState, events: seq<Event>)
    requires st.role == Reader && st.password != StaffPassword(screen)
    requires Run(screen, st, events).role == Staff
    ensures exists i :: 0 <= i < |events| && events[i] == Type(StaffPassword(screen))
    decreases |events|
  {
    if |events| == 0 {
      assert false;
    } else if events[0] != Type(StaffPassword(screen)) {
      var next := Step(screen, st, events[0]);
      StaffNeedsPassword(screen, next, events[1..]);
      var i :| 0 <= i < |events[1..]| && events[1..][i] == Type(StaffPassword(screen));
      assert events[i + 1] == Type(StaffPassword(screen));
    }
  }

  /** On the reader app, "Switch Role", "Staff", the password and Submit make a reader staff. */
  lemma ReaderAppStaffPath(st: SettingsState)
    requires !st.showingPasswordAlert
    ensures Run(ReaderApp, st, [SwitchRole, PickStaff, Type(StaffPassword(ReaderApp)), Submit]).role == Staff
    ensures Run(ReaderApp, st, [SwitchRole, PickStaff, Type(StaffPassword(ReaderApp)), Submit]).password == ""
  {
    var s1 := Step(ReaderApp, st, SwitchRole);
    var s2 := Step(ReaderApp, s1, PickStaff);
    var s3 := Step(ReaderApp, s2, Type(StaffPassword(ReaderApp)));
    var evs := [SwitchRole, PickStaff, Type(StaffPassword(ReaderApp)), Submit];
    assert evs[1..][1..][1..][1..] == [];
  }

  /** On the companion app the reader app's password is refused: the role stays and the error shows. */
  lemma CompanionRefusesReaderAppPassword(role: UserRole)
    requires role == Reader
    ensures var r := Run(CompanionApp, Opened(role), [FiveTaps, Type(StaffPassword(ReaderApp)), Submit]);
      r.role == Reader && r.showingPasswordError && r.password == ""
  {
    PasswordsDiffer();
    var evs := [FiveTaps, Type(StaffPassword(ReaderApp)), Submit];
    assert evs[1..][1..][1..] == [];
  }
}
