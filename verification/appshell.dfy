/** The top-level page switch of the web front end (App.js): which page is
    shown, who is signed in, whether the navigation drawer is open, and the
    notification bar. The signed-in user is whatever the server returned,
    so it is a type parameter. Rendering is not modelled; only the state
    and the transitions between renders. */
module AppShell {
  import opened Base

  datatype Notification = Notification(open: bool, message: string, severity: string)

  datatype AppState<U> = AppState(page: string, user: Option<U>, drawerOpen: bool, notification: Notification)

  const LOGIN: string := "login"
  const LOGOUT: string := "logout"
  const DASHBOARD: string := "dashboard"

  /** The first render: the login page, nobody signed in, drawer closed,
      an empty notification of severity "info" that is not shown. */
  function Initial<U>(): (s: AppState<U>)
    ensures s.page == LOGIN && s.user.None? && !s.drawerOpen
    ensures !s.notification.open && s.notification.message == [] && s.notification.severity == "info"
  {
    AppState(LOGIN, None, false, Notification(false, "", "info"))
  }

  /** `handleNavigate(to)`: the drawer always closes; "logout" signs out
      and returns to the login page; any other target becomes the page and
      keeps the user. */
  function Navigate<U>(s: AppState<U>, to: string): (r: AppState<U>)
    ensures !r.drawerOpen && r.notification == s.notification
    ensures to == LOGOUT ==> r.page == LOGIN && r.user.None?
    ensures to != LOGOUT ==> r.page == to && r.user == s.user
  {
    var closed := s.(drawerOpen := false);
    if to == LOGOUT then closed.(user := None, page := LOGIN) else closed.(page := to)
  }

  /** What the login request came back with. */
  datatype LoginReply<U> = Accepted(user: U) | Refused | Unreachable

  /** `handleLogin`: an accepted login stores the user and opens the
      dashboard; a refusal or a failed request only raises an alert, which
      is not state. */
  function Login<U>(s: AppState<U>, reply: LoginReply<U>): (r: AppState<U>)
    ensures reply.Accepted? ==> r.user == Some(reply.user) && r.page == DASHBOARD
    ensures reply.Accepted? ==> r.drawerOpen == s.drawerOpen && r.notification == s.notification
    ensures !reply.Accepted? ==> r == s
  {
    match reply
    case Accepted(u) => s.(user := Some(u), page := DASHBOARD)
    case _ => s
  }

  /** The profile page's `onSave(u)`: the user is replaced and a success
      notification opens. */
  function SaveProfile<U>(s: AppState<U>, u: U): (r: AppState<U>)
    ensures r.user == Some(u) && r.page == s.page && r.drawerOpen == s.drawerOpen
    ensures r.notification == Notification(true, "Profile updated!", "success")
  {
    s.(user := Some(u), notification := Notification(true, "Profile updated!", "success"))
  }

  /** The app bar's menu button. */
  function OpenDrawer<U>(s: AppState<U>): (r: AppState<U>)
    ensures r.drawerOpen && r.page == s.page && r.user == s.user && r.notification == s.notification
  {
    s.(drawerOpen := true)
  }

  /** The drawer's `onClose` (a click outside it or Escape). */
  function CloseDrawer<U>(s: AppState<U>): (r: AppState<U>)
    ensures !r.drawerOpen && r.page == s.page && r.user == s.user && r.notification == s.notification
  {
    s.(drawerOpen := false)
  }

  /** Opening the drawer and closing it again returns to the state before,
      up to the drawer having been shut. */
  lemma DrawerRoundTrip<U>(s: AppState<U>)
    ensures CloseDrawer(OpenDrawer(s)) == s.(drawerOpen := false)
    ensures !s.drawerOpen ==> CloseDrawer(OpenDrawer(s)) == s
  {
  }

  /** The `onNotify` callback the parking, slot and history pages receive:
      the child's notification replaces the current one as given. */
  function Notify<U>(s: AppState<U>, n: Notification): (r: AppState<U>)
    ensures r.notification == n
    ensures r.page == s.page && r.user == s.user && r.drawerOpen == s.drawerOpen
  {
    s.(notification := n)
  }

  /** The QR scanner's `onScan(data)`: an open "info" notification that
      reads "Scanned: " followed by the data. */
  function ScanNotice<U>(s: AppState<U>, data: string): (r: AppState<U>)
    ensures r.notification.open && r.notification.severity == "info"
    ensures |r.notification.message| == |"Scanned: "| + |data|
    ensures r.notification.message[..|"Scanned: "|] == "Scanned: "
    ensures r.notification.message[|"Scanned: "|..] == data
    ensures r.page == s.page && r.user == s.user && r.drawerOpen == s.drawerOpen
  {
    Notify(s, Notification(true, "Scanned: " + data, "info"))
  }

  /** The notification bar's close: hidden, text and severity kept. */
  function CloseNotification<U>(s: AppState<U>): (r: AppState<U>)
    ensures !r.notification.open
    ensures r.notification.message == s.notification.message && r.notification.severity == s.notification.severity
    ensures r.page == s.page && r.user == s.user && r.drawerOpen == s.drawerOpen
  {
    s.(notification := s.notification.(open := false))
  }

  /** A notice a child raises stays readable after the bar is closed: only
      its visibility changes. */
  lemma NoticeThenClose<U>(s: AppState<U>, n: Notification)
    ensures CloseNotification(Notify(s, n)).notification == n.(open := false)
    ensures CloseNotification(Notify(s, n)).page == s.page
  {
  }

  /** The app bar and the drawer are rendered on every page but login. */
  predicate ChromeShown<U>(s: AppState<U>) {
    s.page != LOGIN
  }

  /** The targets of the drawer's entries, in order. */
  const NAV_TARGETS: seq<string> :=
    ["dashboard", "parking", "slots", "history", "analytics", "settings", "profile", "logout"]

  /** Logging out hides the chrome and forgets the user, from any state. */
  lemma LogoutHidesChrome<U>(s: AppState<U>)
    ensures !ChromeShown(Navigate(s, LOGOUT)) && Navigate(s, LOGOUT).user.None?
  {
  }

  /** Every drawer entry but the last keeps the chrome and the user; the
      last one, "logout", hides the chrome. */
  lemma DrawerEntries<U>(s: AppState<U>, i: int)
    requires 0 <= i < |NAV_TARGETS|
    ensures i < |NAV_TARGETS| - 1 ==> ChromeShown(Navigate(s, NAV_TARGETS[i])) && Navigate(s, NAV_TARGETS[i]).user == s.user
    ensures i == |NAV_TARGETS| - 1 ==> !ChromeShown(Navigate(s, NAV_TARGETS[i]))
  {
  }

  /** The events that change the shell's state. */
  datatype Event<U> =
    | Nav(to: string)
    | LoginResult(reply: LoginReply<U>)
    | Save(u: U)
    | Menu
    | CloseMenu
    | ChildNotice(n: Notification)
    | Scanned(data: string)
    | CloseBar

  function Step<U>(s: AppState<U>, e: Event<U>): AppState<U> {
    match e
    case Nav(to) => Navigate(s, to)
    case LoginResult(reply) => Login(s, reply)
    case Save(u) => SaveProfile(s, u)
    case Menu => OpenDrawer(s)
    case CloseMenu => CloseDrawer(s)
    case ChildNotice(n) => Notify(s, n)
    case Scanned(data) => ScanNotice(s, data)
    case CloseBar => CloseNotification(s)
  }

  /** The state after a sequence of events, oldest first. */
  function Run<U>(s: AppState<U>, es: seq<Event<U>>): AppState<U>
    decreases |es|
  {
    if es == [] then s else Run(Step(s, es[0]), es[1..])
  }

  /** Only an accepted login or a profile save sets a user. */
  predicate SetsUser<U>(e: Event<U>) {
    (e.LoginResult? && e.reply.Accepted?) || e.Save?
  }

  /** Without an accepted login or a profile save, nobody is ever signed
      in, whatever pages are visited. */
  lemma {:induction false} NoUserWithoutLogin<U>(s: AppState<U>, es: seq<Event<U>>)
    requires s.user.None?
    requires forall i :: 0 <= i < |es| ==> !SetsUser(es[i])
    ensures Run(s, es).user.None?
    decreases |es|
  {
    if es != [] {
      assert !SetsUser(es[0]);
      assert forall i :: 0 <= i < |es| - 1 ==> es[1..][i] == es[i + 1];
      NoUserWithoutLogin(Step(s, es[0]), es[1..]);
    }
  }

  /** Whatever came before, a trailing logout leaves nobody signed in on the
      login page with the drawer shut. */
  lemma {:induction false} EndsLoggedOut<U>(s: AppState<U>, es: seq<Event<U>>)
    ensures var r := Run(s, es + [Nav(LOGOUT)]);
      r.user.None? && r.page == LOGIN && !r.drawerOpen
    decreases |es|
  {
    if es == [] {
      var last: seq<Event<U>> := [Nav(LOGOUT)];
      assert last[1..] == [];
    } else {
      var last: seq<Event<U>> := [Nav(LOGOUT)];
      assert (es + last)[1..] == es[1..] + last;
      EndsLoggedOut(Step(s, es[0]), es[1..]);
    }
  }
}
