/**
 * The access decision the dashboard's middleware takes for each request:
 * the sixteen dashboard pages (desktop and mobile view, light and dark mode,
 * clients, events, gallery and projects) and the home page require a
 * signed-in user, and the sixteen dashboard pages further require the
 * `lens_admin` role, other users being sent back to the home page. Route
 * matching is taken as exact membership of the path in a set.
 */
module Middleware {
  import opened Base

  /** The pages a user must be signed in to see (`isProtectedRoute`). */
  const ProtectedRoutes: set<string> := {
    "/Dashboard_desktopView/LightMode/clients",
    "/Dashboard_desktopView/LightMode/events",
    "/Dashboard_desktopView/LightMode/gallery",
    "/Dashboard_desktopView/LightMode/projects",
    "/Dashboard_desktopView/DarkMode/clients",
    "/Dashboard_desktopView/DarkMode/events",
    "/Dashboard_desktopView/DarkMode/gallery",
    "/Dashboard_desktopView/DarkMode/projects",
    "/Dashboard_mobileView/LightMode/clients",
    "/Dashboard_mobileView/LightMode/events",
    "/Dashboard_mobileView/LightMode/gallery",
    "/Dashboard_mobileView/LightMode/projects",
    "/Dashboard_mobileView/DarkMode/clients",
    "/Dashboard_mobileView/DarkMode/events",
    "/Dashboard_mobileView/DarkMode/gallery",
    "/Dashboard_mobileView/DarkMode/projects",
    "/"
  }

  /** The pages only an administrator may see (`isAdminRoute`). */
  const AdminRoutes: set<string> := {
    "/Dashboard_desktopView/LightMode/clients",
    "/Dashboard_desktopView/LightMode/events",
    "/Dashboard_desktopView/LightMode/gallery",
    "/Dashboard_desktopView/LightMode/projects",
    "/Dashboard_desktopView/DarkMode/clients",
    "/Dashboard_desktopView/DarkMode/events",
    "/Dashboard_desktopView/DarkMode/gallery",
    "/Dashboard_desktopView/DarkMode/projects",
    "/Dashboard_mobileView/LightMode/clients",
    "/Dashboard_mobileView/LightMode/events",
    "/Dashboard_mobileView/LightMode/gallery",
    "/Dashboard_mobileView/LightMode/projects",
    "/Dashboard_mobileView/DarkMode/clients",
    "/Dashboard_mobileView/DarkMode/events",
    "/Dashboard_mobileView/DarkMode/gallery",
    "/Dashboard_mobileView/DarkMode/projects"
  }

  /** The role that opens the dashboard pages. */
  const Admin: string := "lens_admin"

  /** The user's session as the middleware sees it: `None` when not signed in; the role from the session metadata, if any. */
  datatype Session = Session(role: Option<string>)

  /**
   * What happens to the request: passed on untouched (not a protected page),
   * stopped by `auth.protect()` (no session), sent to "/" (a dashboard page
   * without the administrator role), or let through after the checks.
   */
  datatype Action = NoAction | SignInRequired | RedirectHome | Allowed

  /** The middleware callback. */
  function Decide(path: string, session: Option<Session>): Action
  {
    if path !in ProtectedRoutes then NoAction
    else if session.None? then SignInRequired
    else if path in AdminRoutes && session.value.role != Some(Admin) then RedirectHome
    else Allowed
  }

  /** The administrator pages are the protected pages other than the home page. */
  lemma AdminRoutesAreProtected()
    ensures AdminRoutes == ProtectedRoutes - {"/"}
    ensures "/" in ProtectedRoutes
  {
  }

  /** A path outside the protected pages is passed on without a check, whoever asks. */
  lemma UnprotectedNoAction(path: string, session: Option<Session>)
    requires path !in ProtectedRoutes
    ensures Decide(path, session) == NoAction
  {
  }

  /** A protected page is never let through, or redirected, without a session. */
  lemma ProtectedNeedsSession(path: string)
    requires path in ProtectedRoutes
    ensures Decide(path, None) == SignInRequired
  {
  }

  /**
   * A signed-in user on a dashboard page is sent home exactly when the role
   * is not `lens_admin`; a `lens_admin` user is never redirected anywhere.
   */
  lemma AdminDecision(path: string, s: Session)
    ensures path in AdminRoutes ==> (Decide(path, Some(s)) == RedirectHome <==> s.role != Some(Admin))
    ensures s.role == Some(Admin) ==> Decide(path, Some(s)) != RedirectHome && Decide(path, Some(s)) != SignInRequired
  {
  }

  /** Every signed-in user, whatever the role, may see the home page. */
  lemma HomeForEveryUser(s: Session)
    ensures Decide("/", Some(s)) == Allowed
  {
    AdminRoutesAreProtected();
  }

  /** A request let through to a dashboard page comes from a `lens_admin` user. */
  lemma AllowedAdminPage(path: string, session: Option<Session>)
    requires path in AdminRoutes && Decide(path, session) == Allowed
    ensures session.Some? && session.value.role == Some(Admin)
  {
    AdminRoutesAreProtected();
  }
}
