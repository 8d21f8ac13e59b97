/**
 * The route guard (src/components/ProtectedRoute.tsx): from the loading
 * flags, the signed-in user and its role, what is shown (a spinner,
 * nothing, or the protected page) and where the guard's effect navigates.
 */
module ProtectedRoute {
  import opened Common
  import Auth

  datatype Screen = Spinner | Blank | Children

  /** One render of the guard: the screen and the navigation its effect performs, if any. */
  datatype View = View(screen: Screen, navigation: Option<string>)

  /** `role === 'admin' ? ... : role === 'doctor' ? ... : '/dashboard/patient'`. */
  function OwnDashboard(role: string): string
  {
    if role == "admin" then "/dashboard/admin"
    else if role == "doctor" then "/dashboard/doctor"
    else "/dashboard/patient"
  }

  /** The effect of lines 16-32. */
  function Navigation(authLoading: bool, roleLoading: bool, signedIn: bool, role: Option<string>, allowedRoles: seq<string>): Option<string>
  {
    if !authLoading && !roleLoading then
      if !signedIn then Some("/auth")
      else if Truthy(role) && role.value !in allowedRoles then Some(OwnDashboard(role.value))
      else None
    else None
  }

  /** The render of lines 34-46. */
  function ScreenOf(authLoading: bool, roleLoading: bool, signedIn: bool, role: Option<string>, allowedRoles: seq<string>): Screen
  {
    if authLoading || roleLoading then Spinner
    else if !signedIn || !Truthy(role) || role.value !in allowedRoles then Blank
    else Children
  }

  function Guard(authLoading: bool, roleLoading: bool, signedIn: bool, role: Option<string>, allowedRoles: seq<string>): View
  {
    View(ScreenOf(authLoading, roleLoading, signedIn, role, allowedRoles),
         Navigation(authLoading, roleLoading, signedIn, role, allowedRoles))
  }

  /**
   * The access decision: while either flag is loading only the spinner
   * shows and nothing navigates; once loaded, no user goes to /auth, a
   * role outside the allowed ones goes to its own dashboard, and the page
   * renders exactly for a user whose non-empty role is allowed.
   */
  lemma GuardSpec(authLoading: bool, roleLoading: bool, signedIn: bool, role: Option<string>, allowedRoles: seq<string>)
    ensures var v := Guard(authLoading, roleLoading, signedIn, role, allowedRoles);
      (v.screen == Spinner <==> authLoading || roleLoading) &&
      (authLoading || roleLoading ==> v.navigation.None?) &&
      (!authLoading && !roleLoading && !signedIn ==> v.navigation == Some("/auth")) &&
      (v.screen == Children <==> !authLoading && !roleLoading && signedIn && Truthy(role) && role.value in allowedRoles) &&
      (v.screen == Children ==> v.navigation.None?)
  {
  }

  /** A signed-in user whose role is missing or empty sees nothing and stays put. */
  lemma NoRoleNoRedirect(allowedRoles: seq<string>, role: Option<string>)
    requires !Truthy(role)
    ensures Guard(false, false, true, role, allowedRoles) == View(Blank, None)
  {
  }

  /**
   * A signed-in user with a non-empty role that is not allowed is sent to
   * the dashboard the sign-in page would choose for that role.
   */
  lemma RedirectMatchesSignIn(role: string, allowedRoles: seq<string>)
    requires role != "" && role !in allowedRoles
    ensures Guard(false, false, true, Some(role), allowedRoles) == View(Blank, Some(Auth.RoleDashboard(Some(role))))
  {
  }
}
