/**
 * The sign-in page (src/pages/Auth.tsx): where a signed-in user is sent
 * (the booking link it came from, or the dashboard of its role), and the
 * input guards of registration and login, which reject before any call
 * to the authentication service.
 *
 * A role is the nullable string read from the user_roles table; the
 * authentication service's answers are parameters.
 */
module Auth {
  import opened Common

  /** `searchParams.get("redirect") || "/"`. */
  function RedirectTarget(param: Option<string>): (r: string)
    ensures r != ""
    ensures Truthy(param) ==> r == param.value
  {
    if Truthy(param) then param.value else "/"
  }

  /** The redirect is honoured only for a non-empty target other than "/" that contains "/book/". */
  predicate HonoursRedirect(redirectTo: string)
  {
    redirectTo != "" && redirectTo != "/" && Contains(redirectTo, "/book/")
  }

  /** The switch on the role: doctor and admin have their dashboards, any other or no role the patient one. */
  function RoleDashboard(role: Option<string>): string
  {
    if role == Some("doctor") then "/dashboard/doctor"
    else if role == Some("admin") then "/dashboard/admin"
    else "/dashboard/patient"
  }

  /** getDashboardPath, also the choice made after a login. */
  function DashboardPath(redirectTo: string, role: Option<string>): string
  {
    if HonoursRedirect(redirectTo) then redirectTo else RoleDashboard(role)
  }

  /** The effect of lines 44-61: it navigates only once the user, a loaded and non-empty role are known. */
  function AutoRedirect(currentUserId: Option<string>, roleLoading: bool, role: Option<string>, redirectTo: string): Option<string>
  {
    if Truthy(currentUserId) && !roleLoading && Truthy(role) then Some(DashboardPath(redirectTo, role)) else None
  }

  /** `sub <= s` for a fixed prefix is found by the search at the start. */
  lemma ContainsAt(s: string, sub: string, k: nat)
    requires k + |sub| <= |s| && s[k..k + |sub|] == sub
    ensures Contains(s, sub)
    decreases k
  {
    if k > 0 {
      assert s[1..][k - 1..k - 1 + |sub|] == sub;
      ContainsAt(s[1..], sub, k - 1);
    }
  }

  /** A found substring is no longer than the string. */
  lemma {:induction false} ContainsLength(s: string, sub: string)
    requires Contains(s, sub)
    ensures |sub| <= |s|
    decreases |s|
  {
    if !(sub <= s) {
      ContainsLength(s[1..], sub);
    }
  }

  /**
   * The target is a booking link exactly when it is honoured: "/" and ""
   * never contain "/book/", so the guard reduces to the substring test.
   */
  lemma HonoursRedirectIsBookingLink(redirectTo: string)
    ensures HonoursRedirect(redirectTo) <==> Contains(redirectTo, "/book/")
  {
    if Contains(redirectTo, "/book/") {
      ContainsLength(redirectTo, "/book/");
    }
  }

  /**
   * Where a user is sent: a booking link is followed whatever the role;
   * otherwise doctors and admins go to their dashboards and everybody
   * else, including a user without a role, to the patient dashboard. The
   * default target "/" is never followed.
   */
  lemma DashboardPathCases(redirectTo: string, role: Option<string>)
    ensures Contains(redirectTo, "/book/") ==> DashboardPath(redirectTo, role) == redirectTo
    ensures !Contains(redirectTo, "/book/") ==> DashboardPath(redirectTo, role) in {"/dashboard/doctor", "/dashboard/admin", "/dashboard/patient"}
    ensures !Contains(redirectTo, "/book/") && role != Some("doctor") && role != Some("admin") ==>
      DashboardPath(redirectTo, role) == "/dashboard/patient"
    ensures DashboardPath(RedirectTarget(None), role) == RoleDashboard(role)
  {
    HonoursRedirectIsBookingLink(redirectTo);
    HonoursRedirectIsBookingLink("/");
  }

  /** A booking link such as "/book/online" is followed. */
  lemma BookingLinkFollowed(role: Option<string>)
    ensures DashboardPath("/book/online", role) == "/book/online"
  {
    ContainsAt("/book/online", "/book/", 0);
  }

  /** The automatic redirect waits for the user id, the role to finish loading and a non-empty role. */
  lemma AutoRedirectWaits(currentUserId: Option<string>, roleLoading: bool, role: Option<string>, redirectTo: string)
    ensures AutoRedirect(currentUserId, roleLoading, role, redirectTo).Some? <==>
      Truthy(currentUserId) && !roleLoading && Truthy(role)
    ensures AutoRedirect(currentUserId, roleLoading, role, redirectTo).Some? ==>
      AutoRedirect(currentUserId, roleLoading, role, redirectTo).value == DashboardPath(redirectTo, role)
  {
  }

  // ---------------------------------------------------------------------
  // Registration and login guards
  // ---------------------------------------------------------------------

  datatype RegisterCheck = PasswordsDiffer | PasswordTooShort | ProceedToSignUp

  /** handleRegister's guards: the mismatch is reported before the length. */
  function CheckRegister(password: string, confirmPassword: string): RegisterCheck
  {
    if password != confirmPassword then PasswordsDiffer
    else if Utf16Length(password) < 6 then PasswordTooShort
    else ProceedToSignUp
  }

  /** Registration proceeds exactly for two equal passwords of at least six characters. */
  lemma CheckRegisterSpec(password: string, confirmPassword: string)
    ensures CheckRegister(password, confirmPassword) == ProceedToSignUp <==> password == confirmPassword && Utf16Length(password) >= 6
    ensures password != confirmPassword ==> CheckRegister(password, confirmPassword) == PasswordsDiffer
  {
  }

  /**
   * The length test counts UTF-16 code units: three emoji above U+FFFF
   * make a six-unit password, which is long enough.
   */
  lemma AstralPasswordLongEnough()
    ensures var p := "\U{1F600}\U{1F600}\U{1F600}";
      |p| == 3 && CheckRegister(p, p) == ProceedToSignUp
  {
    var p := "\U{1F600}\U{1F600}\U{1F600}";
    var e := "\U{1F600}";
    assert e[..0] == [] && Utf16Length(e) == 2;
    assert p == e + e + e;
    Utf16LengthAppend(e, e);
    Utf16LengthAppend(e + e, e);
  }

  /** handleLogin's guard: the identifier field (used as the email) and the password must be non-empty. */
  predicate LoginAccepted(email: string, password: string)
  {
    !(email == "" || password == "")
  }

  /** The sign-up call's answer: an error (its message may be empty), or the created user's id, which may be missing. */
  datatype SignUpAnswer = SignUpFailed(message: string) | SignedUp(userId: Option<string>)

  /** What the form handlers end with: a guard's message, an error toast, or success with its navigation. */
  datatype Outcome = Rejected(message: string) | ServiceError(message: string) | Registered | LoggedIn(target: string)

  /** `error.message || fallback`. */
  function MessageOr(message: string, fallback: string): string
  {
    OrElse(Some(message), fallback)
  }

  /**
   * What follows a sign-up that passed the guards: its error, the thrown
   * "User creation failed" when no id came back, the role insert's
   * failure, or success.
   */
  function RegisterResult(signUp: SignUpAnswer, roleInsertFailed: bool): Outcome
  {
    match signUp
    case SignUpFailed(m) => ServiceError(MessageOr(m, "Failed to register. Please try again."))
    case SignedUp(id) =>
      if !Truthy(id) then ServiceError("User creation failed")
      else if roleInsertFailed then ServiceError("Account created but role setting failed. Please contact support.")
      else Registered
  }

  /** The role row is inserted only for a sign-up that returned a user id. */
  predicate InsertsRole(signUp: SignUpAnswer)
  {
    signUp.SignedUp? && Truthy(signUp.userId)
  }

  /**
   * Registration succeeds exactly when the sign-up returns a user id and
   * the role row is stored; every failure shows a non-empty message.
   */
  lemma RegisterResultSpec(signUp: SignUpAnswer, roleInsertFailed: bool)
    ensures RegisterResult(signUp, roleInsertFailed) == Registered <==> InsertsRole(signUp) && !roleInsertFailed
    ensures RegisterResult(signUp, roleInsertFailed).ServiceError? ==> RegisterResult(signUp, roleInsertFailed).message != ""
    ensures signUp.SignedUp? && !Truthy(signUp.userId) ==> RegisterResult(signUp, roleInsertFailed) == ServiceError("User creation failed")
    ensures signUp == SignUpFailed("") ==> RegisterResult(signUp, roleInsertFailed) == ServiceError("Failed to register. Please try again.")
  {
    match signUp
    case SignUpFailed(m) =>
    case SignedUp(id) =>
  }

  /**
   * What follows a sign-in that passed the guard: its error (None when it
   * succeeded), or the navigation chosen from the redirect target and the
   * fetched role, which is None when no role row was found.
   */
  function LoginResult(signInError: Option<string>, role: Option<string>, redirectTo: string): Outcome
  {
    if signInError.Some? then ServiceError(MessageOr(signInError.value, "Invalid credentials. Please try again."))
    else LoggedIn(DashboardPath(redirectTo, role))
  }

  /**
   * A successful login navigates where the automatic redirect would, so a
   * booking link is followed and otherwise the role's dashboard is used;
   * a failure shows a non-empty message.
   */
  lemma LoginResultSpec(signInError: Option<string>, role: Option<string>, redirectTo: string, userId: string)
    ensures LoginResult(signInError, role, redirectTo).LoggedIn? <==> signInError.None?
    ensures signInError.None? ==> LoginResult(signInError, role, redirectTo).target == DashboardPath(redirectTo, role)
    ensures signInError.None? && userId != "" && Truthy(role) ==>
      Some(LoginResult(signInError, role, redirectTo).target) == AutoRedirect(Some(userId), false, role, redirectTo)
    ensures LoginResult(signInError, role, redirectTo).ServiceError? ==> LoginResult(signInError, role, redirectTo).message != ""
    ensures signInError == Some("") ==> LoginResult(signInError, role, redirectTo) == ServiceError("Invalid credentials. Please try again.")
  {
  }

  /** The sign-in page's state: the busy flag and the calls made to the backend. */
  class AuthPage {
    var isLoading: bool
    /** The e-mails sent to sign-up, in order. */
    var signUps: seq<string>
    /** The user_roles inserts requested, whether or not they succeeded: user id and role, in order. */
    var roleInsertRequests: seq<(string, string)>
    /** The e-mails sent to sign-in, in order. */
    var signIns: seq<string>

    constructor()
      ensures !isLoading && signUps == [] && roleInsertRequests == [] && signIns == []
    {
      isLoading := false;
      signUps := [];
      roleInsertRequests := [];
      signIns := [];
    }

    /**
     * handleRegister with the backend's answers passed in: a failed guard
     * returns before sign-up is called and before isLoading is touched;
     * otherwise the sign-up is made, the role row insert is requested when a
     * user id came back, and isLoading ends false.
     */
    method HandleRegister(email: string, password: string, confirmPassword: string, role: string,
                          signUp: SignUpAnswer, roleInsertFailed: bool)
      returns (outcome: Outcome)
      modifies this
      ensures CheckRegister(password, confirmPassword) == PasswordsDiffer ==>
        outcome == Rejected("Passwords do not match") && signUps == old(signUps) && isLoading == old(isLoading)
      ensures CheckRegister(password, confirmPassword) == PasswordTooShort ==>
        outcome == Rejected("Password must be at least 6 characters") && signUps == old(signUps) && isLoading == old(isLoading)
      ensures CheckRegister(password, confirmPassword) != ProceedToSignUp ==> roleInsertRequests == old(roleInsertRequests)
      ensures CheckRegister(password, confirmPassword) == ProceedToSignUp ==>
        signUps == old(signUps) + [email] && !isLoading &&
        roleInsertRequests == old(roleInsertRequests) + (if InsertsRole(signUp) then [(signUp.userId.value, role)] else []) &&
        outcome == RegisterResult(signUp, roleInsertFailed)
      ensures signIns == old(signIns)
    {
      if password != confirmPassword {
        return Rejected("Passwords do not match");
      }
      if Utf16Length(password) < 6 {
        return Rejected("Password must be at least 6 characters");
      }
      isLoading := true;
      signUps := signUps + [email];
      if InsertsRole(signUp) {
        roleInsertRequests := roleInsertRequests + [(signUp.userId.value, role)];
      }
      outcome := RegisterResult(signUp, roleInsertFailed);
      isLoading := false;
    }

    /**
     * handleLogin with the sign-in error and the fetched role passed in:
     * an empty field is rejected before sign-in is called; otherwise the
     * sign-in is made and its result decides the toast or the navigation.
     */
    method HandleLogin(email: string, password: string, signInError: Option<string>, role: Option<string>, redirectTo: string)
      returns (outcome: Outcome)
      modifies this
      ensures !LoginAccepted(email, password) ==>
        outcome == Rejected("Please enter your email and password") && signIns == old(signIns) && isLoading == old(isLoading)
      ensures LoginAccepted(email, password) ==>
        signIns == old(signIns) + [email] && !isLoading && outcome == LoginResult(signInError, role, redirectTo)
      ensures signUps == old(signUps) && roleInsertRequests == old(roleInsertRequests)
    {
      if email == "" || password == "" {
        return Rejected("Please enter your email and password");
      }
      isLoading := true;
      signIns := signIns + [email];
      outcome := LoginResult(signInError, role, redirectTo);
      isLoading := false;
    }
  }
}
