/**
  The route guards of src/middleware/auth.js. Each looks at the user stored in the session
  and either hands the request on (`next()`), redirects, or answers 403; `requireAuth` also
  remembers the page that was asked for.
*/
module Auth {
  import opened Common
  import Js

  /** The part of `req.session.user` the guards read. */
  datatype SessionUser = SessionUser(isAdmin: Js.Value)

  /** What a guard does with the request: exactly one of these. */
  datatype Outcome = Next | Redirect(url: string) | Forbidden(message: string)

  /** The session object that express-session attaches to every request. */
  class Session {
    var user: Option<SessionUser>
    var returnTo: Option<string>

    constructor (user: Option<SessionUser>)
      ensures this.user == user && returnTo.None?
    {
      this.user := user;
      returnTo := None;
    }
  }

  const LoginUrl := "/auth/login"
  const AdminDashboardUrl := "/admin/dashboard"
  const MemberDashboardUrl := "/members/dashboard"
  const AdminRequiredMessage := "Access denied. Admin privileges required."
  const MemberRequiredMessage := "Access denied. Member account required."

  /** The decision `requireAuth` takes: on with a user, to the login page without one. */
  function AuthDecision(user: Option<SessionUser>): (o: Outcome)
    ensures o.Next? <==> user.Some?
    ensures !o.Next? ==> o == Redirect(LoginUrl)
  {
    if user.Some? then Next else Redirect(LoginUrl)
  }

  /**
    `requireAuth`: a signed-in request goes on untouched; otherwise the original URL is kept
    in `session.returnTo` and the browser is sent to the login page.
  */
  method RequireAuth(session: Session, originalUrl: string) returns (o: Outcome)
    modifies session`returnTo
    ensures o == AuthDecision(session.user)
    ensures session.user.Some? ==> session.returnTo == old(session.returnTo)
    ensures session.user.None? ==> session.returnTo == Some(originalUrl)
  {
    if session.user.Some? {
      return Next;
    }
    session.returnTo := Some(originalUrl);
    o := Redirect(LoginUrl);
  }

  /** `requireAdmin`: only a user whose `is_admin` is truthy passes; everyone else gets 403. */
  function RequireAdmin(user: Option<SessionUser>): (o: Outcome)
    ensures o.Next? <==> user.Some? && Js.Truthy(user.value.isAdmin)
    ensures !o.Next? ==> o == Forbidden(AdminRequiredMessage)
  {
    if user.Some? && Js.Truthy(user.value.isAdmin) then Next else Forbidden(AdminRequiredMessage)
  }

  /** `requireMember`: a signed-in non-admin passes; admins and anonymous requests get 403. */
  function RequireMember(user: Option<SessionUser>): (o: Outcome)
    ensures o.Next? <==> user.Some? && !Js.Truthy(user.value.isAdmin)
    ensures !o.Next? ==> o == Forbidden(MemberRequiredMessage)
  {
    if user.Some? && !Js.Truthy(user.value.isAdmin) then Next else Forbidden(MemberRequiredMessage)
  }

  /**
    `redirectIfAuthenticated`, for the login and registration pages: a signed-in user is sent
    to their dashboard, an anonymous request goes on.
  */
  function RedirectIfAuthenticated(user: Option<SessionUser>): (o: Outcome)
    ensures o.Next? <==> user.None?
    ensures user.Some? && Js.Truthy(user.value.isAdmin) ==> o == Redirect(AdminDashboardUrl)
    ensures user.Some? && !Js.Truthy(user.value.isAdmin) ==> o == Redirect(MemberDashboardUrl)
  {
    if user.Some? then
      Redirect(if Js.Truthy(user.value.isAdmin) then AdminDashboardUrl else MemberDashboardUrl)
    else Next
  }

  /**
    No user passes both role guards, and every signed-in user passes exactly one of them;
    an anonymous request passes neither.
  */
  lemma RoleGuardsPartitionUsers(user: Option<SessionUser>)
    ensures !(RequireAdmin(user).Next? && RequireMember(user).Next?)
    ensures user.Some? ==> RequireAdmin(user).Next? != RequireMember(user).Next?
    ensures user.None? ==> RequireAdmin(user).Forbidden? && RequireMember(user).Forbidden?
  {
  }

  /**
    `redirectIfAuthenticated` lets through exactly the requests `requireAuth` turns away, and
    a request `requireAdmin` or `requireMember` admits is one `requireAuth` admits.
  */
  lemma GuardsAgreeOnSignedIn(user: Option<SessionUser>)
    ensures RedirectIfAuthenticated(user).Next? <==> !AuthDecision(user).Next?
    ensures RequireAdmin(user).Next? ==> AuthDecision(user).Next?
    ensures RequireMember(user).Next? ==> AuthDecision(user).Next?
  {
  }

  /**
    Which responses each guard can give: `requireAuth` and `redirectIfAuthenticated` never
    answer 403, the role guards never redirect.
  */
  lemma GuardResponses(user: Option<SessionUser>)
    ensures AuthDecision(user).Next? || AuthDecision(user).Redirect?
    ensures RedirectIfAuthenticated(user).Next? || RedirectIfAuthenticated(user).Redirect?
    ensures RequireAdmin(user).Next? || RequireAdmin(user).Forbidden?
    ensures RequireMember(user).Next? || RequireMember(user).Forbidden?
  {
  }
}
