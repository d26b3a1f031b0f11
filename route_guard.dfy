/**
 * The client's `ProtectedRoute`: from the session state (`loading`, `user`) and
 * the route's `requiredRole`, the navigations its effect issues and what it renders.
 * Navigation is an output value, not an action.
 */
module RouteGuard {
  import opened Wrappers

  /** The part of the session user the guard reads. */
  datatype SessionUser = SessionUser(role: string)

  /** What the component returns: its children, or the "Loading..." placeholder. */
  datatype View = Children | Placeholder

  const LoginPath: string := "/login"
  const UnauthorizedPath: string := "/unauthorized"

  /** JavaScript truthiness of `requiredRole` (default `null`): the empty string counts as absent. */
  predicate RoleRequired(requiredRole: Option<string>)
  {
    requiredRole.Some? && requiredRole.value != ""
  }

  /** `requiredRole && user.role !== requiredRole`. */
  predicate WrongRole(user: SessionUser, requiredRole: Option<string>)
  {
    RoleRequired(requiredRole) && user.role != requiredRole.value
  }

  /** The paths the effect pushes, in the order of its two `if` statements. */
  function Redirects(loading: bool, user: Option<SessionUser>, requiredRole: Option<string>): (pushes: seq<string>)
    ensures |pushes| <= 1
    ensures pushes == [LoginPath] <==> !loading && user.None?
    ensures pushes == [UnauthorizedPath] <==>
      !loading && user.Some? && requiredRole.Some? && requiredRole.value != "" && user.value.role != requiredRole.value
    ensures pushes == [] <==> loading || (user.Some? && !WrongRole(user.value, requiredRole))
  {
    assert [LoginPath] != [UnauthorizedPath] by {
      assert [LoginPath][0][1] != [UnauthorizedPath][0][1];
    }
    (if !loading && user.None? then [LoginPath] else []) +
    (if !loading && user.Some? && WrongRole(user.value, requiredRole) then [UnauthorizedPath] else [])
  }

  /** The component's return value. */
  function Render(loading: bool, user: Option<SessionUser>, requiredRole: Option<string>): (v: View)
    ensures v == Children <==>
      !loading && user.Some? && (requiredRole.None? || requiredRole.value == "" || user.value.role == requiredRole.value)
  {
    if loading || user.None? || WrongRole(user.value, requiredRole) then Placeholder else Children
  }

  /** While the session is loading nothing is pushed and only the placeholder shows. */
  lemma WhileLoading(user: Option<SessionUser>, requiredRole: Option<string>)
    ensures Redirects(true, user, requiredRole) == []
    ensures Render(true, user, requiredRole) == Placeholder
  {
  }

  /** Whenever a redirect is issued, the children are not rendered. */
  lemma NoRenderWhenRedirecting(loading: bool, user: Option<SessionUser>, requiredRole: Option<string>)
    requires Redirects(loading, user, requiredRole) != []
    ensures Render(loading, user, requiredRole) == Placeholder
  {
  }

  /** Once loading is over, the guard either renders the children or redirects, never both and never neither. */
  lemma RedirectOrRender(user: Option<SessionUser>, requiredRole: Option<string>)
    ensures Render(false, user, requiredRole) == Children <==> Redirects(false, user, requiredRole) == []
  {
  }

  /** A route with no required role admits every signed-in user. */
  lemma NoRoleAdmitsEveryUser(user: SessionUser)
    ensures Redirects(false, Some(user), None) == []
    ensures Render(false, Some(user), None) == Children
  {
  }
}
