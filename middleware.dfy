/**
 * The route guard (app/middleware.ts): from whether the request carries a
 * session and the request's path name, either redirect to `/login`, redirect
 * to `/dashboard`, or let the request through.
 */
module Middleware {
  import opened Text

  datatype Response = RedirectTo(path: string) | PassThrough

  const LoginPath: string := "/login"
  const SignupPath: string := "/signup"
  const DashboardPath: string := "/dashboard"
  const RootPath: string := "/"

  /** The pages open to visitors without a session: anything under `/login` or `/signup`, and `/` itself. */
  predicate IsAuthRoute(pathname: string)
  {
    StartsWith(pathname, LoginPath) || StartsWith(pathname, SignupPath) || pathname == RootPath
  }

  /** `middleware(req)` with the session lookup's outcome passed in as `hasSession`. */
  function Guard(hasSession: bool, pathname: string): (r: Response)
    ensures r == RedirectTo(LoginPath) <==> !hasSession && !IsAuthRoute(pathname)
    ensures r == RedirectTo(DashboardPath) <==> hasSession && IsAuthRoute(pathname) && pathname != RootPath
    ensures r == PassThrough <==>
      (hasSession && (!IsAuthRoute(pathname) || pathname == RootPath)) || (!hasSession && IsAuthRoute(pathname))
  {
    if !hasSession && !IsAuthRoute(pathname) then RedirectTo(LoginPath)
    else if hasSession && IsAuthRoute(pathname) && pathname != RootPath then RedirectTo(DashboardPath)
    else PassThrough
  }

  /** The landing page `/` is never redirected, with or without a session. */
  lemma RootNeverRedirected(hasSession: bool)
    ensures Guard(hasSession, RootPath) == PassThrough
  {
  }

  /** At most one redirect: a request without a session never goes to the dashboard, one with a session never to the login page. */
  lemma RedirectsExclusive(hasSession: bool, pathname: string)
    ensures Guard(hasSession, pathname).RedirectTo? ==>
      Guard(hasSession, pathname).path == (if hasSession then DashboardPath else LoginPath)
  {
  }

  /** Following a redirect with the same session state is let through: the guard never sends a browser round in a loop. */
  lemma RedirectTargetPasses(hasSession: bool, pathname: string)
    requires Guard(hasSession, pathname).RedirectTo?
    ensures Guard(hasSession, Guard(hasSession, pathname).path) == PassThrough
  {
    assert StartsWith(LoginPath, LoginPath);
    assert DashboardPath[1] == 'd' && LoginPath[1] == 'l' && SignupPath[1] == 's';
    assert DashboardPath[..|LoginPath|] != LoginPath && DashboardPath[..|SignupPath|] != SignupPath;
  }
}
