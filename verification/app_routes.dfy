/** The client's route table and its guard (frontend/src/App.jsx), rendered inside the
    session provider of frontend/src/context/AuthContext.jsx. */
module AppRoutes {
  import opened Wrappers
  import Text
  import AuthContext

  datatype Page = LoginScreen | SignupScreen | DashboardScreen | WorkoutsScreen

  /** What a route's element is: a page, a page behind `ProtectedRoute`, or a
      `<Navigate>` to another path. */
  datatype Element = Open(page: Page) | Guarded(page: Page) | Redirect(to: string)

  /** `path` without the slashes at its end. */
  function StripSlashes(path: string): (r: string)
    ensures |r| <= |path| && r == path[..|r|]
    ensures r == [] || r[|r| - 1] != '/'
    ensures forall i :: |r| <= i < |path| ==> path[i] == '/'
    decreases |path|
  {
    if path != [] && path[|path| - 1] == '/' then StripSlashes(path[..|path| - 1]) else path
  }

  /** What a route pattern is compared with: React Router matches without regard to
      ASCII case and accepts any number of slashes at the end, so "/Dashboard/" is
      "/dashboard". The root pattern "/" compares as the empty key. */
  function Key(path: string): string {
    Text.Lower(StripSlashes(path))
  }

  /** A path matched by the pattern `pattern` (written without a trailing slash;
      "" for the root): the path is the pattern in any ASCII case followed by
      slashes, at least one of them for the root. */
  predicate Matches(path: string, pattern: string) {
    Key(path) == pattern && (pattern != "" || path != "")
  }

  /** The `<Routes>` table; a path it does not list matches nothing. */
  function Route(path: string): (r: Option<Element>)
    ensures r == Some(Guarded(DashboardScreen)) <==> Matches(path, "/dashboard")
    ensures r == Some(Guarded(WorkoutsScreen)) <==> Matches(path, "/workouts")
    ensures r.Some? && r.value.Open? <==> Matches(path, "/login") || Matches(path, "/signup")
    ensures r.Some? && r.value.Redirect? <==> Matches(path, "")
    ensures r.None? <==> !exists p :: p in {"/login", "/signup", "/dashboard", "/workouts", ""} && Matches(path, p)
  {
    if Matches(path, "/login") then Some(Open(LoginScreen))
    else if Matches(path, "/signup") then Some(Open(SignupScreen))
    else if Matches(path, "/dashboard") then Some(Guarded(DashboardScreen))
    else if Matches(path, "/workouts") then Some(Guarded(WorkoutsScreen))
    else if Matches(path, "") then Some(Redirect("/dashboard"))
    else None
  }

  /** Dropping slashes from the end stops exactly at a cut point `n` followed only by
      slashes and not preceded by one. */
  lemma {:induction false} StripSlashesAt(path: string, n: nat)
    requires n <= |path|
    requires forall i :: n <= i < |path| ==> path[i] == '/'
    requires n == 0 || path[n - 1] != '/'
    ensures StripSlashes(path) == path[..n]
    decreases |path|
  {
    if |path| > n {
      var front := path[..|path| - 1];
      assert front[..n] == path[..n];
      StripSlashesAt(front, n);
    } else {
      assert path[..n] == path;
    }
  }

  /** The matcher React Router builds for a pattern: a case-insensitive regular
      expression that accepts the pattern followed by any run of slashes, with at
      least one slash for the root. A path matches exactly when some prefix of it
      equals the pattern up to ASCII case and the rest is slashes. */
  lemma MatchesIffPatternThenSlashes(path: string, pattern: string)
    requires pattern == [] || pattern[|pattern| - 1] != '/'
    ensures Matches(path, pattern) <==>
      exists n :: 0 <= n <= |path| && Text.Lower(path[..n]) == pattern
                  && (forall i :: n <= i < |path| ==> path[i] == '/')
                  && (pattern != "" || n < |path|)
  {
    var r := StripSlashes(path);
    if Matches(path, pattern) {
      assert r == path[..|r|];
      assert Text.Lower(path[..|r|]) == pattern;
    }
    if exists n :: 0 <= n <= |path| && Text.Lower(path[..n]) == pattern
                  && (forall i :: n <= i < |path| ==> path[i] == '/')
                  && (pattern != "" || n < |path|) {
      var n :| 0 <= n <= |path| && Text.Lower(path[..n]) == pattern
               && (forall i :: n <= i < |path| ==> path[i] == '/')
               && (pattern != "" || n < |path|);
      if n > 0 {
        assert Text.Lower(path[..n])[n - 1] == Text.LowerChar(path[n - 1]);
      }
      StripSlashesAt(path, n);
    }
  }

  /** Case and trailing slashes do not change where a path leads; other extensions do. */
  lemma RouteIgnoresCaseAndTrailingSlashes(path: string)
    ensures path != "" ==> Route(path + "/") == Route(path)
    ensures Route("/Dashboard/") == Some(Guarded(DashboardScreen))
    ensures Route("/WORKOUTS//") == Some(Guarded(WorkoutsScreen))
    ensures Route("//") == Some(Redirect("/dashboard"))
    ensures Route("") == None && Route("/dashboards") == None
  {
    if path != "" {
      var p := path + "/";
      assert p[..|p| - 1] == path;
    }
    StripSlashesAt("/Dashboard/", 10);
    StripSlashesAt("/WORKOUTS//", 9);
    StripSlashesAt("//", 0);
    StripSlashesAt("/dashboards", 11);
  }

  /** What ends up on screen. */
  datatype View = Nothing | LoadingView | Show(page: Page) | Navigate(to: string)

  /** `ProtectedRoute`: the loading view while start-up runs, a redirect to "/login"
      when nobody is signed in, else the guarded page. */
  function ProtectedRoute(s: AuthContext.Session, page: Page): (v: View)
    ensures v == LoadingView <==> s.loading
    ensures v == Navigate("/login") <==> !s.loading && s.user.None?
    ensures v == Show(page) <==> !s.loading && s.user.Some?
  {
    if s.loading then LoadingView
    else if s.user.None? then Navigate("/login")
    else Show(page)
  }

  /** The view for a path: nothing at all while the provider withholds its children,
      nothing for an unknown path, else the matched element. */
  function Render(s: AuthContext.Session, path: string): (v: View)
    ensures !AuthContext.ShowsChildren(s) ==> v == Nothing
    ensures Route(path).None? ==> v == Nothing
    ensures Route(path).Some? && Route(path).value.Guarded? && AuthContext.ShowsChildren(s) ==>
      v == ProtectedRoute(s, Route(path).value.page)
  {
    if !AuthContext.ShowsChildren(s) then Nothing
    else
      match Route(path)
      case None => Nothing
      case Some(Open(p)) => Show(p)
      case Some(Guarded(p)) => ProtectedRoute(s, p)
      case Some(Redirect(to)) => Navigate(to)
  }

  /** `ProtectedRoute`'s loading view never appears: the provider renders no route
      while start-up runs, and start-up is over whenever a route renders. */
  lemma LoadingViewUnreachable(s: AuthContext.Session, path: string)
    ensures Render(s, path) != LoadingView
  {
  }

  /** From mounting the provider to the end of start-up: nothing is on screen before,
      and afterwards a guarded path shows its page or the login redirect, never the
      loading view. */
  lemma StartUpThenGuard(storage: AuthContext.Storage, check: Option<AuthContext.Profile>, path: string)
    requires path == "/dashboard" || path == "/workouts"
    ensures Render(AuthContext.Mounted(storage), path) == Nothing
    ensures var v := Render(AuthContext.Initialize(AuthContext.Mounted(storage), check), path);
      v.Show? || v == Navigate("/login")
  {
  }

  /** Once start-up is over, the guarded pages show exactly when someone is signed in
      and otherwise send the visitor to "/login"; the open pages show regardless. */
  lemma GuardedPaths(s: AuthContext.Session)
    requires !s.loading
    ensures s.user.Some? ==> Render(s, "/dashboard") == Show(DashboardScreen) && Render(s, "/workouts") == Show(WorkoutsScreen)
    ensures s.user.None? ==> Render(s, "/dashboard") == Navigate("/login") && Render(s, "/workouts") == Navigate("/login")
    ensures Render(s, "/login") == Show(LoginScreen) && Render(s, "/signup") == Show(SignupScreen)
  {
  }

  /** Follows redirects, at most `hops` of them. */
  function Resolve(s: AuthContext.Session, path: string, hops: nat): View
    decreases hops
  {
    match Render(s, path)
    case Navigate(to) => if hops == 0 then Navigate(to) else Resolve(s, to, hops - 1)
    case v => v
  }

  /** "/" leads to the dashboard for a signed-in user and, through the dashboard's
      guard, to the login page for everyone else. */
  lemma RootLandsOnDashboardOrLogin(s: AuthContext.Session)
    requires !s.loading
    ensures Render(s, "/") == Navigate("/dashboard")
    ensures s.user.Some? ==> Resolve(s, "/", 2) == Show(DashboardScreen)
    ensures s.user.None? ==> Resolve(s, "/", 2) == Show(LoginScreen)
  {
    GuardedPaths(s);
  }
}
