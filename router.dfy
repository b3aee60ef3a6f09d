/**
 * The route table and the navigation guard: public pages (sign-in, registration) are for
 * signed-out visitors, the notes page is for signed-in users, everything else redirects.
 */
module Router {
  import opened Common
  import opened AuthStore
  import AuthService

  datatype RouteName = LoginPage | RegisterPage | AppPage

  /** The `meta` of a route record; an absent flag is `false`. */
  datatype Meta = Meta(public: bool, requiresAuth: bool)

  /** A route-table entry: a redirect to a path, or a named page with its meta. */
  datatype Entry = Redirect(target: string) | Page(name: RouteName, meta: Meta)

  /** The location being navigated to. */
  datatype Location = Location(meta: Meta, fullPath: string)

  /** What the guard answers: let the navigation through, or go to a named route with an optional `redirect` query. */
  datatype Decision = Proceed | RedirectTo(route: RouteName, redirectQuery: Option<string>)

  const Root := "/"
  const LoginPath := "/login"
  const RegisterPath := "/register"
  const AppPath := "/app"

  /** The route table: `/` and every path not listed send the visitor to `/app`. */
  function Resolve(path: string): (e: Entry)
    ensures path == LoginPath ==> e == Page(LoginPage, Meta(true, false))
    ensures path == RegisterPath ==> e == Page(RegisterPage, Meta(true, false))
    ensures path == AppPath ==> e == Page(AppPage, Meta(false, true))
    ensures path !in {LoginPath, RegisterPath, AppPath} ==> e == Redirect(AppPath)
  {
    if path == LoginPath then Page(LoginPage, Meta(true, false))
    else if path == RegisterPath then Page(RegisterPage, Meta(true, false))
    else if path == AppPath then Page(AppPage, Meta(false, true))
    else Redirect(AppPath)
  }

  /**
   * The decision of the `beforeEach` guard, once the auth store is initialised. The public
   * check comes first, so a route marked both public and requiring auth is public.
   */
  function Guard(to: Location, signedIn: bool): (d: Decision)
    ensures to.meta.public ==> (d == RedirectTo(AppPage, None) <==> signedIn)
    ensures to.meta.public && !signedIn ==> d == Proceed
    ensures d == RedirectTo(LoginPage, Some(to.fullPath)) <==> !to.meta.public && to.meta.requiresAuth && !signedIn
    ensures !to.meta.public && !(to.meta.requiresAuth && !signedIn) ==> d == Proceed
  {
    if to.meta.public then
      if signedIn then RedirectTo(AppPage, None) else Proceed
    else if to.meta.requiresAuth && !signedIn then RedirectTo(LoginPage, Some(to.fullPath))
    else Proceed
  }

  /** A navigation to `path`: the table's redirect is followed, then the guard decides on the page reached. */
  function Navigate(path: string, signedIn: bool): (d: Decision)
    ensures d == Proceed <==> (signedIn <==> path !in {LoginPath, RegisterPath})
    ensures d.RedirectTo? ==> d.route == if signedIn then AppPage else LoginPage
    ensures Resolve(path).Redirect? && !signedIn ==> d == RedirectTo(LoginPage, Some(AppPath))
  {
    match Resolve(path)
    case Redirect(target) =>
      var e := Resolve(target);
      Guard(Location(e.meta, target), signedIn)
    case Page(_, meta) =>
      Guard(Location(meta, path), signedIn)
  }

  /**
   * `router.beforeEach`: initialises the auth store from storage when it is not yet
   * initialised, then decides by the route's meta and the signed-in account.
   */
  method BeforeEach(auth: AuthState, to: Location) returns (d: Decision)
    modifies auth`user, auth`loading, auth`initialized
    ensures !old(auth.initialized) ==> auth.initialized && auth.user == AuthService.CurrentUser(auth.svc.users, auth.svc.session)
    ensures !old(auth.initialized) ==> !auth.loading && auth.error == old(auth.error)
    ensures old(auth.initialized) ==> unchanged(auth)
    ensures d == Guard(to, auth.user.Some?)
  {
    if !auth.initialized {
      auth.InitFromStorage();
    }
    d := Guard(to, auth.user.Some?);
  }
}
