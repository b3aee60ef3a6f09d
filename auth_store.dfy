/**
 * The auth store: the signed-in account as the views see it, with the busy flag, the
 * initialised flag and the last error message. Each action is one atomic step over the
 * store and the auth service it delegates to.
 */
module AuthStore {
  import opened Common
  import opened Records
  import opened AuthService

  class AuthState {
    var user: Option<User>
    var loading: bool
    var initialized: bool
    var error: Option<string>
    /** The storage the auth service reads and writes. */
    const svc: AuthDb

    /** The initial state: nobody signed in, not loading, not initialised, an empty error. */
    constructor(svc: AuthDb)
      ensures user == None && !loading && !initialized && error == Some("")
      ensures this.svc == svc
    {
      this.svc := svc;
      user := None;
      loading := false;
      initialized := false;
      error := Some("");
    }

    /**
     * `initFromStorage`: takes the signed-in account from the session; always ends
     * initialised and not loading. It does not look at `initialized` itself.
     */
    method InitFromStorage()
      modifies this`user, this`loading, this`initialized
      ensures user == CurrentUser(svc.users, svc.session)
      ensures initialized && !loading
      ensures error == old(error)
    {
      loading := true;
      var u := CurrentUser(svc.users, svc.session);
      user := u;
      initialized := true;
      loading := false;
    }

    /**
     * `login`: clears the error, then either takes the account the service returns or
     * records the service's message, keeps the old user and re-raises the failure.
     */
    method Login(email: string, password: string) returns (r: Result<User>)
      modifies this`user, this`loading, this`error, svc`session
      ensures r == Authenticate(svc.users, email, svc.hash(password))
      ensures svc.session == if r.Ok? then Some(r.value.id) else old(svc.session)
      ensures user == if r.Ok? then Some(r.value) else old(user)
      ensures error == if r.Ok? then None else Some(BadCredentials)
      ensures r.Ok? && svc.Valid() ==> CurrentUser(svc.users, svc.session) == user
      ensures !loading && initialized == old(initialized)
    {
      loading := true;
      error := None;
      r := svc.Login(email, password);
      if r.Ok? {
        user := Some(r.value);
      } else {
        error := Some(r.error);
      }
      loading := false;
    }

    /**
     * `register`: clears the error, then either takes the new account or records the
     * service's message, keeps the old user and re-raises the failure.
     */
    method Register(email: string, password: string, displayName: string, id: string, now: int)
      returns (r: Result<User>)
      requires id != "" && forall u :: u in svc.users ==> u.id != id
      modifies this`user, this`loading, this`error, svc`users, svc`session
      ensures FindByEmail(old(svc.users), email) != -1 ==>
        && r == Err(EmailTaken) && user == old(user) && error == Some(EmailTaken)
        && svc.users == old(svc.users) && svc.session == old(svc.session)
      ensures FindByEmail(old(svc.users), email) == -1 ==>
        && r == Ok(NewUser(id, email, displayName, svc.hash(password), now))
        && user == Some(r.value) && error == None
        && svc.users == old(svc.users) + [r.value] && svc.session == Some(id)
      ensures user.Some? && r.Ok? ==> CurrentUser(svc.users, svc.session) == user
      ensures !loading && initialized == old(initialized)
      ensures old(svc.Valid()) ==> svc.Valid()
    {
      loading := true;
      error := None;
      r := svc.Register(email, password, displayName, id, now);
      if r.Ok? {
        user := Some(r.value);
      } else {
        error := Some(r.error);
      }
      loading := false;
    }

    /** `logout`: clears the session and the user; the flags and the error stay as they were. */
    method Logout()
      modifies this`user, svc`session
      ensures user == None && svc.session == None
      ensures CurrentUser(svc.users, svc.session) == None
    {
      svc.Logout();
      user := None;
    }
  }
}
