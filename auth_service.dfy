/**
 * The auth service: the registered accounts and the session pointer, each in its own
 * storage slot. Passwords are compared through an encoding function that the model
 * keeps abstract; fresh ids and the clock are parameters.
 */
module AuthService {
  import opened Common
  import opened Seqs
  import opened Text
  import opened Records

  const EmailTaken := "Email already registered"
  const BadCredentials := "Invalid email or password"

  /** The e-mail comparison of `register` and `login`: equal once lower-cased. */
  function SameEmail(email: string): User -> bool {
    (u: User) => Lower(u.email) == Lower(email)
  }

  /** The index of the first account whose e-mail matches `email` case-insensitively, or -1. */
  function FindByEmail(users: seq<User>, email: string): (r: int)
    ensures -1 <= r < |users|
    ensures r == -1 <==> forall u :: u in users ==> Lower(u.email) != Lower(email)
    ensures r != -1 ==> Lower(users[r].email) == Lower(email)
    ensures r != -1 ==> forall i :: 0 <= i < r ==> Lower(users[i].email) != Lower(email)
  {
    FindIndex(users, SameEmail(email))
  }

  function HasId(id: string): User -> bool {
    (u: User) => u.id == id
  }

  predicate EmailsDistinct(users: seq<User>) {
    forall i, j :: 0 <= i < j < |users| ==> Lower(users[i].email) != Lower(users[j].email)
  }

  predicate IdsDistinct(users: seq<User>) {
    forall i, j :: 0 <= i < j < |users| ==> users[i].id != users[j].id
  }

  /** What the stored accounts keep: no two e-mails equal up to case, unique non-empty ids. */
  predicate Consistent(users: seq<User>) {
    && EmailsDistinct(users)
    && IdsDistinct(users)
    && forall u :: u in users ==> u.id != ""
  }

  /** `getCurrentUser`: the first account whose id is the session pointer; none without a session. */
  function CurrentUser(users: seq<User>, session: Option<string>): (r: Option<User>)
    ensures session.None? || session.value == "" ==> r.None?
    ensures r.Some? ==> r.value in users && session == Some(r.value.id)
    ensures r.None? && session.Some? && session.value != "" ==> forall u :: u in users ==> u.id != session.value
    ensures r.Some? ==> r.value == users[FindIndex(users, HasId(r.value.id))]
  {
    if session.None? || session.value == "" then None
    else Find(users, HasId(session.value))
  }

  /** The credential check of `login`: the first account with this e-mail, if its hash matches. */
  function Authenticate(users: seq<User>, email: string, passwordHash: string): (r: Result<User>)
    ensures r.Ok? ==> r.value in users && Lower(r.value.email) == Lower(email)
    ensures r.Ok? ==> r.value.passwordHash == passwordHash
    ensures r.Err? ==> r.error == BadCredentials
    ensures r.Ok? ==> r.value == users[FindByEmail(users, email)]
    ensures FindByEmail(users, email) != -1 && users[FindByEmail(users, email)].passwordHash == passwordHash ==> r.Ok?
  {
    var k := FindByEmail(users, email);
    if k == -1 || users[k].passwordHash != passwordHash then Err(BadCredentials)
    else Ok(users[k])
  }

  /** With distinct e-mails, `login` succeeds exactly when some account matches both e-mail and hash. */
  lemma LoginSucceedsIffCredentialsMatch(users: seq<User>, email: string, passwordHash: string)
    requires EmailsDistinct(users)
    ensures Authenticate(users, email, passwordHash).Ok? <==>
      exists u :: u in users && Lower(u.email) == Lower(email) && u.passwordHash == passwordHash
  {
    if exists u :: u in users && Lower(u.email) == Lower(email) && u.passwordHash == passwordHash {
      var u :| u in users && Lower(u.email) == Lower(email) && u.passwordHash == passwordHash;
      var j :| 0 <= j < |users| && users[j] == u;
      var k := FindByEmail(users, email);
      assert SameEmail(email)(users[j]);
      assert k != -1;
      assert SameEmail(email)(users[k]);
      assert k == j;
    }
  }

  /** With unique ids, a session pointing at an account resolves to that account. */
  lemma SessionResolvesToAccount(users: seq<User>, u: User)
    requires IdsDistinct(users) && u in users && u.id != ""
    ensures CurrentUser(users, Some(u.id)) == Some(u)
  {
    var j :| 0 <= j < |users| && users[j] == u;
    var k := FindIndex(users, HasId(u.id));
    assert HasId(u.id)(users[j]);
    assert k != -1 && HasId(u.id)(users[k]);
    assert k == j;
  }

  /** The account `register` creates: the e-mail is stored as given, not lower-cased, and only the hash of the password is kept. */
  function NewUser(id: string, email: string, displayName: string, passwordHash: string, now: int): (u: User)
    ensures u.id == id && u.email == email && u.displayName == displayName
    ensures u.passwordHash == passwordHash && u.createdAt == now
  {
    User(id, email, displayName, passwordHash, now)
  }

  /** Admitting an account whose e-mail is unused and whose id is fresh keeps the accounts consistent. */
  lemma {:induction false} AdmitKeepsConsistent(users: seq<User>, u: User)
    requires Consistent(users)
    requires FindByEmail(users, u.email) == -1
    requires u.id != "" && forall v :: v in users ==> v.id != u.id
    ensures Consistent(users + [u])
  {
    var s := users + [u];
    forall i, j | 0 <= i < j < |s| ensures Lower(s[i].email) != Lower(s[j].email) && s[i].id != s[j].id {
      if j == |users| {
        assert !SameEmail(u.email)(users[i]);
        assert s[i] in users;
      }
    }
  }

  /** After registering, logging in with the same password (and the e-mail in any case) succeeds. */
  lemma LoginAfterRegister(users: seq<User>, u: User, email: string)
    requires FindByEmail(users, u.email) == -1
    requires Lower(email) == Lower(u.email)
    ensures Authenticate(users + [u], email, u.passwordHash) == Ok(u)
  {
    var s := users + [u];
    var k := FindByEmail(s, email);
    assert SameEmail(email)(s[|users|]);
    assert k != -1;
    assert forall i :: 0 <= i < |users| ==> s[i] == users[i];
  }

  /** Once an account is registered, registering its e-mail again, in any case, is refused. */
  lemma RegisterTwiceRefused(users: seq<User>, u: User, email: string)
    requires Lower(email) == Lower(u.email)
    ensures FindByEmail(users + [u], email) != -1
  {
    assert SameEmail(email)((users + [u])[|users|]);
  }

  /** The two storage slots of the auth service. */
  class AuthDb {
    var users: seq<User>
    var session: Option<string>
    /** The password encoding (`hashPassword`); a function, hence deterministic. */
    const hash: string -> string

    ghost predicate Valid()
      reads this
    {
      Consistent(users)
    }

    /** The slots as found in storage (absent ones as the empty list and no session). */
    constructor(stored: seq<User>, session: Option<string>, hash: string -> string)
      ensures users == stored && this.session == session && this.hash == hash
    {
      this.users := stored;
      this.session := session;
      this.hash := hash;
    }

    /**
     * `register`: refuses an e-mail already taken up to case; otherwise appends the account
     * and points the session at it. `id` stands for `crypto.randomUUID()`, hence fresh.
     */
    method Register(email: string, password: string, displayName: string, id: string, now: int)
      returns (r: Result<User>)
      requires id != "" && forall u :: u in users ==> u.id != id
      modifies this`users, this`session
      ensures FindByEmail(old(users), email) != -1 ==>
        r == Err(EmailTaken) && users == old(users) && session == old(session)
      ensures FindByEmail(old(users), email) == -1 ==>
        && r == Ok(NewUser(id, email, displayName, hash(password), now))
        && users == old(users) + [r.value]
        && session == Some(id)
      ensures r.Ok? ==> CurrentUser(users, session) == Some(r.value)
      ensures old(Valid()) ==> Valid()
    {
      if FindByEmail(users, email) != -1 {
        return Err(EmailTaken);
      }
      var user := NewUser(id, email, displayName, hash(password), now);
      if Valid() {
        AdmitKeepsConsistent(users, user);
      }
      users := users + [user];
      session := Some(user.id);
      FreshIdIsCurrent(users, user);
      r := Ok(user);
    }

    /** `login`: on matching credentials points the session at the account; otherwise leaves it. */
    method Login(email: string, password: string) returns (r: Result<User>)
      modifies this`session
      ensures r == Authenticate(users, email, hash(password))
      ensures session == if r.Ok? then Some(r.value.id) else old(session)
      ensures r.Ok? && Valid() ==> CurrentUser(users, session) == Some(r.value)
    {
      r := Authenticate(users, email, hash(password));
      if r.Ok? {
        session := Some(r.value.id);
        if Valid() {
          SessionResolvesToAccount(users, r.value);
        }
      }
    }

    /** `logout`: removes the session pointer; afterwards nobody is signed in. */
    method Logout()
      modifies this`session
      ensures session == None
      ensures CurrentUser(users, session) == None
    {
      session := None;
    }
  }

  /** The account appended last with an id no earlier account has is the one the session finds. */
  lemma FreshIdIsCurrent(users: seq<User>, u: User)
    requires |users| > 0 && users[|users| - 1] == u && u.id != ""
    requires forall i :: 0 <= i < |users| - 1 ==> users[i].id != u.id
    ensures CurrentUser(users, Some(u.id)) == Some(u)
  {
    var k := FindIndex(users, HasId(u.id));
    assert HasId(u.id)(users[|users| - 1]);
    assert k == |users| - 1;
  }
}
