/**
 * The user and session store: a list of accounts and the current session, both
 * kept in the persistent medium. Lookups and logins read the stored list;
 * registration appends to it; signing in overwrites the session.
 */
module Auth {
  import opened Wrappers
  import opened Seqs
  import opened Text

  /** A stored account; `email` and `username` are null for accounts made without them. */
  datatype User = User(
    id: int,
    name: string,
    email: Option<string>,
    username: Option<string>,
    password: string,
    role: string,
    gmailVerified: bool,
    createdAt: string)

  /** The argument object of `createUser`. */
  datatype SignupForm = SignupForm(
    name: Option<string>,
    email: Option<string>,
    password: string,
    username: Option<string>,
    gmailVerified: bool)

  /** A success carrying the account, or a failure carrying its message. */
  datatype Reply = Ok(user: User) | Err(error: string)

  /** A reply together with the account list it leaves behind. */
  datatype Outcome = Outcome(reply: Reply, users: seq<User>)

  /** The reduced user a session carries: no username, no password. */
  datatype SessionUser = SessionUser(id: int, name: string, email: Option<string>, role: string)

  /** The stored session entry. */
  datatype Session = Session(isAuthenticated: bool, user: SessionUser, loginTime: string)

  /** The account's email, or "" when it has none, equals `email` ignoring letter case. */
  function ByEmail(email: string): User -> bool {
    (u: User) => Lower(OrEmpty(u.email)) == Lower(email)
  }

  /** The account's username, or "" when it has none, equals `username` ignoring letter case. */
  function ByUsername(username: string): User -> bool {
    (u: User) => Lower(OrEmpty(u.username)) == Lower(username)
  }

  /** Index `i` holds the first account that `p` accepts. */
  predicate FirstMatch(users: seq<User>, p: User -> bool, i: int) {
    0 <= i < |users| && p(users[i]) && forall j :: 0 <= j < i ==> !p(users[j])
  }

  /** `findUserByEmail`: the first account whose email equals `email` ignoring case, if any. */
  function FindUserByEmail(users: seq<User>, email: string): (r: Option<User>)
    ensures r.None? <==> forall u :: u in users ==> !ByEmail(email)(u)
    ensures r.Some? ==> exists i :: FirstMatch(users, ByEmail(email), i) && users[i] == r.value
  {
    var i := FindIndex(users, ByEmail(email));
    if i < 0 then None else Some(users[i])
  }

  /** `findUserByUsername`: the first account whose username equals `username` ignoring case, if any. */
  function FindUserByUsername(users: seq<User>, username: string): (r: Option<User>)
    ensures r.None? <==> forall u :: u in users ==> !ByUsername(username)(u)
    ensures r.Some? ==> exists i :: FirstMatch(users, ByUsername(username), i) && users[i] == r.value
  {
    var i := FindIndex(users, ByUsername(username));
    if i < 0 then None else Some(users[i])
  }

  /**
   * The shared body of both logins over the account that `p` finds first:
   * "User not found" when there is none, "Invalid password" when its password
   * differs, otherwise that account.
   */
  function Login(users: seq<User>, p: User -> bool, password: string): (r: Reply)
    ensures r == Err("User not found") <==> forall u :: u in users ==> !p(u)
    ensures r == Err("Invalid password") <==> exists i :: FirstMatch(users, p, i) && users[i].password != password
    ensures r.Ok? <==> exists i :: FirstMatch(users, p, i) && users[i].password == password
    ensures r.Ok? ==> exists i :: FirstMatch(users, p, i) && users[i] == r.user
  {
    var i := FindIndex(users, p);
    if i < 0 then
      Err("User not found")
    else
      assert FirstMatch(users, p, i);
      assert forall j :: FirstMatch(users, p, j) ==> j == i;
      if users[i].password != password then Err("Invalid password") else Ok(users[i])
  }

  /** `validateLogin`: "User not found" before "Invalid password"; success returns the first match. */
  function ValidateLogin(users: seq<User>, email: string, password: string): (r: Reply)
    ensures r == Err("User not found") <==> forall u :: u in users ==> !ByEmail(email)(u)
    ensures r == Err("Invalid password") <==>
      exists i :: FirstMatch(users, ByEmail(email), i) && users[i].password != password
    ensures r.Ok? <==> exists i :: FirstMatch(users, ByEmail(email), i) && users[i].password == password
    ensures r.Ok? ==> exists i :: FirstMatch(users, ByEmail(email), i) && users[i] == r.user
  {
    Login(users, ByEmail(email), password)
  }

  /**
   * `validateLoginByUsername` as written: an account without a username
   * compares as "", so the empty username finds it.
   */
  function ValidateLoginByUsername(users: seq<User>, username: string, password: string): (r: Reply)
    ensures r == Err("User not found") <==> forall u :: u in users ==> !ByUsername(username)(u)
    ensures r == Err("Invalid password") <==>
      exists i :: FirstMatch(users, ByUsername(username), i) && users[i].password != password
    ensures r.Ok? <==> exists i :: FirstMatch(users, ByUsername(username), i) && users[i].password == password
    ensures r.Ok? ==> exists i :: FirstMatch(users, ByUsername(username), i) && users[i] == r.user
  {
    Login(users, ByUsername(username), password)
  }

  /** Login by username, corrected: the empty username names no account. */
  function ValidateLoginByUsernameStrict(users: seq<User>, username: string, password: string): (r: Reply)
    ensures r.Ok? ==> r.user in users && r.user.password == password
    ensures r.Ok? ==> Truthy(r.user.username) && Lower(r.user.username.value) == Lower(username)
    ensures username == "" ==> r == Err("User not found")
  {
    if username == "" then Err("User not found")
    else
      var r := ValidateLoginByUsername(users, username, password);
      assert r.Ok? ==> |Lower(OrEmpty(r.user.username))| == |Lower(username)| > 0;
      r
  }

  /** For every non-empty username the corrected login and the code as written agree. */
  lemma StrictLoginAgrees(users: seq<User>, username: string, password: string)
    requires username != ""
    ensures ValidateLoginByUsernameStrict(users, username, password) ==
            ValidateLoginByUsername(users, username, password)
  {
  }

  /** The record `createUser` builds: falsy name becomes "User", falsy email and username become null. */
  function NewUser(form: SignupForm, id: int, now: string): (u: User)
    ensures u.id == id && u.role == "owner" && u.createdAt == now
    ensures u.password == form.password && u.gmailVerified == form.gmailVerified
    ensures u.name == if Truthy(form.name) then form.name.value else "User"
    ensures u.email.Some? <==> Truthy(form.email)
    ensures u.email.Some? ==> u.email == form.email && u.email.value != ""
    ensures u.username.Some? <==> Truthy(form.username)
    ensures u.username.Some? ==> u.username == form.username && u.username.value != ""
  {
    User(id, if Truthy(form.name) then form.name.value else "User",
         if Truthy(form.email) then form.email else None,
         if Truthy(form.username) then form.username else None,
         form.password, "owner", form.gmailVerified, now)
  }

  /** `existsEmail`: the email is truthy and some account already has it, ignoring case. */
  predicate EmailTaken(users: seq<User>, email: Option<string>) {
    Truthy(email) && exists u :: u in users && ByEmail(email.value)(u)
  }

  /** `existsUsername`: the username is truthy and some account already has it, ignoring case. */
  predicate UsernameTaken(users: seq<User>, username: Option<string>) {
    Truthy(username) && exists u :: u in users && ByUsername(username.value)(u)
  }

  /** Two accounts share a non-null email, or a non-null username, ignoring case. */
  predicate Clash(a: User, b: User) {
    (a.email.Some? && b.email.Some? && Lower(a.email.value) == Lower(b.email.value)) ||
    (a.username.Some? && b.username.Some? && Lower(a.username.value) == Lower(b.username.value))
  }

  /** The account invariant registration keeps: no two accounts clash. */
  predicate UniqueAccounts(users: seq<User>) {
    forall i, j :: 0 <= i < j < |users| ==> !Clash(users[i], users[j])
  }

  /** An account that clashes with no earlier one can be appended without breaking the invariant. */
  lemma AppendKeepsUniqueAccounts(users: seq<User>, u: User)
    requires forall v :: v in users ==> !Clash(v, u)
    ensures UniqueAccounts(users) ==> UniqueAccounts(users + [u])
  {
    var s := users + [u];
    if UniqueAccounts(users) {
      forall i, j | 0 <= i < j < |s|
        ensures !Clash(s[i], s[j])
      {
        if j == |users| {
          assert s[i] in users;
        }
      }
    }
  }

  /** A new account whose email and username are free clashes with no stored account. */
  lemma FreshAccountClashesWithNone(users: seq<User>, form: SignupForm, id: int, now: string)
    requires !EmailTaken(users, form.email) && !UsernameTaken(users, form.username)
    ensures forall v :: v in users ==> !Clash(v, NewUser(form, id, now))
  {
    var u := NewUser(form, id, now);
    forall v | v in users
      ensures !Clash(v, u)
    {
      if v.email.Some? && u.email.Some? {
        assert !ByEmail(u.email.value)(v);
      }
      if v.username.Some? && u.username.Some? {
        assert !ByUsername(u.username.value)(v);
      }
    }
  }

  /**
   * `createUser`: "Email already registered" before "Username already taken",
   * neither changing the list; otherwise the new account is appended and returned.
   */
  function Register(users: seq<User>, form: SignupForm, id: int, now: string): (o: Outcome)
    ensures o.reply == Err("Email already registered") <==> EmailTaken(users, form.email)
    ensures o.reply == Err("Username already taken") <==>
      !EmailTaken(users, form.email) && UsernameTaken(users, form.username)
    ensures o.reply.Ok? <==> !EmailTaken(users, form.email) && !UsernameTaken(users, form.username)
    ensures o.reply.Err? ==> o.users == users
    ensures o.reply.Ok? ==> o.reply.user == NewUser(form, id, now) && o.users == users + [o.reply.user]
    ensures UniqueAccounts(users) ==> UniqueAccounts(o.users)
  {
    if EmailTaken(users, form.email) then Outcome(Err("Email already registered"), users)
    else if UsernameTaken(users, form.username) then Outcome(Err("Username already taken"), users)
    else
      var u := NewUser(form, id, now);
      FreshAccountClashesWithNone(users, form, id, now);
      AppendKeepsUniqueAccounts(users, u);
      Outcome(Ok(u), users + [u])
  }

  /**
   * `createUserWithGmail`: without a Gmail address nothing changes; with one it
   * registers exactly as `createUser` does, with that email marked verified.
   */
  function RegisterWithGmail(users: seq<User>, gmail: Option<string>, name: Option<string>,
                             username: Option<string>, password: string, id: int, now: string): (o: Outcome)
    ensures !Truthy(gmail) ==> o == Outcome(Err("Gmail verification required"), users)
    ensures Truthy(gmail) ==> o == Register(users, SignupForm(name, gmail, password, username, true), id, now)
    ensures o.reply.Ok? ==> o.reply.user.email == gmail && o.reply.user.gmailVerified
    ensures UniqueAccounts(users) ==> UniqueAccounts(o.users)
  {
    if !Truthy(gmail) then Outcome(Err("Gmail verification required"), users)
    else Register(users, SignupForm(name, gmail, password, username, true), id, now)
  }

  /** After registering with an email, logging in with that email and password returns the new account. */
  lemma {:induction false} RegisterThenLogin(users: seq<User>, form: SignupForm, id: int, now: string)
    requires Register(users, form, id, now).reply.Ok? && Truthy(form.email)
    ensures ValidateLogin(Register(users, form, id, now).users, form.email.value, form.password) ==
            Register(users, form, id, now).reply
  {
    var o := Register(users, form, id, now);
    var p := ByEmail(form.email.value);
    forall j | 0 <= j < |users|
      ensures !p(o.users[j])
    {
      assert o.users[j] == users[j];
      assert users[j] in users;
    }
    assert FirstMatch(o.users, p, |users|);
  }

  /** After registering with a username, logging in by that username and password returns the new account. */
  lemma {:induction false} RegisterThenLoginByUsername(users: seq<User>, form: SignupForm, id: int, now: string)
    requires Register(users, form, id, now).reply.Ok? && Truthy(form.username)
    ensures ValidateLoginByUsernameStrict(Register(users, form, id, now).users, form.username.value, form.password) ==
            Register(users, form, id, now).reply
  {
    var o := Register(users, form, id, now);
    var p := ByUsername(form.username.value);
    forall j | 0 <= j < |users|
      ensures !p(o.users[j])
    {
      assert o.users[j] == users[j];
      assert users[j] in users;
    }
    assert FirstMatch(o.users, p, |users|);
  }

  /** Once an email is registered, registering it again in any letter case fails. */
  lemma {:induction false} RegisterSameEmailTwice(users: seq<User>, form: SignupForm, id: int, now: string,
                                                  form': SignupForm, id': int, now': string)
    requires Register(users, form, id, now).reply.Ok? && Truthy(form.email)
    requires form'.email.Some? && Lower(form'.email.value) == Lower(form.email.value)
    ensures Register(Register(users, form, id, now).users, form', id', now').reply == Err("Email already registered")
  {
    var o := Register(users, form, id, now);
    assert |Lower(form'.email.value)| == |Lower(form.email.value)|;
    assert o.users[|users|] in o.users;
    assert ByEmail(form'.email.value)(o.users[|users|]);
  }

  /** With unique accounts and a non-empty email, a successful login finds the only account with that email. */
  lemma {:induction false} LoginFindsTheAccount(users: seq<User>, email: string, password: string)
    requires UniqueAccounts(users) && email != ""
    requires ValidateLogin(users, email, password).Ok?
    ensures forall u :: u in users && ByEmail(email)(u) ==> u == ValidateLogin(users, email, password).user
  {
    var r := ValidateLogin(users, email, password);
    var i :| FirstMatch(users, ByEmail(email), i) && users[i] == r.user;
    forall u | u in users && ByEmail(email)(u)
      ensures u == r.user
    {
      var j :| 0 <= j < |users| && users[j] == u;
      if i < j {
        assert |Lower(OrEmpty(users[i].email))| == |Lower(email)|;
        assert |Lower(OrEmpty(users[j].email))| == |Lower(email)|;
        assert Clash(users[i], users[j]);
      }
    }
  }

  /**
   * The empty username logs into the account the Gmail button creates, which
   * has no username, with that account's fixed password.
   */
  lemma EmptyUsernameFindsUsernamelessAccount()
    ensures Register([], SignupForm(Some("Gmail User"), Some("owner@gmail.com"), "oauth", None, false), 1, "t").reply.Ok?
    ensures ValidateLoginByUsername(
              Register([], SignupForm(Some("Gmail User"), Some("owner@gmail.com"), "oauth", None, false), 1, "t").users,
              "", "oauth").Ok?
    ensures ValidateLoginByUsernameStrict(
              Register([], SignupForm(Some("Gmail User"), Some("owner@gmail.com"), "oauth", None, false), 1, "t").users,
              "", "oauth") == Err("User not found")
  {
    var o := Register([], SignupForm(Some("Gmail User"), Some("owner@gmail.com"), "oauth", None, false), 1, "t");
    assert FirstMatch(o.users, ByUsername(""), 0);
  }

  class AuthStore {
    /** The stored account list (what `loadUsers` returns). */
    var users: seq<User>
    /** The stored session entry, if any. */
    var session: Option<Session>

    /** Opens the store over the medium's entries; a missing account list reads as empty. */
    constructor (storedUsers: Option<seq<User>>, storedSession: Option<Session>)
      ensures users == storedUsers.GetOr([]) && session == storedSession
    {
      users := storedUsers.GetOr([]);
      session := storedSession;
    }

    /** `createUser`, on the stored list; the session is untouched. */
    method CreateUser(form: SignupForm, id: int, now: string) returns (reply: Reply)
      modifies this
      ensures Outcome(reply, users) == Register(old(users), form, id, now)
      ensures session == old(session)
    {
      var existsEmail := EmailTaken(users, form.email);
      var existsUsername := UsernameTaken(users, form.username);
      if existsEmail {
        return Err("Email already registered");
      }
      if existsUsername {
        return Err("Username already taken");
      }
      var user := NewUser(form, id, now);
      users := users + [user];
      reply := Ok(user);
    }

    /** `createUserWithGmail`, on the stored list; the session is untouched. */
    method CreateUserWithGmail(gmail: Option<string>, name: Option<string>, username: Option<string>,
                               password: string, id: int, now: string) returns (reply: Reply)
      modifies this
      ensures Outcome(reply, users) == RegisterWithGmail(old(users), gmail, name, username, password, id, now)
      ensures session == old(session)
    {
      if !Truthy(gmail) {
        return Err("Gmail verification required");
      }
      reply := CreateUser(SignupForm(name, gmail, password, username, true), id, now);
    }

    /** `setAuthSession`: an authenticated session holding only id, name, email and role. */
    method SetAuthSession(user: User, now: string)
      modifies this
      ensures session == Some(Session(true, SessionUser(user.id, user.name, user.email, user.role), now))
      ensures users == old(users)
    {
      session := Some(Session(true, SessionUser(user.id, user.name, user.email, user.role), now));
    }
  }
}
