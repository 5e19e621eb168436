/**
 * The account handlers: register, login and me. Passwords are stored hashed;
 * replies carry the user's id, name and email and a session token, never the password.
 */
module Accounts {
  import opened Wrappers
  import opened Js
  import opened Schema
  import opened Http
  import opened Tokens
  import opened Users
  import opened AuthGate

  datatype Registration = Registration(name: string, email: string, password: string)
  datatype Credentials = Credentials(email: string, password: string)

  /** `{ id, name, email }`: the user as the account replies show it. */
  datatype Profile = Profile(id: nat, name: string, email: string)

  /** `{ user, token }` from register and login, `{ user }` from me. */
  datatype Body =
    | Session(user: Profile, token: string)
    | Current(current: SafeUser)

  function ProfileOf(u: User): (p: Profile)
    ensures p.id == u.id && p.name == u.name && p.email == u.email
  {
    Profile(u.id, u.name, u.email)
  }

  /** The register schema: a non-empty name, an email, a password of at least 6 characters; unknown keys are dropped. */
  function RegisterInput(body: Object, isEmail: string -> bool): (r: Parse<Registration>)
    ensures r.Success? <==>
      && "name" in body && body["name"].JStr? && body["name"].s != ""
      && "email" in body && body["email"].JStr? && isEmail(body["email"].s)
      && "password" in body && body["password"].JStr? && Length(body["password"].s) >= 6
    ensures r.Success? ==> r.value == Registration(body["name"].s, body["email"].s, body["password"].s)
    ensures r.Failure? ==> |r.issues| >= 1
    ensures r.Failure? && !("name" in body && body["name"].JStr? && body["name"].s != "") ==> Reported(r.issues, "name")
    ensures r.Failure? && !("email" in body && body["email"].JStr? && isEmail(body["email"].s)) ==> Reported(r.issues, "email")
    ensures r.Failure? && !("password" in body && body["password"].JStr? && Length(body["password"].s) >= 6) ==> Reported(r.issues, "password")
  {
    var name := MinString(body, "name", 1, "Name is required");
    var email := EmailString(body, "email", isEmail, "Invalid email");
    var password := MinString(body, "password", 6, "Password must be at least 6 characters");
    assert name.Success? ==> |body["name"].s| <= Length(body["name"].s);
    if name.Success? && email.Success? && password.Success? then
      Success(Registration(name.value, email.value, password.value))
    else
      var issues := IssuesOf(name) + IssuesOf(email) + IssuesOf(password);
      assert name.Failure? ==> issues[0].path == "name";
      assert email.Failure? ==> issues[|IssuesOf(name)|].path == "email";
      assert password.Failure? ==> issues[|issues| - |IssuesOf(password)|].path == "password";
      Failure(issues)
  }

  /** The login schema: an email and a non-empty password. */
  function LoginInput(body: Object, isEmail: string -> bool): (r: Parse<Credentials>)
    ensures r.Success? <==>
      && "email" in body && body["email"].JStr? && isEmail(body["email"].s)
      && "password" in body && body["password"].JStr? && body["password"].s != ""
    ensures r.Success? ==> r.value == Credentials(body["email"].s, body["password"].s)
    ensures r.Failure? ==> |r.issues| >= 1
  {
    var email := EmailString(body, "email", isEmail, "Invalid email");
    var password := MinString(body, "password", 1, "Password is required");
    assert password.Success? ==> |body["password"].s| <= Length(body["password"].s);
    if email.Success? && password.Success? then Success(Credentials(email.value, password.value))
    else Failure(IssuesOf(email) + IssuesOf(password))
  }

  /** A body that registers also logs in: the login schema asks less of the same fields. */
  lemma RegistrationLogsIn(body: Object, isEmail: string -> bool)
    requires RegisterInput(body, isEmail).Success?
    ensures LoginInput(body, isEmail).Success?
    ensures LoginInput(body, isEmail).value.email == RegisterInput(body, isEmail).value.email
    ensures LoginInput(body, isEmail).value.password == RegisterInput(body, isEmail).value.password
  {
    assert Length(body["password"].s) <= 2 * |body["password"].s|;
  }

  /**
   * `register`: 400 with the issues when the body fails the schema, 400 when the email
   * is taken, otherwise 201 with the new user's profile and a token for its id. The
   * stored password is the hash of the one given. Only a 201 adds a user.
   */
  function RegisterResult(t: UserTable, body: Object, c: Crypto, isEmail: string -> bool, now: int): (r: (Reply<Body>, UserTable))
    requires t.Valid()
    ensures r.1.Valid()
    ensures r.0.status in {CREATED, BAD_REQUEST}
    ensures RegisterInput(body, isEmail).Failure? ==> r == (Reply(BAD_REQUEST, Errors(RegisterInput(body, isEmail).issues)), t)
    ensures RegisterInput(body, isEmail).Success? && (exists id :: id in t.rows && t.rows[id].email == body["email"].s) ==>
      r == (Reply(BAD_REQUEST, Error("Email already in use")), t)
    ensures RegisterInput(body, isEmail).Success? && (forall id :: id in t.rows ==> t.rows[id].email != body["email"].s) ==>
      r.0.status == CREATED
    ensures r.0.status == CREATED ==>
      var u := User(t.nextId, body["name"].s, body["email"].s, c.hash(body["password"].s), now, now);
      && RegisterInput(body, isEmail).Success?
      && t.nextId !in t.rows
      && r.1.rows == t.rows[t.nextId := u]
      && r.0.payload == Data(Session(ProfileOf(u), GenerateToken(c, t.nextId)))
    ensures r.0.status != CREATED ==> r.1 == t
  {
    match RegisterInput(body, isEmail)
    case Failure(issues) => (Reply(BAD_REQUEST, Errors(issues)), t)
    case Success(data) =>
      var hashed := c.hash(data.password);
      var (created, t') := t.Create(data.name, data.email, hashed, now);
      match created
      case UniqueViolation => (Reply(BAD_REQUEST, Error("Email already in use")), t)
      case Inserted(u) => (Reply(CREATED, Data(Session(ProfileOf(u), GenerateToken(c, u.id)))), t')
  }

  /**
   * `login`: 400 with the issues for a bad body; one and the same 400 "Invalid
   * credentials" for an unknown email and for a wrong password; otherwise 200 with
   * the profile and a token for the user's id.
   */
  function LoginResult(t: UserTable, body: Object, c: Crypto, isEmail: string -> bool): (r: Reply<Body>)
    requires t.Valid()
    ensures r.status in {OK, BAD_REQUEST}
    ensures LoginInput(body, isEmail).Failure? ==> r == Reply(BAD_REQUEST, Errors(LoginInput(body, isEmail).issues))
    ensures LoginInput(body, isEmail).Success? ==>
      var creds := LoginInput(body, isEmail).value;
      var match_ := exists id :: id in t.rows && t.rows[id].email == creds.email && c.compare(creds.password, t.rows[id].password);
      && (match_ <==> r.status == OK)
      && (!match_ ==> r == Reply(BAD_REQUEST, Error("Invalid credentials")))
    ensures r.status == OK ==>
      && LoginInput(body, isEmail).Success?
      && exists id ::
        && id in t.rows
        && t.rows[id].email == LoginInput(body, isEmail).value.email
        && c.compare(LoginInput(body, isEmail).value.password, t.rows[id].password)
        && r.payload == Data(Session(ProfileOf(t.rows[id]), GenerateToken(c, id)))
  {
    match LoginInput(body, isEmail)
    case Failure(issues) => Reply(BAD_REQUEST, Errors(issues))
    case Success(creds) =>
      match t.ByEmail(creds.email)
      case None => Reply(BAD_REQUEST, Error("Invalid credentials"))
      case Some(u) =>
        if !c.compare(creds.password, u.password) then Reply(BAD_REQUEST, Error("Invalid credentials"))
        else
          assert u.id in t.rows && t.rows[u.id] == u;
          Reply(OK, Data(Session(ProfileOf(u), GenerateToken(c, u.id))))
  }

  /** `me`: the user the gate attached, as it is. */
  function Me(user: SafeUser): (r: Reply<Body>)
    ensures r.status == OK && r.payload.Data? && r.payload.value.Current? && r.payload.value.current == user
  {
    Reply(OK, Data(Current(user)))
  }

  // ----- properties -----

  /** An unknown email and a wrong password cannot be told apart from the reply. */
  lemma LoginUniform(t: UserTable, body1: Object, body2: Object, c: Crypto, isEmail: string -> bool)
    requires t.Valid()
    requires LoginInput(body1, isEmail).Success? && LoginInput(body2, isEmail).Success?
    requires forall id :: id in t.rows ==> t.rows[id].email != body1["email"].s
    requires exists id :: id in t.rows && t.rows[id].email == body2["email"].s
    requires forall id :: id in t.rows && t.rows[id].email == body2["email"].s ==> !c.compare(body2["password"].s, t.rows[id].password)
    ensures LoginResult(t, body1, c, isEmail) == LoginResult(t, body2, c, isEmail)
  {
  }

  /** A second registration under the same email is refused and adds no user. */
  lemma RegisterTwice(t: UserTable, body: Object, again: Object, c: Crypto, isEmail: string -> bool, now: int, later: int)
    requires t.Valid()
    requires RegisterResult(t, body, c, isEmail, now).0.status == CREATED
    requires RegisterInput(again, isEmail).Success? && again["email"] == body["email"]
    ensures var t' := RegisterResult(t, body, c, isEmail, now).1;
      RegisterResult(t', again, c, isEmail, later) == (Reply(BAD_REQUEST, Error("Email already in use")), t')
  {
    var t' := RegisterResult(t, body, c, isEmail, now).1;
    assert t'.rows[t.nextId].email == again["email"].s;
  }

  /** Whoever registers can log in with the same body, and sees the same profile. */
  lemma RegisterThenLogin(t: UserTable, body: Object, c: Crypto, isEmail: string -> bool, now: int)
    requires t.Valid() && Sound(c)
    requires RegisterResult(t, body, c, isEmail, now).0.status == CREATED
    ensures var (reply, t') := RegisterResult(t, body, c, isEmail, now);
      LoginResult(t', body, c, isEmail) == Reply(OK, reply.payload)
  {
    var (reply, t') := RegisterResult(t, body, c, isEmail, now);
    RegistrationLogsIn(body, isEmail);
    var u := t'.rows[t.nextId];
    assert u.email == body["email"].s;
    assert c.compare(body["password"].s, c.hash(body["password"].s));
    var found := t'.ByEmail(body["email"].s);
    assert found == Some(u);
  }

  /** The token from a registration opens the gate, and `me` then shows the new user without a password. */
  lemma RegisterThenMe(t: UserTable, body: Object, c: Crypto, isEmail: string -> bool, now: int)
    requires t.Valid() && Sound(c)
    requires RegisterResult(t, body, c, isEmail, now).0.status == CREATED
    ensures var (reply, t') := RegisterResult(t, body, c, isEmail, now);
      var gate := Authenticate(Some("Bearer " + reply.payload.value.token), c, t');
      && gate == Proceed(WithoutPassword(t'.rows[t.nextId]))
      && Me(gate.user).payload.value.current.email == body["email"].s
      && Me(gate.user).payload.value.current.id == reply.payload.value.user.id
  {
    var (reply, t') := RegisterResult(t, body, c, isEmail, now);
    ValidTokenProceeds(c, t', t.nextId);
  }

  /** The `register` route over the `prisma.user` delegate. */
  method Register(store: UserStore, body: Object, c: Crypto, isEmail: string -> bool, now: int) returns (reply: Reply<Body>)
    requires store.Valid()
    modifies store
    ensures store.Valid()
    ensures (reply, store.Snapshot()) == RegisterResult(old(store.Snapshot()), body, c, isEmail, now)
  {
    var data := RegisterInput(body, isEmail);
    if data.Failure? {
      return Reply(BAD_REQUEST, Errors(data.issues));
    }
    var hashed := c.hash(data.value.password);
    var created := store.Create(data.value.name, data.value.email, hashed, now);
    if created.UniqueViolation? {
      return Reply(BAD_REQUEST, Error("Email already in use"));
    }
    var u := created.user;
    reply := Reply(CREATED, Data(Session(ProfileOf(u), GenerateToken(c, u.id))));
  }

  /** The `login` route: it only reads. */
  method Login(store: UserStore, body: Object, c: Crypto, isEmail: string -> bool) returns (reply: Reply<Body>)
    requires store.Valid()
    ensures reply == LoginResult(store.Snapshot(), body, c, isEmail)
  {
    var data := LoginInput(body, isEmail);
    if data.Failure? {
      return Reply(BAD_REQUEST, Errors(data.issues));
    }
    var user := store.FindUniqueByEmail(data.value.email);
    if user.None? {
      return Reply(BAD_REQUEST, Error("Invalid credentials"));
    }
    var matches := c.compare(data.value.password, user.value.password);
    if !matches {
      return Reply(BAD_REQUEST, Error("Invalid credentials"));
    }
    reply := Reply(OK, Data(Session(ProfileOf(user.value), GenerateToken(c, user.value.id))));
  }
}
