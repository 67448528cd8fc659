/**
 * routes/auth.js: the older /register, /login and /profile routes, which sit
 * beside the controllers. /register never stores anything: its document has no
 * name, which the schema requires. /login checks neither verification nor the
 * provider and returns a one-hour token.
 */
module LegacyRoutes {
  import opened Wrappers
  import opened Jwt
  import opened AuthUtils
  import opened UserModel
  import opened Http
  import SessionGuard

  const UserExists := "User already exists"
  const ServerError := "Server error"
  const InvalidCredentials := "Invalid email or password"
  const Welcome := "Welcome to your profile"

  /** POST /register with the body's email and password as given. */
  method Register(store: AccountStore, email: string, password: string, env: Env, nowMs: nat) returns (reply: Reply)
    requires store.Valid()
    modifies store
    ensures store.Valid() && store.accounts == old(store.accounts)
    ensures (exists j | j in old(store.accounts) :: old(store.accounts)[j].email == email) ==> reply == Fail(400, UserExists)
    ensures (forall j | j in old(store.accounts) :: old(store.accounts)[j].email != email) ==> reply == Fail(500, ServerError)
  {
    EmailLookup(store.accounts, store.nextId, email);
    var existingUser := FindByEmail(store.accounts, store.nextId, email);
    if existingUser.Some? {
      return Fail(400, UserExists);
    }
    var hashedPassword := Bcrypt(Plain(password));
    var created := store.Create(Draft("", email, Some(hashedPassword), None, None, Local, false, None, None), nowMs);
    if created.Ok? {
      // The schema refuses the nameless document, so the token is never signed.
      assert false;
    }
    reply := Fail(500, ServerError);
  }

  /** POST /login: exact e-mail, then bcrypt.compare, which throws on an account without a password. */
  method Login(store: AccountStore, email: string, password: Option<string>, env: Env, nowMs: nat) returns (reply: Reply)
    ensures reply.status in {200, 400, 500}
    ensures FindByEmail(store.accounts, store.nextId, email).None? ==> reply == Fail(400, InvalidCredentials)
    ensures reply.status == 200 <==>
      var found := FindByEmail(store.accounts, store.nextId, email);
      && found.Some? && store.accounts[found.value].password.Some? && password.Some?
      && BcryptMatches(password.value, store.accounts[found.value].password.value)
      && Usable(env.jwtSecret)
    ensures reply.status == 200 ==>
      var id := FindByEmail(store.accounts, store.nextId, email).value;
      reply == Reply(200, "", Bearer(Signed(env.jwtSecret.value, SubjectClaims(id), Seconds(nowMs), Seconds(nowMs) + LegacyLifetime)))
    ensures var found := FindByEmail(store.accounts, store.nextId, email);
      found.Some? && (store.accounts[found.value].password.None? || password.None?) ==> reply == Fail(500, ServerError)
  {
    var found := FindByEmail(store.accounts, store.nextId, email);
    if found.None? {
      return Fail(400, InvalidCredentials);
    }
    var user := store.accounts[found.value];
    if user.password.None? || password.None? {
      return Fail(500, ServerError);
    }
    if !BcryptMatches(password.value, user.password.value) {
      return Fail(400, InvalidCredentials);
    }
    var token := Sign(SubjectClaims(found.value), env.jwtSecret, nowMs, LegacyLifetime);
    if token.None? {
      return Fail(500, ServerError);
    }
    reply := Reply(200, "", Bearer(token.value));
  }

  /** GET /profile behind the session guard. */
  function Profile(accounts: map<Id, Account>, authorization: Option<string>, decode: string -> Token,
                   env: Env, nowMs: nat): (r: Reply)
    ensures SessionGuard.IsLoggedIn(accounts, authorization, decode, env, nowMs).Halt? ==>
              r == SessionGuard.IsLoggedIn(accounts, authorization, decode, env, nowMs).reply
    ensures SessionGuard.IsLoggedIn(accounts, authorization, decode, env, nowMs).Next? ==>
              var a := SessionGuard.IsLoggedIn(accounts, authorization, decode, env, nowMs).user;
              r == Reply(200, Welcome, Http.Profile(a.id, a.email))
  {
    match SessionGuard.IsLoggedIn(accounts, authorization, decode, env, nowMs)
    case Halt(reply) => reply
    case Next(user) => Reply(200, Welcome, Http.Profile(user.id, user.email))
  }
}
