/**
 * Request sequences a client can send, with what the handlers make of them.
 * Each method proves, from the handlers' contracts alone, a property of the
 * system as a whole.
 */
module Scenarios {
  import opened Wrappers
  import opened Jwt
  import opened AuthUtils
  import opened UserModel
  import opened Http
  import opened EmailService
  import opened UserController
  import PasswordController
  import AuthController
  import GoogleAuthController
  import EmailController

  /** An address in the form every handler normalises to is its own lower-case form. */
  lemma NormalizedIsLower(email: string)
    requires email == NormalizeEmail(email)
    ensures ToLower(email) == email
  {
    ToLowerIdempotent(Trim(email));
    LowerCommutesWithTrim(email);
    assert NormalizeEmail(email) == ToLower(Trim(email));
  }

  /** An account whose stored credential is a hash of a hash refuses every password at login. */
  method LogInDoubleHashed(store: AccountStore, email: string, password: string, env: Env, nowMs: nat)
    returns (login: Reply)
    requires store.Valid()
    requires exists id | id in store.accounts ::
               store.accounts[id].email == email && store.accounts[id].password == Some(Bcrypt(Bcrypt(Plain(password))))
    requires email == NormalizeEmail(email)
    modifies store
    ensures store.Valid() && store.accounts == old(store.accounts)
    ensures login == Fail(400, InvalidCredentials)
  {
    var id :| id in store.accounts && store.accounts[id].email == email &&
              store.accounts[id].password == Some(Bcrypt(Bcrypt(Plain(password))));
    EmailLookup(store.accounts, store.nextId, email);
    ghost var found := FindByEmail(store.accounts, store.nextId, NormalizeEmail(email));
    assert found == Some(id);
    ghost var a := store.accounts[id];
    assert HasPassword(a) && ComparePassword(a, Some(password)) == NoMatch;
    login := LoginUser(store, Some(email), Some(password), env, nowMs);
  }

  /**
   * Registering and then logging in with the same address and password is
   * refused as a wrong password: the credential was hashed twice when stored.
   */
  method RegisterThenLogIn(store: AccountStore, name: string, email: string, password: string,
                           env: Env, registeredMs: nat, loginMs: nat, delivered: bool)
    returns (registration: Reply, login: Reply)
    requires store.Valid()
    requires email == NormalizeEmail(email)
    modifies store
    ensures store.Valid()
    ensures registration.status == 201 ==> login == Fail(400, InvalidCredentials)
  {
    NormalizedIsLower(email);
    var mail;
    registration, mail := RegisterUser(store, Some(name), Some(email), Some(password), env, registeredMs, delivered);
    if registration.status == 201 {
      login := LogInDoubleHashed(store, email, password, env, loginMs);
    } else {
      login := LoginUser(store, Some(email), Some(password), env, loginMs);
    }
  }

  /** No record but the one under `id` holds this reset digest. */
  ghost predicate DigestOnlyAt(m: map<Id, Account>, id: Id, raw: string) {
    forall j | j in m && j != id :: m[j].passwordResetToken != Some(Sha256(raw))
  }

  /** forgotPassword for a local account: the reset digest is stored and pending for ten minutes. */
  method RequestReset(store: AccountStore, id: Id, raw: string, env: Env, nowMs: nat) returns (reply: Reply, mail: Option<Mail>)
    requires store.Valid() && id in store.accounts
    requires store.accounts[id].email == NormalizeEmail(store.accounts[id].email)
    requires store.accounts[id].authProvider == Local && !Truthy(store.accounts[id].googleId)
    requires DigestOnlyAt(store.accounts, id, raw)
    modifies store
    ensures store.Valid() && id in store.accounts && DigestOnlyAt(store.accounts, id, raw)
    ensures reply == Reply(200, PasswordController.LinkSent, NoDetail)
    ensures mail.Some? && mail.value.link == [Text(Render(env.frontendUrl) + "/reset-password?token=" + raw)]
    ensures store.accounts == old(store.accounts)[id := CreatePasswordResetToken(old(store.accounts)[id], raw, nowMs)]
  {
    var email := store.accounts[id].email;
    EmailLookup(store.accounts, store.nextId, email);
    reply, mail := PasswordController.ForgotPassword(store, Some(email), raw, env, nowMs, true);
  }

  /**
   * resetPassword with the raw token from the mail, within its ten minutes:
   * the new password is stored hashed once and the digest is gone.
   */
  method UseResetToken(store: AccountStore, id: Id, raw: string, password: string, nowMs: nat) returns (reply: Reply)
    requires store.Valid() && id in store.accounts && raw != ""
    requires DigestOnlyAt(store.accounts, id, raw) && ResetPending(store.accounts[id], Sha256(raw), nowMs)
    requires ValidatePassword(Some(password)).isValid
    modifies store
    ensures store.Valid() && id in store.accounts
    ensures reply == Reply(200, PasswordController.PasswordChanged, NoDetail)
    ensures forall j | j in store.accounts :: store.accounts[j].passwordResetToken != Some(Sha256(raw))
    ensures store.accounts == old(store.accounts)[id := PreSave(PasswordController.PasswordAssigned(old(store.accounts)[id], password), true)]
  {
    reply := PasswordController.ResetPassword(store, Some(raw), Some(password), nowMs);
  }

  /**
   * The whole reset flow on a verified local account: after the link has been
   * used, logging in with the new password succeeds, and the same link used a
   * second time is refused.
   */
  method ResetThenLogIn(store: AccountStore, id: Id, raw: string, password: string, other: string, env: Env,
                        requestedMs: nat, resetMs: nat, loginMs: nat, replayMs: nat)
    returns (reset: Reply, login: Reply, replay: Reply)
    requires store.Valid() && id in store.accounts && raw != ""
    requires store.accounts[id].email == NormalizeEmail(store.accounts[id].email)
    requires store.accounts[id].authProvider == Local && !Truthy(store.accounts[id].googleId)
    requires store.accounts[id].emailVerified
    requires DigestOnlyAt(store.accounts, id, raw)
    requires requestedMs <= resetMs < requestedMs + ResetLifetimeMs
    requires ValidatePassword(Some(password)).isValid && ValidatePassword(Some(other)).isValid
    requires Usable(env.jwtSecret) && Usable(env.refreshSecret)
    modifies store
    ensures reset.status == 200 && login.status == 200 && login.detail.Session?
    ensures replay == Fail(400, PasswordController.ResetRefused)
  {
    var email := store.accounts[id].email;
    var requested, mail := RequestReset(store, id, raw, env, requestedMs);
    reset := UseResetToken(store, id, raw, password, resetMs);
    assert ComparePassword(store.accounts[id], Some(password)) == Match;
    EmailLookup(store.accounts, store.nextId, email);
    login := LogInAfterReset(store, id, email, password, raw, env, loginMs);
    replay := ReplayResetToken(store, raw, other, replayMs);
  }

  /** resetPassword with a raw token whose digest no record holds: refused, whatever the time. */
  method ReplayResetToken(store: AccountStore, raw: string, password: string, nowMs: nat) returns (reply: Reply)
    requires store.Valid() && raw != "" && NoDigest(store.accounts, raw)
    requires ValidatePassword(Some(password)).isValid
    modifies store
    ensures reply == Fail(400, PasswordController.ResetRefused)
    ensures store.accounts == old(store.accounts)
  {
    reply := PasswordController.ResetPassword(store, Some(raw), Some(password), nowMs);
  }

  /** No record holds this reset digest. */
  ghost predicate NoDigest(m: map<Id, Account>, raw: string) {
    forall j | j in m :: m[j].passwordResetToken != Some(Sha256(raw))
  }

  /** loginUser on the record the e-mail finds, with its password: a session, and no reset digest comes back. */
  method LogInAfterReset(store: AccountStore, id: Id, email: string, password: string, raw: string, env: Env, nowMs: nat)
    returns (login: Reply)
    requires store.Valid() && id in store.accounts
    requires FindByEmail(store.accounts, store.nextId, NormalizeEmail(email)) == Some(id)
    requires store.accounts[id].authProvider == Local && store.accounts[id].emailVerified
    requires ComparePassword(store.accounts[id], Some(password)) == Match
    requires Usable(env.jwtSecret) && Usable(env.refreshSecret)
    requires NoDigest(store.accounts, raw)
    modifies store
    ensures store.Valid() && NoDigest(store.accounts, raw)
    ensures login.status == 200 && login.detail.Session?
  {
    login := LoginUser(store, Some(email), Some(password), env, nowMs);
  }

  /** After logging out with a refresh token of one's own, presenting it again is refused. */
  method LogoutThenRefresh(store: AccountStore, id: Id, token: Token, env: Env, nowMs: nat)
    returns (logout: Reply, refresh: Reply)
    requires store.Valid() && id in store.accounts
    requires token.Signed? && token.claims.id == Some(id)
    modifies store
    ensures logout == Reply(200, LoggedOut, NoDetail)
    ensures refresh.status == 403
  {
    logout := LogoutUser(store, id, Some(token));
    refresh := AuthController.RefreshToken(store, Some(token), env, nowMs);
  }

  /**
   * Presenting the same refresh token twice: the second exchange is refused
   * unless the rotation handed that very token back, which happens when both
   * were signed in the same second.
   */
  method RefreshTwice(store: AccountStore, token: Token, env: Env, firstMs: nat, secondMs: nat)
    returns (first: Reply, second: Reply)
    requires store.Valid()
    modifies store
    ensures first.detail.Rotated? && first.detail.refreshToken != token ==> second.status == 403
    ensures first.detail.Rotated? && first.detail.refreshToken == token && Seconds(secondMs) < Seconds(firstMs) + RefreshLifetime ==>
              second.status == 200
  {
    first := AuthController.RefreshToken(store, Some(token), env, firstMs);
    second := AuthController.RefreshToken(store, Some(token), env, secondMs);
  }

  /**
   * What the browser gets from a Google sign-in: the callback's redirect, or,
   * when findOrCreateGoogleUser throws, the 500 of the application's error
   * handler, since passport hands the error to next and the callback never runs.
   */
  datatype SignIn = Redirected(location: Url) | ServerError(reply: Reply)

  const InternalServerError := "Internal server error"

  /**
   * findOrCreateGoogleUser returns a record: the Google id is known, or the
   * first address finds a record whose picture can be settled, or the profile
   * carries its photos list and makes a schema-valid new one.
   */
  ghost predicate GoogleResolves(m: map<Id, Account>, next: nat, profile: GoogleProfile, nowMs: nat) {
    || (exists j | j in m :: m[j].googleId == Some(profile.id))
    || (profile.emails != [] &&
        var byEmail := FindByEmail(m, next, ToLower(profile.emails[0]));
        if byEmail.Some? then PictureReadable(m[byEmail.value], profile)
        else profile.photos.Some? && SchemaValid(GoogleDraft(profile, nowMs)))
  }

  /**
   * Google sign-in: passport resolves the profile with findOrCreateGoogleUser,
   * then the callback redirects. A lookup that throws is a 500 that changes
   * nothing; a session redirect always carries the record that now holds this
   * Google id; a returning Google user is always let in when both token
   * secrets are set.
   */
  method GoogleSignIn(store: AccountStore, profile: GoogleProfile, env: Env, nowMs: nat) returns (outcome: SignIn)
    requires store.Valid()
    modifies store
    ensures store.Valid()
    ensures outcome.ServerError? <==> !GoogleResolves(old(store.accounts), old(store.nextId), profile, nowMs)
    ensures outcome.ServerError? ==> outcome.reply == Fail(500, InternalServerError) && store.accounts == old(store.accounts)
    ensures outcome.Redirected? && outcome.location != GoogleAuthController.ErrorUrl(env) ==>
              exists id | id in store.accounts ::
                && store.accounts[id].googleId == Some(profile.id)
                && GenerateTokens(id, env, nowMs).Some?
                && outcome.location == GoogleAuthController.SessionUrl(env, GenerateTokens(id, env, nowMs).value, store.accounts[id])
    ensures (exists j | j in old(store.accounts) :: old(store.accounts)[j].googleId == Some(profile.id)) &&
            Usable(env.jwtSecret) && Usable(env.refreshSecret) ==>
              outcome.Redirected? && outcome.location != GoogleAuthController.ErrorUrl(env)
  {
    var resolved := ResolveGoogleUser(store, profile, nowMs);
    if resolved.Err? {
      return ServerError(Fail(500, InternalServerError));
    }
    var location := GoogleAuthController.GoogleCallback(store, Some(resolved.value), env, nowMs);
    outcome := Redirected(location);
  }

  /** The strategy's verify callback: findOrCreateGoogleUser fails exactly when the profile resolves to no record. */
  method ResolveGoogleUser(store: AccountStore, profile: GoogleProfile, nowMs: nat) returns (r: Result<Id, CreateFailure>)
    requires store.Valid()
    modifies store
    ensures store.Valid()
    ensures r.Err? <==> !GoogleResolves(old(store.accounts), old(store.nextId), profile, nowMs)
    ensures r.Err? ==> store.accounts == old(store.accounts)
    ensures r.Ok? ==> r.value in store.accounts && store.accounts[r.value].googleId == Some(profile.id)
    ensures (exists j | j in old(store.accounts) :: old(store.accounts)[j].googleId == Some(profile.id)) ==> r.Ok?
  {
    ghost var byId := FindByGoogleId(store.accounts, store.nextId, profile.id);
    assert byId.Some? <==> exists j | j in store.accounts :: store.accounts[j].googleId == Some(profile.id);
    r := store.FindOrCreateGoogleUser(profile, nowMs);
  }

  /**
   * Following the link of a verification mail within 24 hours verifies the
   * account and opens a session; the e-mail and the stored credential stay.
   */
  method VerifyFromMail(store: AccountStore, id: Id, mail: Mail, env: Env, sentMs: nat, nowMs: nat)
    returns (reply: Reply)
    requires store.Valid() && id in store.accounts && !store.accounts[id].emailVerified
    requires SendVerificationEmail(id, store.accounts[id].email, env, sentMs, true) == Ok(mail)
    requires Seconds(nowMs) < Seconds(sentMs) + VerificationLifetime
    requires Usable(env.jwtSecret) && Usable(env.refreshSecret)
    modifies store
    ensures store.Valid() && id in store.accounts
    ensures reply.status == 200 && reply.detail.Session? && store.accounts[id].emailVerified
    ensures store.accounts[id].email == old(store.accounts[id].email)
    ensures store.accounts[id].password == old(store.accounts[id].password)
  {
    var token := mail.link[1].t;
    VerificationRoundTrip(id, store.accounts[id].email, env, sentMs, nowMs);
    var welcome;
    reply, welcome := EmailController.VerifyEmail(store, Some(token), env, nowMs, false);
  }

  /**
   * Registering, following the verification link when a mail came, and then
   * logging in with the registered password: verification succeeds, and the login is still
   * refused, because verification leaves the twice-hashed credential alone.
   */
  method RegisterVerifyLogIn(store: AccountStore, name: string, email: string, password: string, env: Env,
                             registeredMs: nat, verifiedMs: nat, loginMs: nat, delivered: bool)
    returns (registration: Reply, verification: Option<Reply>, login: Reply)
    requires store.Valid()
    requires email == NormalizeEmail(email)
    requires Seconds(verifiedMs) < Seconds(registeredMs) + VerificationLifetime
    requires Usable(env.jwtSecret) && Usable(env.refreshSecret)
    modifies store
    ensures verification.Some? <==> registration.status == 201
    ensures registration.status == 201 ==> verification.value.status == 200 && login == Fail(400, InvalidCredentials)
  {
    NormalizedIsLower(email);
    var mail;
    registration, mail := RegisterUser(store, Some(name), Some(email), Some(password), env, registeredMs, delivered);
    if registration.status != 201 {
      verification := None;
      login := LoginUser(store, Some(email), Some(password), env, loginMs);
      return;
    }
    var id :| id in store.accounts && store.accounts[id].email == email && !store.accounts[id].emailVerified &&
              store.accounts[id].password == Some(Bcrypt(Bcrypt(Plain(password)))) &&
              mail == Sent(SendVerificationEmail(id, store.accounts[id].email, env, registeredMs, delivered));
    var verified := VerifyFromMail(store, id, mail.value, env, registeredMs, verifiedMs);
    verification := Some(verified);
    login := LogInDoubleHashed(store, email, password, env, loginMs);
  }

  /** Logging out twice with the same refresh token leaves the store as logging out once does. */
  method LogoutTwice(store: AccountStore, id: Id, token: Option<Token>) returns (first: Reply, second: Reply)
    requires store.Valid()
    modifies store
    ensures store.Valid() && first == second
    ensures Present(token) && id in old(store.accounts) ==>
              var a := old(store.accounts)[id];
              store.accounts == old(store.accounts)[id := a.(refreshTokens := Without(a.refreshTokens, token.value))]
    ensures !(Present(token) && id in old(store.accounts)) ==> store.accounts == old(store.accounts)
  {
    first := LogoutUser(store, id, token);
    ghost var once := store.accounts;
    if Present(token) && id in store.accounts {
      WithoutIdempotent(store.accounts[id].refreshTokens, token.value);
    }
    second := LogoutUser(store, id, token);
    assert store.accounts == once;
  }
}
