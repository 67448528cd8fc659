/**
 * controllers/userController.js: registration, login, logout, change of e-mail
 * and deletion of the account. Each handler takes the store and the request's
 * fields (None for a field missing from the body), and returns the reply and,
 * where one goes out, the mail. Time, the environment and whether the mail
 * transport delivers are parameters.
 */
module UserController {
  import opened Wrappers
  import opened Jwt
  import opened AuthUtils
  import opened UserModel
  import opened Http
  import opened EmailService

  const AllFieldsRequired := "All fields are required."
  const RegistrationSent := "Registration successful! Please check your email to verify your account."
  const RegistrationMailFailed := "Registration failed. Unable to send verification email. Please try again."
  const AlreadyRegistered := "User already exists with this email"
  const DuplicateEmail := "User already exists with this email."
  const RegistrationError := "Server error during registration."
  const InvalidCredentials := "Invalid email or password"
  const UseGoogle := "This account uses Google Sign-In. Please use the Google button below."
  const VerifyFirst := "Please verify your email address before logging in."
  const LoginError := "Server error during login."
  const LoggedOut := "Logged out successfully"
  const LogoutFailed := "Logout failed"
  const EmailRequired := "Email is required"
  const UserNotFound := "User not found"
  const GoogleEmailFixed := "Google users cannot update their email address. Email is managed by Google."
  const InvalidEmail := "Please enter a valid email address"
  const SameEmail := "This is already your current email address"
  const EmailTaken := "An account with this email already exists"
  const EmailUpdated := "Email updated successfully! Please check your new email address to verify it."
  const DeletePasswordRequired := "Password is required to delete your account"
  const DeletePasswordWrong := "Invalid password. Please check your password and try again."
  const AccountDeleted := "Account deleted successfully. We're sorry to see you go!"

  /** Deleting the record just inserted restores the collection. */
  lemma AddThenRemove(m: map<Id, Account>, k: Id, v: Account)
    requires k !in m
    ensures m[k := v] - {k} == m
  {
    assert (m[k := v] - {k}).Keys == m.Keys;
  }

  /** Deleting a record just overwritten is deleting the original. */
  lemma UpdateThenRemove(m: map<Id, Account>, k: Id, v: Account)
    ensures m[k := v] - {k} == m - {k}
  {
    assert (m[k := v] - {k}).Keys == (m - {k}).Keys;
  }

  /** The mail a send produced, if it produced one. */
  function Sent(r: Result<Mail, string>): (m: Option<Mail>)
    ensures m.Some? <==> r.Ok?
    ensures m.Some? ==> m.value == r.value
  {
    if r.Ok? then Some(r.value) else None
  }

  /** What a 201 from registerUser leaves behind: an unverified account under the address, with the mail sent for it. */
  ghost predicate RegisteredUnverified(m: map<Id, Account>, reply: Reply, password: string, mail: Option<Mail>,
                                       env: Env, nowMs: nat, delivered: bool)
  {
    && reply.detail.RequiresVerification?
    && exists id | id in m ::
         && m[id].email == reply.detail.email && !m[id].emailVerified
         && m[id].password == Some(Bcrypt(Bcrypt(Plain(password))))
         && mail == Sent(SendVerificationEmail(id, m[id].email, env, nowMs, delivered))
  }

  /** The account under `id` witnesses RegisteredUnverified. */
  lemma RegisteredAt(m: map<Id, Account>, id: Id, reply: Reply, password: string, mail: Option<Mail>,
                     env: Env, nowMs: nat, delivered: bool)
    requires id in m && reply.detail.RequiresVerification? && m[id].email == reply.detail.email
    requires !m[id].emailVerified && m[id].password == Some(Bcrypt(Bcrypt(Plain(password))))
    requires mail == Sent(SendVerificationEmail(id, m[id].email, env, nowMs, delivered))
    ensures RegisteredUnverified(m, reply, password, mail, env, nowMs, delivered)
  {
  }

  /**
   * registerUser. When the mail cannot be sent, the record createUnverifiedUser
   * returned is deleted, whether it was just created or recycled from an
   * earlier unverified registration.
   */
  method RegisterUser(store: AccountStore, name: Option<string>, email: Option<string>, password: Option<string>,
                      env: Env, nowMs: nat, delivered: bool) returns (reply: Reply, mail: Option<Mail>)
    requires store.Valid()
    modifies store
    ensures store.Valid()
    ensures reply.status in {201, 400, 500}
    ensures reply.status == 201 <==> mail.Some?
    ensures reply.status == 201 ==>
              && Truthy(name) && Truthy(email) && Truthy(password)
              && reply.detail.RequiresVerification?
              && reply.detail.email in {ToLower(email.value), NormalizeEmail(email.value)}
              && RegisteredUnverified(store.accounts, reply, password.value, mail, env, nowMs, delivered)
    ensures !Truthy(name) || !Truthy(email) || !Truthy(password) ==>
              reply == Fail(400, AllFieldsRequired) && store.accounts == old(store.accounts)
    ensures Truthy(name) && Truthy(email) && Truthy(password) && !ValidatePassword(password).isValid ==>
              reply == Fail(400, ValidatePassword(password).message) && store.accounts == old(store.accounts)
    ensures Truthy(name) && Truthy(email) && ValidatePassword(password).isValid ==>
      var found := FindByEmail(old(store.accounts), old(store.nextId), ToLower(email.value));
      found.Some? && old(store.accounts)[found.value].emailVerified ==>
        reply == Fail(400, AlreadyRegistered) && store.accounts == old(store.accounts)
    ensures Truthy(name) && Truthy(email) && ValidatePassword(password).isValid ==>
      var found := FindByEmail(old(store.accounts), old(store.nextId), ToLower(email.value));
      found.Some? && !old(store.accounts)[found.value].emailVerified ==>
        var a := old(store.accounts)[found.value];
        var send := SendVerificationEmail(found.value, a.email, env, nowMs, delivered);
        if send.Ok? then
          && reply == Reply(201, RegistrationSent, RequiresVerification(a.email))
          && mail == Some(send.value)
          && store.accounts == old(store.accounts)[found.value := PreSave(Recycled(a, name.value, password.value), true)]
        else
          reply == Fail(500, RegistrationMailFailed) && store.accounts == old(store.accounts) - {found.value}
    ensures Truthy(name) && Truthy(email) && ValidatePassword(password).isValid &&
            FindByEmail(old(store.accounts), old(store.nextId), ToLower(email.value)).None? ==>
      var draft := NewLocalDraft(name.value, email.value, password.value);
      && (!SchemaValid(draft) ==> reply == Fail(500, RegistrationError) && store.accounts == old(store.accounts))
      && (SchemaValid(draft) && (exists j | j in old(store.accounts) :: old(store.accounts)[j].email == draft.email) ==>
            reply == Fail(400, DuplicateEmail) && store.accounts == old(store.accounts))
    ensures Truthy(name) && Truthy(email) && ValidatePassword(password).isValid &&
            FindByEmail(old(store.accounts), old(store.nextId), ToLower(email.value)).None? ==>
      var draft := NewLocalDraft(name.value, email.value, password.value);
      var send := SendVerificationEmail(old(store.nextId), draft.email, env, nowMs, delivered);
      SchemaValid(draft) && (forall j | j in old(store.accounts) :: old(store.accounts)[j].email != draft.email) ==>
        if send.Ok? then
          && reply == Reply(201, RegistrationSent, RequiresVerification(draft.email))
          && mail == Some(send.value)
          && store.accounts == old(store.accounts)[old(store.nextId) :=
                                 PreSave(draft.(id := old(store.nextId), createdAt := nowMs), true)]
        else
          reply == Fail(500, RegistrationMailFailed) && store.accounts == old(store.accounts)
  {
    mail := None;
    if !Truthy(name) || !Truthy(email) || !Truthy(password) {
      return Fail(400, AllFieldsRequired), None;
    }
    var check := ValidatePassword(password);
    if !check.isValid {
      return Fail(400, check.message), None;
    }
    // The first step of createUnverifiedUser, taken here so that each of its two
    // outcomes is followed by its own method; the call itself is made by both.
    var found := FindByEmail(store.accounts, store.nextId, ToLower(email.value));
    if found.Some? {
      reply, mail := RegisterOverRecord(store, found.value, name.value, email.value, password.value, env, nowMs, delivered);
    } else {
      reply, mail := RegisterNewRecord(store, name.value, email.value, password.value, env, nowMs, delivered);
    }
  }

  /** The reply registerUser gives for each way createUnverifiedUser can fail. */
  function CreationFailure(e: CreateFailure): (r: Reply)
    ensures r.status in {400, 500}
    ensures r.status == 400 <==> e == AlreadyExists || e == DuplicateKey
    ensures e == AlreadyExists ==> r == Fail(400, AlreadyRegistered)
    ensures e == DuplicateKey ==> r == Fail(400, DuplicateEmail)
    ensures e != AlreadyExists && e != DuplicateKey ==> r == Fail(500, RegistrationError)
  {
    if e == AlreadyExists then Fail(400, AlreadyRegistered)
    else if e == DuplicateKey then Fail(400, DuplicateEmail)
    else Fail(500, RegistrationError)
  }

  /** registerUser from the call on, for an address some record already holds (found). */
  method RegisterOverRecord(store: AccountStore, found: Id, name: string, email: string, password: string,
                            env: Env, nowMs: nat, delivered: bool) returns (reply: Reply, mail: Option<Mail>)
    requires store.Valid() && name != "" && password != ""
    requires FindByEmail(store.accounts, store.nextId, ToLower(email)) == Some(found)
    modifies store
    ensures store.Valid()
    ensures reply.status in {201, 400, 500}
    ensures reply.status == 201 <==> mail.Some?
    ensures reply.status == 201 ==> RegisteredUnverified(store.accounts, reply, password, mail, env, nowMs, delivered)
    ensures old(store.accounts)[found].emailVerified ==>
              reply == Fail(400, AlreadyRegistered) && store.accounts == old(store.accounts)
    ensures !old(store.accounts)[found].emailVerified ==>
      var a := old(store.accounts)[found];
      var send := SendVerificationEmail(found, a.email, env, nowMs, delivered);
      if send.Ok? then
        && reply == Reply(201, RegistrationSent, RequiresVerification(a.email))
        && mail == Some(send.value)
        && store.accounts == old(store.accounts)[found := PreSave(Recycled(a, name, password), true)]
      else
        reply == Fail(500, RegistrationMailFailed) && store.accounts == old(store.accounts) - {found}
  {
    EmailLookup(store.accounts, store.nextId, ToLower(email));
    var created := store.CreateUnverifiedUser(name, email, password, nowMs);
    if created.Err? {
      return CreationFailure(created.error), None;
    }
    assert created.value == found;
    ghost var recycled := store.accounts[found];
    assert store.accounts == old(store.accounts)[found := recycled];
    assert recycled.password == Some(Bcrypt(Bcrypt(Plain(password)))) && !recycled.emailVerified;
    reply, mail := SendOrRollBack(store, found, env, nowMs, delivered);
    if reply.status == 201 {
      assert store.accounts[found] == recycled;
      RegisteredAt(store.accounts, found, reply, password, mail, env, nowMs, delivered);
    } else {
      UpdateThenRemove(old(store.accounts), found, recycled);
    }
  }

  /** registerUser from the call on, for an address no record holds. */
  method RegisterNewRecord(store: AccountStore, name: string, email: string, password: string,
                           env: Env, nowMs: nat, delivered: bool) returns (reply: Reply, mail: Option<Mail>)
    requires store.Valid() && password != ""
    requires FindByEmail(store.accounts, store.nextId, ToLower(email)).None?
    modifies store
    ensures store.Valid()
    ensures reply.status in {201, 400, 500}
    ensures reply.status == 201 <==> mail.Some?
    ensures reply.status == 201 ==> RegisteredUnverified(store.accounts, reply, password, mail, env, nowMs, delivered)
    ensures var draft := NewLocalDraft(name, email, password);
      && (!SchemaValid(draft) ==> reply == Fail(500, RegistrationError) && store.accounts == old(store.accounts))
      && (SchemaValid(draft) && (exists j | j in old(store.accounts) :: old(store.accounts)[j].email == draft.email) ==>
            reply == Fail(400, DuplicateEmail) && store.accounts == old(store.accounts))
    ensures var draft := NewLocalDraft(name, email, password);
      var send := SendVerificationEmail(old(store.nextId), draft.email, env, nowMs, delivered);
      SchemaValid(draft) && (forall j | j in old(store.accounts) :: old(store.accounts)[j].email != draft.email) ==>
        if send.Ok? then
          && reply == Reply(201, RegistrationSent, RequiresVerification(draft.email))
          && mail == Some(send.value)
          && store.accounts == old(store.accounts)[old(store.nextId) :=
                                 PreSave(draft.(id := old(store.nextId), createdAt := nowMs), true)]
        else
          reply == Fail(500, RegistrationMailFailed) && store.accounts == old(store.accounts)
  {
    EmailLookup(store.accounts, store.nextId, ToLower(email));
    ghost var before := store.accounts;
    ghost var draft := NewLocalDraft(name, email, password);
    var created := store.CreateUnverifiedUser(name, email, password, nowMs);
    if created.Err? {
      assert created.error != AlreadyExists;
      assert store.accounts == before;
      reply, mail := CreationFailure(created.error), None;
      assert reply.status != 201;
      return;
    }
    var id := created.value;
    ghost var stored := PreSave(draft.(id := id, createdAt := nowMs), true);
    assert id == old(store.nextId) && id !in before && store.accounts == before[id := stored];
    assert stored.email == draft.email && !stored.emailVerified;
    assert stored.password == Some(Bcrypt(Bcrypt(Plain(password))));
    reply, mail := SendOrRollBack(store, id, env, nowMs, delivered);
    if reply.status == 201 {
      assert store.accounts[id] == stored;
      RegisteredAt(store.accounts, id, reply, password, mail, env, nowMs, delivered);
    } else {
      AddThenRemove(before, id, stored);
    }
  }

  /**
   * The end of registerUser: the verification mail for the record just created
   * or recycled goes out with a 201, or the record is deleted and the reply is a 500.
   */
  method SendOrRollBack(store: AccountStore, id: Id, env: Env, nowMs: nat, delivered: bool)
    returns (reply: Reply, mail: Option<Mail>)
    requires store.Valid() && id in store.accounts
    modifies store
    ensures store.Valid() && store.nextId == old(store.nextId)
    ensures reply.status == 201 <==> mail.Some?
    ensures var a := old(store.accounts)[id];
            var send := SendVerificationEmail(id, a.email, env, nowMs, delivered);
            if send.Ok? then
              && reply == Reply(201, RegistrationSent, RequiresVerification(a.email))
              && mail == Some(send.value) && store.accounts == old(store.accounts)
            else
              && reply == Fail(500, RegistrationMailFailed) && mail.None?
              && store.accounts == old(store.accounts) - {id}
  {
    var send := SendVerificationEmail(id, store.accounts[id].email, env, nowMs, delivered);
    if send.Ok? {
      return Reply(201, RegistrationSent, RequiresVerification(store.accounts[id].email)), Some(send.value);
    }
    store.Delete(id);
    reply, mail := Fail(500, RegistrationMailFailed), None;
  }

  /** The record loginUser saves: the new refresh token appended, the login time set. */
  function LoggedIn(a: Account, refreshToken: Token, nowMs: nat): (r: Account)
    ensures r.refreshTokens == a.refreshTokens + [refreshToken] && r.lastLoginAt == Some(nowMs)
    ensures r == a.(refreshTokens := r.refreshTokens, lastLoginAt := r.lastLoginAt)
  {
    a.(refreshTokens := a.refreshTokens + [refreshToken], lastLoginAt := Some(nowMs))
  }

  /**
   * loginUser. A missing e-mail makes normalizeEmail throw, and a missing
   * password makes bcrypt.compare throw; both end in the 500.
   */
  method LoginUser(store: AccountStore, email: Option<string>, password: Option<string>, env: Env, nowMs: nat)
    returns (reply: Reply)
    requires store.Valid()
    modifies store
    ensures store.Valid() && store.nextId == old(store.nextId)
    ensures reply.status in {200, 400, 500}
    ensures email.None? ==> reply == Fail(500, LoginError)
    ensures email.Some? && FindByEmail(old(store.accounts), old(store.nextId), NormalizeEmail(email.value)).None? ==>
              reply == Fail(400, InvalidCredentials)
    ensures email.Some? ==>
      var found := FindByEmail(old(store.accounts), old(store.nextId), NormalizeEmail(email.value));
      found.Some? ==>
        var a := old(store.accounts)[found.value];
        if a.authProvider == Google && !HasPassword(a) then reply == Reply(400, UseGoogle, UseGoogleAuth)
        else if ComparePassword(a, password) == IllegalArguments then reply == Fail(500, LoginError)
        else if ComparePassword(a, password) == NoMatch then reply == Fail(400, InvalidCredentials)
        else if !a.emailVerified then reply == Reply(400, VerifyFirst, RequiresVerification(a.email))
        else if GenerateTokens(found.value, env, nowMs).None? then reply == Fail(500, LoginError)
        else
          var pair := GenerateTokens(found.value, env, nowMs).value;
          var saved := LoggedIn(a, pair.refreshToken, nowMs);
          && reply == Reply(200, "", Session(pair.accessToken, pair.refreshToken, ToPublic(saved)))
          && store.accounts == old(store.accounts)[found.value := saved]
    ensures reply.status != 200 ==> store.accounts == old(store.accounts)
  {
    if email.None? {
      return Fail(500, LoginError);
    }
    var found := FindByEmail(store.accounts, store.nextId, NormalizeEmail(email.value));
    if found.None? {
      return Fail(400, InvalidCredentials);
    }
    var user := store.accounts[found.value];
    if user.authProvider == Google && !HasPassword(user) {
      return Reply(400, UseGoogle, UseGoogleAuth);
    }
    if user.authProvider == Local || HasPassword(user) {
      var isMatch := ComparePassword(user, password);
      if isMatch == IllegalArguments {
        return Fail(500, LoginError);
      }
      if isMatch == NoMatch {
        return Fail(400, InvalidCredentials);
      }
    }
    if !user.emailVerified {
      return Reply(400, VerifyFirst, RequiresVerification(user.email));
    }
    var tokens := GenerateTokens(found.value, env, nowMs);
    if tokens.None? {
      return Fail(500, LoginError);
    }
    var saved := LoggedIn(user, tokens.value.refreshToken, nowMs);
    store.Save(saved, false);
    reply := Reply(200, "", Session(tokens.value.accessToken, tokens.value.refreshToken, ToPublic(saved)));
  }

  /** A request-body token that JavaScript treats as true: present and not the empty string. */
  predicate Present(t: Option<Token>) {
    t.Some? && t.value != Malformed("")
  }

  /** refreshTokens.filter(token => token !== refreshToken) */
  function Without(tokens: seq<Token>, t: Token): (r: seq<Token>)
    ensures forall x :: x in r <==> x in tokens && x != t
    ensures |r| <= |tokens|
    ensures t !in tokens ==> r == tokens
  {
    if tokens == [] then []
    else if tokens[0] == t then Without(tokens[1..], t)
    else [tokens[0]] + Without(tokens[1..], t)
  }

  /** The filter keeps the order of the tokens it keeps: it distributes over concatenation. */
  lemma {:induction false} WithoutKeepsOrder(a: seq<Token>, b: seq<Token>, t: Token)
    ensures Without(a + b, t) == Without(a, t) + Without(b, t)
  {
    if a == [] {
      assert a + b == b;
    } else {
      assert (a + b)[1..] == a[1..] + b;
      WithoutKeepsOrder(a[1..], b, t);
    }
  }

  /** Removing a token a second time changes nothing. */
  lemma {:induction false} WithoutIdempotent(tokens: seq<Token>, t: Token)
    ensures Without(Without(tokens, t), t) == Without(tokens, t)
  {
    if tokens != [] {
      WithoutIdempotent(tokens[1..], t);
      if tokens[0] != t {
        assert ([tokens[0]] + Without(tokens[1..], t))[1..] == Without(tokens[1..], t);
      }
    }
  }

  /**
   * logoutUser, for the account the session guard resolved (req.user.id).
   * Every copy of the given refresh token is dropped; without one nothing is
   * looked up. An account deleted since the guard ran makes the handler throw.
   */
  method LogoutUser(store: AccountStore, userId: Id, refreshToken: Option<Token>) returns (reply: Reply)
    requires store.Valid()
    modifies store
    ensures store.Valid() && store.nextId == old(store.nextId)
    ensures !Present(refreshToken) ==> reply == Reply(200, LoggedOut, NoDetail) && store.accounts == old(store.accounts)
    ensures Present(refreshToken) && userId !in old(store.accounts) ==>
              reply == Fail(500, LogoutFailed) && store.accounts == old(store.accounts)
    ensures Present(refreshToken) && userId in old(store.accounts) ==>
              && reply == Reply(200, LoggedOut, NoDetail)
              && var a := old(store.accounts)[userId];
                 store.accounts == old(store.accounts)[userId := a.(refreshTokens := Without(a.refreshTokens, refreshToken.value))]
  {
    if Present(refreshToken) {
      if userId !in store.accounts {
        return Fail(500, LogoutFailed);
      }
      var user := store.accounts[userId];
      store.Save(user.(refreshTokens := Without(user.refreshTokens, refreshToken.value)), false);
    }
    reply := Reply(200, LoggedOut, NoDetail);
  }

  /**
   * updateUserEmail, for the account the session guard resolved. The new
   * address is saved unverified before the mail goes out, and a failed send
   * does not change the reply.
   */
  method UpdateUserEmail(store: AccountStore, userId: Id, email: Option<string>, env: Env, nowMs: nat, delivered: bool)
    returns (reply: Reply, mail: Option<Mail>)
    requires store.Valid()
    modifies store
    ensures store.Valid() && store.nextId == old(store.nextId)
    ensures reply.status in {200, 400, 404, 409}
    ensures reply.status != 200 ==> store.accounts == old(store.accounts) && mail.None?
    ensures !Truthy(email) ==> reply == Fail(400, EmailRequired)
    ensures Truthy(email) && userId !in old(store.accounts) ==> reply == Fail(404, UserNotFound)
    ensures Truthy(email) && userId in old(store.accounts) ==>
      var a := old(store.accounts)[userId];
      var e := NormalizeEmail(email.value);
      if Truthy(a.googleId) || a.authProvider == Google then reply == Fail(400, GoogleEmailFixed)
      else if !IsValidEmail(e) then reply == Fail(400, InvalidEmail)
      else if a.email == e then reply == Fail(400, SameEmail)
      else if exists j | j in old(store.accounts) :: old(store.accounts)[j].email == e then reply == Fail(409, EmailTaken)
      else
        && reply == Reply(200, EmailUpdated, NewEmail(e))
        && store.accounts == old(store.accounts)[userId := a.(email := e, emailVerified := false, emailVerifiedAt := None)]
        && mail == Sent(SendVerificationEmail(userId, e, env, nowMs, delivered))
  {
    mail := None;
    if !Truthy(email) {
      return Fail(400, EmailRequired), None;
    }
    if userId !in store.accounts {
      return Fail(404, UserNotFound), None;
    }
    var user := store.accounts[userId];
    if Truthy(user.googleId) || user.authProvider == Google {
      return Fail(400, GoogleEmailFixed), None;
    }
    var trimmedEmail := NormalizeEmail(email.value);
    if !IsValidEmail(trimmedEmail) {
      return Fail(400, InvalidEmail), None;
    }
    if user.email == trimmedEmail {
      return Fail(400, SameEmail), None;
    }
    EmailLookup(store.accounts, store.nextId, trimmedEmail);
    if FindByEmail(store.accounts, store.nextId, trimmedEmail).Some? {
      return Fail(409, EmailTaken), None;
    }
    store.Save(user.(email := trimmedEmail, emailVerified := false, emailVerifiedAt := None), false);
    mail := Sent(SendVerificationEmail(userId, trimmedEmail, env, nowMs, delivered));
    reply := Reply(200, EmailUpdated, NewEmail(trimmedEmail));
  }

  /**
   * deleteAccount, for the account the session guard resolved. Only a local
   * account with a password has to confirm it; a Google account, linked or
   * not, is deleted on request.
   */
  method DeleteAccount(store: AccountStore, userId: Id, password: Option<string>) returns (reply: Reply)
    requires store.Valid()
    modifies store
    ensures store.Valid() && store.nextId == old(store.nextId)
    ensures reply.status in {200, 400, 404}
    ensures reply.status == 200 <==>
              userId in old(store.accounts) &&
              var a := old(store.accounts)[userId];
              (a.authProvider == Local && HasPassword(a) ==> Truthy(password) && ComparePassword(a, password) == Match)
    ensures reply.status == 200 ==> reply == Reply(200, AccountDeleted, Deleted) && store.accounts == old(store.accounts) - {userId}
    ensures reply.status != 200 ==> store.accounts == old(store.accounts)
    ensures userId !in old(store.accounts) ==> reply == Fail(404, UserNotFound)
    ensures userId in old(store.accounts) && old(store.accounts)[userId].authProvider == Local &&
            HasPassword(old(store.accounts)[userId]) ==>
              (!Truthy(password) ==> reply == Fail(400, DeletePasswordRequired)) &&
              (Truthy(password) && ComparePassword(old(store.accounts)[userId], password) != Match ==>
                 reply == Fail(400, DeletePasswordWrong))
  {
    if userId !in store.accounts {
      return Fail(404, UserNotFound);
    }
    var user := store.accounts[userId];
    if user.authProvider == Local && HasPassword(user) {
      if !Truthy(password) {
        return Fail(400, DeletePasswordRequired);
      }
      var isPasswordValid := ComparePassword(user, password);
      if isPasswordValid != Match {
        return Fail(400, DeletePasswordWrong);
      }
    }
    store.Delete(userId);
    reply := Reply(200, AccountDeleted, Deleted);
  }
}
