/**
 * controllers/emailController.js: confirming an address with the token from
 * the verification mail, and sending that mail again.
 */
module EmailController {
  import opened Wrappers
  import opened Jwt
  import opened AuthUtils
  import opened UserModel
  import opened Http
  import opened EmailService
  import UserController

  const TokenRequired := "Verification token is required."
  const TokenRefused := "Invalid or expired verification token. Please request a new verification email."
  const UserNotFound := "User not found."
  const WrongAddress := "Invalid verification token."
  const AlreadyVerifiedMessage := "Email is already verified."
  const Verified := "Email verified successfully! Welcome to KashKeeper!"
  const VerificationError := "Server error during email verification."
  const EmailRequired := "Email is required."
  const NoSuchAccount := "No account found with this email address."
  const PleaseWait := "Please wait before requesting another verification email."
  const ResendFailed := "Failed to send verification email. Please try again."
  const Resent := "Verification email sent! Please check your inbox."
  const ResendWindowMs := 60000

  /**
   * verifyEmail. The account is marked verified and saved before the session
   * tokens are signed, so when signing fails the reply is a 500 and the
   * account stays verified. The welcome mail's fate never reaches the reply.
   */
  method VerifyEmail(store: AccountStore, token: Option<Token>, env: Env, nowMs: nat, delivered: bool)
    returns (reply: Reply, welcome: Option<Mail>)
    requires store.Valid()
    modifies store
    ensures store.Valid() && store.nextId == old(store.nextId)
    ensures reply.status in {200, 400, 404, 500}
    ensures reply.status in {400, 404} ==> store.accounts == old(store.accounts) && welcome.None?
    ensures !UserController.Present(token) ==> reply == Fail(400, TokenRequired)
    ensures UserController.Present(token) && VerifyEmailToken(token.value, env, nowMs).Err? ==>
              reply == Reply(400, TokenRefused, Expired)
    ensures UserController.Present(token) && VerifyEmailToken(token.value, env, nowMs).Ok? ==>
      var claims := VerifyEmailToken(token.value, env, nowMs).value;
      if claims.userId.None? || claims.userId.value !in old(store.accounts) then reply == Fail(404, UserNotFound)
      else
        var a := old(store.accounts)[claims.userId.value];
        if claims.email != Some(a.email) then reply == Fail(400, WrongAddress)
        else if a.emailVerified then reply == Reply(400, AlreadyVerifiedMessage, AlreadyVerified)
        else
          var marked := MarkEmailAsVerified(a, nowMs);
          && welcome == SendWelcomeEmail(a.email, delivered)
          && if GenerateTokens(a.id, env, nowMs).None? then
               reply == Fail(500, VerificationError) && store.accounts == old(store.accounts)[a.id := marked]
             else
               var pair := GenerateTokens(a.id, env, nowMs).value;
               var saved := UserController.LoggedIn(marked, pair.refreshToken, nowMs);
               && reply == Reply(200, Verified, Session(pair.accessToken, pair.refreshToken, ToPublic(saved)))
               && store.accounts == old(store.accounts)[a.id := saved]
  {
    welcome := None;
    if !UserController.Present(token) {
      return Fail(400, TokenRequired), None;
    }
    var decoded := VerifyEmailToken(token.value, env, nowMs);
    if decoded.Err? {
      return Reply(400, TokenRefused, Expired), None;
    }
    var userId := decoded.value.userId;
    if userId.None? || userId.value !in store.accounts {
      return Fail(404, UserNotFound), None;
    }
    var user := store.accounts[userId.value];
    if decoded.value.email != Some(user.email) {
      return Fail(400, WrongAddress), None;
    }
    if user.emailVerified {
      return Reply(400, AlreadyVerifiedMessage, AlreadyVerified), None;
    }
    var marked := MarkEmailAsVerified(user, nowMs);
    store.Save(marked, false);
    welcome := SendWelcomeEmail(user.email, delivered);
    var tokens := GenerateTokens(user.id, env, nowMs);
    if tokens.None? {
      return Fail(500, VerificationError), welcome;
    }
    var saved := UserController.LoggedIn(marked, tokens.value.refreshToken, nowMs);
    store.Save(saved, false);
    reply := Reply(200, Verified, Session(tokens.value.accessToken, tokens.value.refreshToken, ToPublic(saved)));
  }

  /**
   * resendVerification. The wait is measured from emailVerificationExpires,
   * which no operation ever sets, so on a store that keeps its invariant the
   * 429 branch is never taken. The handler only reads the store.
   */
  method ResendVerification(store: AccountStore, email: Option<string>, env: Env, nowMs: nat, delivered: bool)
    returns (reply: Reply, mail: Option<Mail>)
    ensures store.Valid() ==> reply.status in {200, 400, 404, 500}
    ensures reply.status == 200 <==> mail.Some?
    ensures !Truthy(email) ==> reply == Fail(400, EmailRequired)
    ensures Truthy(email) ==>
      var found := FindByEmail(store.accounts, store.nextId, NormalizeEmail(email.value));
      if found.None? then reply == Fail(404, NoSuchAccount)
      else
        var a := store.accounts[found.value];
        var send := SendVerificationEmail(a.id, a.email, env, nowMs, delivered);
        if a.emailVerified then reply == Reply(400, AlreadyVerifiedMessage, AlreadyVerified)
        else if a.emailVerificationExpires.Some? && nowMs - a.emailVerificationExpires.value < ResendWindowMs then
          reply == Reply(429, PleaseWait, WaitTime(60))
        else if send.Err? then reply == Fail(500, ResendFailed)
        else reply == Reply(200, Resent, SentTo(a.email)) && mail == Some(send.value)
  {
    mail := None;
    if !Truthy(email) {
      return Fail(400, EmailRequired), None;
    }
    var found := FindByEmail(store.accounts, store.nextId, NormalizeEmail(email.value));
    if found.None? {
      return Fail(404, NoSuchAccount), None;
    }
    var user := store.accounts[found.value];
    if user.emailVerified {
      return Reply(400, AlreadyVerifiedMessage, AlreadyVerified), None;
    }
    var lastVerificationSent := user.emailVerificationExpires;
    if lastVerificationSent.Some? && nowMs - lastVerificationSent.value < ResendWindowMs {
      return Reply(429, PleaseWait, WaitTime(60)), None;
    }
    var send := SendVerificationEmail(user.id, user.email, env, nowMs, delivered);
    if send.Err? {
      return Fail(500, ResendFailed), None;
    }
    reply := Reply(200, Resent, SentTo(user.email));
    mail := Some(send.value);
  }
}
