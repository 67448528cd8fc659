/**
 * controllers/passwordController.js: requesting a reset link and setting a new
 * password with it. The random reset token is a parameter.
 */
module PasswordController {
  import opened Wrappers
  import opened Jwt
  import opened AuthUtils
  import opened UserModel
  import opened Http
  import opened EmailService

  const EmailRequired := "Email is required"
  const LinkSent := "If an account with that email exists, we have sent a password reset link."
  const GoogleNoReset := "Google users cannot reset their password. Please sign in with Google."
  const ResetMailFailed := "Failed to send password reset email. Please try again."
  const TokenAndPasswordRequired := "Token and password are required"
  const ResetRefused := "Invalid or expired password reset token. Please request a new password reset."
  const PasswordChanged := "Password reset successfully! You can now log in with your new password."

  /** The record after a failed reset mail: both reset fields unset, whatever they held before. */
  function ResetCleared(a: Account): (r: Account)
    ensures r.passwordResetToken.None? && r.passwordResetExpires.None?
    ensures r == a.(passwordResetToken := None, passwordResetExpires := None)
  {
    a.(passwordResetToken := None, passwordResetExpires := None)
  }

  /**
   * forgotPassword. `raw` stands for crypto.randomBytes(32) in hex. An unknown
   * address gets the same reply as a known one whose mail went out.
   */
  method ForgotPassword(store: AccountStore, email: Option<string>, raw: string, env: Env, nowMs: nat, delivered: bool)
    returns (reply: Reply, mail: Option<Mail>)
    requires store.Valid()
    modifies store
    ensures store.Valid() && store.nextId == old(store.nextId)
    ensures reply.status in {200, 400, 500}
    ensures reply.status == 200 ==> reply == Reply(200, LinkSent, NoDetail)
    ensures !Truthy(email) ==> reply == Fail(400, EmailRequired) && store.accounts == old(store.accounts)
    ensures Truthy(email) && FindByEmail(old(store.accounts), old(store.nextId), NormalizeEmail(email.value)).None? ==>
              reply == Reply(200, LinkSent, NoDetail) && store.accounts == old(store.accounts) && mail.None?
    ensures Truthy(email) ==>
      var found := FindByEmail(old(store.accounts), old(store.nextId), NormalizeEmail(email.value));
      found.Some? && (Truthy(old(store.accounts)[found.value].googleId) || old(store.accounts)[found.value].authProvider == Google) ==>
        reply == Fail(400, GoogleNoReset) && store.accounts == old(store.accounts) && mail.None?
    ensures Truthy(email) ==>
      var found := FindByEmail(old(store.accounts), old(store.nextId), NormalizeEmail(email.value));
      found.Some? && !Truthy(old(store.accounts)[found.value].googleId) && old(store.accounts)[found.value].authProvider == Local ==>
        var a := old(store.accounts)[found.value];
        if delivered then
          && reply == Reply(200, LinkSent, NoDetail)
          && mail == Some(SendPasswordResetEmail(a.email, raw, env, delivered).value)
          && store.accounts == old(store.accounts)[found.value := CreatePasswordResetToken(a, raw, nowMs)]
        else
          && reply == Fail(500, ResetMailFailed) && mail.None?
          && store.accounts == old(store.accounts)[found.value := ResetCleared(a)]
  {
    mail := None;
    if !Truthy(email) {
      return Fail(400, EmailRequired), None;
    }
    var trimmedEmail := NormalizeEmail(email.value);
    var found := FindByEmail(store.accounts, store.nextId, trimmedEmail);
    if found.None? {
      return Reply(200, LinkSent, NoDetail), None;
    }
    var user := store.accounts[found.value];
    if Truthy(user.googleId) || user.authProvider == Google {
      return Fail(400, GoogleNoReset), None;
    }
    assert user.id == found.value;
    reply, mail := IssueResetLink(store, found.value, raw, env, nowMs, delivered);
  }

  /**
   * The second half of forgotPassword for a local account: the reset digest is
   * stored, the link mailed, and on a failed mail both reset fields are cleared.
   */
  method IssueResetLink(store: AccountStore, id: Id, raw: string, env: Env, nowMs: nat, delivered: bool)
    returns (reply: Reply, mail: Option<Mail>)
    requires store.Valid() && id in store.accounts
    modifies store
    ensures store.Valid() && store.nextId == old(store.nextId)
    ensures delivered ==>
              && reply == Reply(200, LinkSent, NoDetail)
              && mail == Some(SendPasswordResetEmail(old(store.accounts)[id].email, raw, env, delivered).value)
              && store.accounts == old(store.accounts)[id := CreatePasswordResetToken(old(store.accounts)[id], raw, nowMs)]
    ensures !delivered ==>
              && reply == Fail(500, ResetMailFailed) && mail.None?
              && store.accounts == old(store.accounts)[id := ResetCleared(old(store.accounts)[id])]
  {
    var user := store.accounts[id];
    var withToken := CreatePasswordResetToken(user, raw, nowMs);
    KeysKeptFits(store.accounts, store.nextId, withToken);
    store.Save(withToken, false);
    var send := SendPasswordResetEmail(user.email, raw, env, delivered);
    if send.Ok? {
      return Reply(200, LinkSent, NoDetail), Some(send.value);
    }
    assert ResetCleared(withToken) == ResetCleared(user);
    ghost var written := store.accounts;
    KeysKeptFits(store.accounts, store.nextId, ResetCleared(withToken));
    store.Save(ResetCleared(withToken), false);
    assert store.accounts == written[id := ResetCleared(user)];
    reply, mail := Fail(500, ResetMailFailed), None;
  }

  /** The record resetPassword hands to save: the new password as text, both reset fields unset. */
  function PasswordAssigned(a: Account, password: string): (r: Account)
    ensures r.password == Some(Plain(password)) && r.passwordResetToken.None? && r.passwordResetExpires.None?
    ensures r == a.(password := r.password, passwordResetToken := None, passwordResetExpires := None)
  {
    a.(password := Some(Plain(password)), passwordResetToken := None, passwordResetExpires := None)
  }

  /**
   * resetPassword. The token is hashed and looked up together with an expiry
   * strictly after now; the new password is assigned as text and hashed once by
   * the pre-save hook.
   */
  method ResetPassword(store: AccountStore, token: Option<string>, password: Option<string>, nowMs: nat)
    returns (reply: Reply)
    requires store.Valid()
    modifies store
    ensures store.Valid() && store.nextId == old(store.nextId)
    ensures reply.status in {200, 400}
    ensures reply.status == 400 ==> store.accounts == old(store.accounts)
    ensures !Truthy(token) || !Truthy(password) ==> reply == Fail(400, TokenAndPasswordRequired)
    ensures Truthy(token) && Truthy(password) && !ValidatePassword(password).isValid ==>
              reply == Fail(400, ValidatePassword(password).message)
    ensures Truthy(token) && ValidatePassword(password).isValid ==>
      var found := FindByResetToken(old(store.accounts), old(store.nextId), Sha256(token.value), nowMs);
      if found.None? then reply == Fail(400, ResetRefused)
      else
        && reply == Reply(200, PasswordChanged, NoDetail)
        && store.accounts == old(store.accounts)[found.value :=
                               PreSave(PasswordAssigned(old(store.accounts)[found.value], password.value), true)]
  {
    if !Truthy(token) || !Truthy(password) {
      return Fail(400, TokenAndPasswordRequired);
    }
    var passwordValidation := ValidatePassword(password);
    if !passwordValidation.isValid {
      return Fail(400, passwordValidation.message);
    }
    var hashedToken := Sha256(token.value);
    var found := FindByResetToken(store.accounts, store.nextId, hashedToken, nowMs);
    if found.None? {
      return Fail(400, ResetRefused);
    }
    var user := store.accounts[found.value];
    store.Save(PasswordAssigned(user, password.value), true);
    reply := Reply(200, PasswordChanged, NoDetail);
  }
}
