/**
 * controllers/authController.js, refreshTokenController: exchanges a stored
 * refresh token for a new pair and keeps only the new refresh token, which
 * ends every other session of the account.
 */
module AuthController {
  import opened Wrappers
  import opened Jwt
  import opened AuthUtils
  import opened UserModel
  import opened Http
  import UserController

  const TokenRequired := "Refresh token required"
  const RefusedToken := "Invalid or expired refresh token"
  const UserNotFound := "User not found"
  const NotStored := "Invalid refresh token"

  /**
   * refreshTokenController. Everything that throws inside the try block,
   * including signing with an unset secret, ends in the same 403.
   */
  method RefreshToken(store: AccountStore, refreshToken: Option<Token>, env: Env, nowMs: nat) returns (reply: Reply)
    requires store.Valid()
    modifies store
    ensures store.Valid() && store.nextId == old(store.nextId)
    ensures reply.status in {200, 400, 403}
    ensures reply.status != 200 ==> store.accounts == old(store.accounts)
    ensures reply.status == 200 ==> reply.detail.Rotated?
    ensures !UserController.Present(refreshToken) ==> reply == Fail(400, TokenRequired)
    ensures UserController.Present(refreshToken) && Verify(refreshToken.value, env.refreshSecret, nowMs).Rejected? ==>
              reply == Fail(403, RefusedToken)
    ensures UserController.Present(refreshToken) && Verify(refreshToken.value, env.refreshSecret, nowMs).Accepted? ==>
      var id := Verify(refreshToken.value, env.refreshSecret, nowMs).claims.id;
      if id.None? || id.value !in old(store.accounts) then reply == Fail(403, UserNotFound)
      else if refreshToken.value !in old(store.accounts)[id.value].refreshTokens then reply == Fail(403, NotStored)
      else if GenerateTokens(id.value, env, nowMs).None? then reply == Fail(403, RefusedToken)
      else
        var pair := GenerateTokens(id.value, env, nowMs).value;
        && reply == Reply(200, "", Rotated(pair.accessToken, pair.refreshToken))
        && store.accounts == old(store.accounts)[id.value := old(store.accounts)[id.value].(refreshTokens := [pair.refreshToken])]
    ensures reply.status == 200 <==>
      && UserController.Present(refreshToken)
      && var v := Verify(refreshToken.value, env.refreshSecret, nowMs);
         v.Accepted? && v.claims.id.Some? && v.claims.id.value in old(store.accounts)
         && refreshToken.value in old(store.accounts)[v.claims.id.value].refreshTokens
         && Usable(env.jwtSecret)
  {
    if !UserController.Present(refreshToken) {
      return Fail(400, TokenRequired);
    }
    var decoded := Verify(refreshToken.value, env.refreshSecret, nowMs);
    if decoded.Rejected? {
      return Fail(403, RefusedToken);
    }
    var id := decoded.claims.id;
    if id.None? || id.value !in store.accounts {
      return Fail(403, UserNotFound);
    }
    var user := store.accounts[id.value];
    if refreshToken.value !in user.refreshTokens {
      return Fail(403, NotStored);
    }
    var tokens := GenerateTokens(user.id, env, nowMs);
    if tokens.None? {
      return Fail(403, RefusedToken);
    }
    store.Save(user.(refreshTokens := [tokens.value.refreshToken]), false);
    reply := Reply(200, "", Rotated(tokens.value.accessToken, tokens.value.refreshToken));
  }

  /**
   * Rotation yields a refresh token different from the one presented exactly
   * when the issuing seconds differ: within one second, signing the same
   * claims with the same secret gives the same token back.
   */
  lemma RotatedTokenIsNew(id: Id, env: Env, issuedMs: nat, nowMs: nat)
    requires GenerateTokens(id, env, issuedMs).Some?
    ensures GenerateTokens(id, env, nowMs).Some?
    ensures GenerateTokens(id, env, nowMs).value.refreshToken == GenerateTokens(id, env, issuedMs).value.refreshToken
            <==> Seconds(nowMs) == Seconds(issuedMs)
  {
  }
}
