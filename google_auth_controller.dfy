/**
 * controllers/googleAuthController.js, googleCallback: after passport has
 * resolved the Google profile to an account, issue a session and redirect to
 * the frontend with the tokens and a summary of the account in the query.
 */
module GoogleAuthController {
  import opened Wrappers
  import opened Jwt
  import opened AuthUtils
  import opened UserModel
  import opened Http

  const DefaultFrontend := "http://localhost:5173"
  const AuthFailed := "Authentication failed. Please try again."

  /** process.env.FRONTEND_URL || 'http://localhost:5173' */
  function FrontendUrl(env: Env): (r: string)
    ensures Truthy(env.frontendUrl) ==> r == env.frontendUrl.value
    ensures !Truthy(env.frontendUrl) ==> r == DefaultFrontend
    ensures r != ""
  {
    if Truthy(env.frontendUrl) then env.frontendUrl.value else DefaultFrontend
  }

  /** The authProvider enum value as stored: 'local' or 'google'. */
  function ProviderName(p: Provider): (r: string)
    ensures r == "local" <==> p == Local
    ensures r == "google" <==> p == Google
  {
    match p
    case Local => "local"
    case Google => "google"
  }

  /** The userData object; JSON.stringify drops an undefined profilePicture. */
  function UserData(a: Account): (r: map<string, Json>)
    ensures r.Keys == {"id", "name", "email", "authProvider", "emailVerified"} + (if a.profilePicture.Some? then {"profilePicture"} else {})
    ensures r["id"] == JNum(a.id) && r["email"] == JStr(a.email) && r["emailVerified"] == JBool(a.emailVerified)
    ensures r["name"] == JStr(a.name) && r["authProvider"] == JStr(ProviderName(a.authProvider))
    ensures a.profilePicture.Some? ==> r["profilePicture"] == JStr(a.profilePicture.value)
  {
    var base := map["id" := JNum(a.id), "name" := JStr(a.name), "email" := JStr(a.email),
                    "authProvider" := JStr(ProviderName(a.authProvider)), "emailVerified" := JBool(a.emailVerified)];
    if a.profilePicture.Some? then base["profilePicture" := JStr(a.profilePicture.value)] else base
  }

  /** Where every failure is sent. */
  function ErrorUrl(env: Env): (r: Url)
    ensures |r| == 2 && r[0] == Text(FrontendUrl(env) + "/login?error=") && r[1] == Encoded(AuthFailed)
    ensures forall k | 0 <= k < |r| :: !r[k].TokenText?
  {
    [Text(FrontendUrl(env) + "/login?error="), Encoded(AuthFailed)]
  }

  /** Where a signed-in account is sent. */
  function SessionUrl(env: Env, pair: TokenPair, a: Account): (r: Url)
    ensures |r| == 6 && r[1] == TokenText(pair.accessToken) && r[3] == TokenText(pair.refreshToken)
    ensures r[0] == Text(FrontendUrl(env) + "/login?token=") && r[5] == EncodedJson(UserData(a))
    ensures r != ErrorUrl(env)
  {
    [Text(FrontendUrl(env) + "/login?token="), TokenText(pair.accessToken), Text("&refreshToken="),
     TokenText(pair.refreshToken), Text("&user="), EncodedJson(UserData(a))]
  }

  /**
   * googleCallback. `user` is the id of the account passport put in req.user.
   * Saving a record that is no longer stored throws, like a missing user or
   * an unset secret, and all of them lead to the error redirect.
   */
  method GoogleCallback(store: AccountStore, user: Option<Id>, env: Env, nowMs: nat) returns (location: Url)
    requires store.Valid()
    modifies store
    ensures store.Valid() && store.nextId == old(store.nextId)
    ensures location == ErrorUrl(env) <==>
              user.None? || user.value !in old(store.accounts) || GenerateTokens(user.value, env, nowMs).None?
    ensures location == ErrorUrl(env) ==> store.accounts == old(store.accounts)
    ensures location != ErrorUrl(env) ==>
      var pair := GenerateTokens(user.value, env, nowMs).value;
      var a := old(store.accounts)[user.value];
      var saved := a.(refreshTokens := a.refreshTokens + [pair.refreshToken]);
      && location == SessionUrl(env, pair, saved)
      && store.accounts == old(store.accounts)[user.value := saved]
  {
    if user.None? || user.value !in store.accounts {
      return ErrorUrl(env);
    }
    var tokens := GenerateTokens(user.value, env, nowMs);
    if tokens.None? {
      return ErrorUrl(env);
    }
    var a := store.accounts[user.value];
    var saved := a.(refreshTokens := a.refreshTokens + [tokens.value.refreshToken]);
    store.Save(saved, false);
    location := SessionUrl(env, tokens.value, saved);
  }
}
