/**
 * middleware/user.auth.js, isLoggedIn: reads the Authorization header, checks
 * the access token and resolves its id to an account. The guard only reads
 * the store, so it is a function of the collection; "next" is called exactly
 * when the outcome is Next, with req.user set to the resolved account.
 */
module SessionGuard {
  import opened Wrappers
  import opened Jwt
  import opened AuthUtils
  import opened UserModel
  import opened Http

  /** Index of the first ' ' in s, or |s| when there is none. */
  function FirstSpace(s: string): (i: nat)
    ensures i <= |s|
    ensures forall k | 0 <= k < i :: s[k] != ' '
    ensures i < |s| ==> s[i] == ' '
  {
    if s == [] || s[0] == ' ' then 0 else 1 + FirstSpace(s[1..])
  }

  /** String.prototype.split(' '): every single space separates two pieces. */
  function Split(s: string): (r: seq<string>)
    decreases |s|
    ensures |r| >= 1
    ensures forall k | 0 <= k < |r| :: ' ' !in r[k]
    ensures r[0] == s[..FirstSpace(s)]
    ensures |r| == 1 <==> ' ' !in s
  {
    var i := FirstSpace(s);
    if i == |s| then [s] else [s[..i]] + Split(s[i + 1..])
  }

  /** Array.prototype.join(' '): the pieces with one space between neighbours. */
  function Join(pieces: seq<string>): string {
    if pieces == [] then "" else if |pieces| == 1 then pieces[0] else pieces[0] + " " + Join(pieces[1..])
  }

  /** Joining the pieces of a split gives the text back. */
  lemma {:induction false} SplitThenJoin(s: string)
    decreases |s|
    ensures Join(Split(s)) == s
  {
    var i := FirstSpace(s);
    if i < |s| {
      var rest := s[i + 1..];
      SplitThenJoin(rest);
      JoinStep(s[..i], Split(rest));
      AroundSpace(s, i);
    }
  }

  lemma AroundSpace(s: string, i: nat)
    requires i < |s| && s[i] == ' '
    ensures s == s[..i] + " " + s[i + 1..]
  {
  }

  lemma JoinStep(first: string, tail: seq<string>)
    requires tail != []
    ensures Join([first] + tail) == first + " " + Join(tail)
  {
    assert ([first] + tail)[1..] == tail;
  }

  /** Splitting a join of space-free pieces gives the pieces back. */
  lemma {:induction false} JoinThenSplit(pieces: seq<string>)
    requires |pieces| >= 1 && forall k | 0 <= k < |pieces| :: ' ' !in pieces[k]
    ensures Split(Join(pieces)) == pieces
  {
    if |pieces| > 1 {
      var s := Join(pieces);
      var n := |pieces[0]|;
      assert s == pieces[0] + " " + Join(pieces[1..]);
      assert s[..n] == pieces[0] && s[n + 1..] == Join(pieces[1..]);
      FirstSpaceAt(s, n);
      JoinThenSplit(pieces[1..]);
    }
  }

  const BearerPrefix := "Bearer "

  /** "Bearer " + rest splits into "Bearer" and the part of rest before its first space. */
  lemma BearerSplit(rest: string)
    ensures |Split(BearerPrefix + rest)| >= 2
    ensures Split(BearerPrefix + rest)[0] == "Bearer"
    ensures Split(BearerPrefix + rest)[1] == rest[..FirstSpace(rest)]
  {
    var h := BearerPrefix + rest;
    assert FirstSpace(h) == 6 by {
      assert h[..6] == "Bearer" && h[6] == ' ';
      FirstSpaceAt(h, 6);
    }
    assert h[7..] == rest;
  }

  lemma FirstSpaceAt(s: string, i: nat)
    requires i < |s| && s[i] == ' ' && forall k | 0 <= k < i :: s[k] != ' '
    ensures FirstSpace(s) == i
  {
    if i > 0 {
      FirstSpaceAt(s[1..], i - 1);
    }
  }

  predicate StartsWith(s: string, prefix: string) {
    |prefix| <= |s| && s[..|prefix|] == prefix
  }

  /** authHeader.split(' ')[1] for a header that starts with "Bearer ". */
  function BearerToken(h: string): (t: string)
    requires StartsWith(h, BearerPrefix)
    ensures t == h[7..][..FirstSpace(h[7..])]
    ensures ' ' !in t
  {
    assert h == BearerPrefix + h[7..];
    BearerSplit(h[7..]);
    Split(h)[1]
  }

  datatype GuardOutcome = Next(user: Account) | Halt(reply: Reply)

  const NoToken := "Unauthorized: No token provided"
  const BadPayload := "Invalid token payload"
  const UserNotFound := "User not found"
  const BadToken := "Invalid or expired token"
  const InternalError := "Internal server error"

  /**
   * isLoggedIn(req, res, next). `decode` gives the token a piece of header text
   * denotes. Only a JsonWebTokenError is a 401; any other error thrown by
   * jwt.verify, TokenExpiredError included, falls through to the 500.
   */
  function IsLoggedIn(accounts: map<Id, Account>, authorization: Option<string>, decode: string -> Token,
                      env: Env, nowMs: nat): (r: GuardOutcome)
    ensures (!Truthy(authorization) || !StartsWith(authorization.value, BearerPrefix)) ==> r == Halt(Fail(401, NoToken))
    ensures r.Next? <==>
      && Truthy(authorization) && StartsWith(authorization.value, BearerPrefix)
      && var v := Verify(decode(BearerToken(authorization.value)), env.jwtSecret, nowMs);
         v.Accepted? && v.claims.id.Some? && v.claims.id.value in accounts
    ensures r.Next? ==>
      (var v := Verify(decode(BearerToken(authorization.value)), env.jwtSecret, nowMs);
       r.user == accounts[v.claims.id.value])
    ensures r.Halt? ==> r.reply.status in {401, 500}
    ensures r.Halt? && r.reply.status == 500 <==>
      && Truthy(authorization) && StartsWith(authorization.value, BearerPrefix)
      && Verify(decode(BearerToken(authorization.value)), env.jwtSecret, nowMs) == Rejected(TokenExpiredError)
  {
    if !Truthy(authorization) || !StartsWith(authorization.value, BearerPrefix) then
      Halt(Fail(401, NoToken))
    else
      var accessToken := BearerToken(authorization.value);
      match Verify(decode(accessToken), env.jwtSecret, nowMs)
      case Rejected(JsonWebTokenError) => Halt(Fail(401, BadToken))
      case Rejected(TokenExpiredError) => Halt(Fail(500, InternalError))
      case Accepted(payload) =>
        if payload.id.None? then Halt(Fail(401, BadPayload))
        else if payload.id.value !in accounts then Halt(Fail(401, UserNotFound))
        else Next(accounts[payload.id.value])
  }

  /**
   * An access token issued by generateTokens for a stored account passes the
   * guard within its 15 minutes when sent as "Bearer <token>"; afterwards the
   * guard answers 500, not 401.
   */
  lemma FreshAccessTokenPasses(accounts: map<Id, Account>, id: Id, rest: string, decode: string -> Token,
                               env: Env, issuedMs: nat, nowMs: nat)
    requires id in accounts
    requires GenerateTokens(id, env, issuedMs).Some?
    requires decode(rest[..FirstSpace(rest)]) == GenerateTokens(id, env, issuedMs).value.accessToken
    ensures Seconds(nowMs) < Seconds(issuedMs) + AccessLifetime ==>
              IsLoggedIn(accounts, Some(BearerPrefix + rest), decode, env, nowMs) == Next(accounts[id])
    ensures Seconds(nowMs) >= Seconds(issuedMs) + AccessLifetime ==>
              IsLoggedIn(accounts, Some(BearerPrefix + rest), decode, env, nowMs) == Halt(Fail(500, InternalError))
  {
    assert (BearerPrefix + rest)[..7] == BearerPrefix;
    assert (BearerPrefix + rest)[7..] == rest;
  }

  /** A refresh token is never accepted as an access token when the two secrets differ. */
  lemma RefreshTokenIsNoAccessToken(accounts: map<Id, Account>, id: Id, rest: string, decode: string -> Token,
                                    env: Env, issuedMs: nat, nowMs: nat)
    requires GenerateTokens(id, env, issuedMs).Some? && env.jwtSecret != env.refreshSecret
    requires decode(rest[..FirstSpace(rest)]) == GenerateTokens(id, env, issuedMs).value.refreshToken
    ensures IsLoggedIn(accounts, Some(BearerPrefix + rest), decode, env, nowMs) == Halt(Fail(401, BadToken))
  {
    assert (BearerPrefix + rest)[..7] == BearerPrefix;
    assert (BearerPrefix + rest)[7..] == rest;
  }
}
