/**
 * The JSON Web Tokens (RFC 7519) the backend signs and checks through the
 * jsonwebtoken library. Signing and verification internals are abstract: a
 * token is a value that records the key it was signed with, its claims set and
 * its "iat" and "exp" claims (sections 4.1.6 and 4.1.4 of RFC 7519, in seconds).
 * Two compact serialisations are equal exactly when the values are equal.
 */
module Jwt {
  import opened Wrappers

  /** A record identifier (a MongoDB ObjectId). */
  type Id = nat

  /** The private claims the backend puts into a token; absent claims are None. */
  datatype Claims = Claims(
    id: Option<Id>,           // access and refresh tokens: { id }
    userId: Option<Id>,       // verification tokens: { userId, email, type, timestamp }
    email: Option<string>,
    purpose: Option<string>,  // the "type" claim
    timestamp: Option<nat>)

  /** The claims of an access or refresh token for one account. */
  function SubjectClaims(id: Id): Claims {
    Claims(Some(id), None, None, None, None)
  }

  /** A token as presented: a well-formed signed token, or any other text. */
  datatype Token =
    | Signed(key: string, claims: Claims, iat: nat, exp: nat)
    | Malformed(text: string)

  /** The "name" of the error jsonwebtoken throws. */
  datatype ErrorName = JsonWebTokenError | TokenExpiredError

  datatype Verification = Accepted(claims: Claims) | Rejected(name: ErrorName)

  /** Lifetimes, in seconds, of the four kinds of token. */
  const AccessLifetime: nat := 15 * 60
  const RefreshLifetime: nat := 7 * 24 * 60 * 60
  const VerificationLifetime: nat := 24 * 60 * 60
  const LegacyLifetime: nat := 60 * 60

  /** A NumericDate: whole seconds of a millisecond clock reading. */
  function Seconds(nowMs: nat): nat {
    nowMs / 1000
  }

  /** A secret configured in the environment; jsonwebtoken refuses a missing or empty one. */
  predicate Usable(key: Option<string>) {
    key.Some? && key.value != ""
  }

  /** jwt.sign(claims, key, { expiresIn: lifetime }); None where the library throws. */
  function Sign(claims: Claims, key: Option<string>, nowMs: nat, lifetime: nat): (r: Option<Token>)
    ensures r.Some? <==> Usable(key)
    ensures r.Some? ==> r.value.Signed? && r.value.key == key.value && r.value.claims == claims
    ensures r.Some? ==> r.value.iat == Seconds(nowMs) && r.value.exp == Seconds(nowMs) + lifetime
  {
    if Usable(key) then Some(Signed(key.value, claims, Seconds(nowMs), Seconds(nowMs) + lifetime)) else None
  }

  /**
   * jwt.verify(token, key) at clock reading nowMs. A malformed token, a missing
   * key and a signature under another key are JsonWebTokenError; a token whose
   * "exp" is at or before the current second is TokenExpiredError.
   */
  function Verify(t: Token, key: Option<string>, nowMs: nat): (r: Verification)
    ensures r.Accepted? <==> t.Signed? && Usable(key) && key.value == t.key && Seconds(nowMs) < t.exp
    ensures r.Accepted? ==> r.claims == t.claims
    ensures r == Rejected(TokenExpiredError) <==>
              t.Signed? && Usable(key) && key.value == t.key && t.exp <= Seconds(nowMs)
  {
    if t.Malformed? || !Usable(key) || key.value != t.key then Rejected(JsonWebTokenError)
    else if t.exp <= Seconds(nowMs) then Rejected(TokenExpiredError)
    else Accepted(t.claims)
  }

  /** A token signed now verifies under the same key until its lifetime has run out. */
  lemma SignThenVerify(claims: Claims, key: string, issuedMs: nat, lifetime: nat, nowMs: nat)
    requires key != ""
    ensures Sign(claims, Some(key), issuedMs, lifetime).Some?
    ensures var t := Sign(claims, Some(key), issuedMs, lifetime).value;
            Verify(t, Some(key), nowMs) ==
              if Seconds(nowMs) < Seconds(issuedMs) + lifetime then Accepted(claims)
              else Rejected(TokenExpiredError)
  {
  }

  /** A token signed under one key never verifies under another. */
  lemma KeySeparation(claims: Claims, k1: string, k2: Option<string>, issuedMs: nat, lifetime: nat, nowMs: nat)
    requires k1 != "" && k2 != Some(k1)
    ensures Verify(Sign(claims, Some(k1), issuedMs, lifetime).value, k2, nowMs) == Rejected(JsonWebTokenError)
  {
  }
}
