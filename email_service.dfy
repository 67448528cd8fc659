/**
 * services/emailService.js, the parts with logic: the e-mail verification
 * token, the link a verification mail carries, the best-effort welcome mail
 * and the password-reset mail. Transport and templates are abstract: a send
 * is an input saying whether nodemailer delivered it.
 */
module EmailService {
  import opened Wrappers
  import opened Jwt
  import opened AuthUtils
  import opened Http

  const VerificationPurpose := "email_verification"
  const SecretMissing := "Email verification secret not configured"
  const InvalidOrExpired := "Invalid or expired verification token"

  /** The claims of a verification token for this account and address, made at nowMs. */
  function VerificationClaims(userId: Id, email: string, nowMs: nat): Claims {
    Claims(None, Some(userId), Some(email), Some(VerificationPurpose), Some(nowMs))
  }

  /** generateVerificationToken(userId, email). */
  function GenerateVerificationToken(userId: Id, email: string, env: Env, nowMs: nat): (r: Result<Token, string>)
    ensures r.Err? <==> !Usable(env.verificationSecret)
    ensures r.Err? ==> r.error == SecretMissing
    ensures r.Ok? ==> r.value.Signed? && r.value.key == env.verificationSecret.value
    ensures r.Ok? ==> r.value.claims == VerificationClaims(userId, email, nowMs)
    ensures r.Ok? ==> r.value.exp == Seconds(nowMs) + VerificationLifetime
  {
    if !Usable(env.verificationSecret) then Err(SecretMissing)
    else Ok(Sign(VerificationClaims(userId, email, nowMs), env.verificationSecret, nowMs, VerificationLifetime).value)
  }

  /** verifyEmailToken(token): every failure becomes the one message. */
  function VerifyEmailToken(token: Token, env: Env, nowMs: nat): (r: Result<Claims, string>)
    ensures r.Err? ==> r.error == InvalidOrExpired
    ensures r.Ok? <==> Verify(token, env.verificationSecret, nowMs).Accepted? &&
                       token.claims.purpose == Some(VerificationPurpose)
    ensures r.Ok? ==> r.value == token.claims
  {
    match Verify(token, env.verificationSecret, nowMs)
    case Accepted(claims) =>
      if claims.purpose == Some(VerificationPurpose) then Ok(claims) else Err(InvalidOrExpired)
    case Rejected(_) => Err(InvalidOrExpired)
  }

  /**
   * Round trip: a token generated for (userId, email) verifies, giving back the
   * same userId and email, until 24 hours after its issuing second, and is
   * refused from then on.
   */
  lemma VerificationRoundTrip(userId: Id, email: string, env: Env, issuedMs: nat, nowMs: nat)
    requires GenerateVerificationToken(userId, email, env, issuedMs).Ok?
    ensures var r := VerifyEmailToken(GenerateVerificationToken(userId, email, env, issuedMs).value, env, nowMs);
      && (r.Ok? <==> Seconds(nowMs) < Seconds(issuedMs) + VerificationLifetime)
      && (r.Ok? ==> r.value.userId == Some(userId) && r.value.email == Some(email))
  {
  }

  /** A token correctly signed with the verification secret but of another purpose is refused. */
  lemma WrongPurposeRefused(claims: Claims, env: Env, issuedMs: nat, lifetime: nat, nowMs: nat)
    requires Usable(env.verificationSecret)
    requires claims.purpose != Some(VerificationPurpose)
    ensures VerifyEmailToken(Sign(claims, env.verificationSecret, issuedMs, lifetime).value, env, nowMs) ==
            Err(InvalidOrExpired)
  {
  }

  /** Access and refresh tokens are never accepted as verification tokens. */
  lemma SessionTokenIsNoVerificationToken(id: Id, env: Env, issuedMs: nat, nowMs: nat)
    requires GenerateTokens(id, env, issuedMs).Some?
    ensures VerifyEmailToken(GenerateTokens(id, env, issuedMs).value.accessToken, env, nowMs).Err?
    ensures VerifyEmailToken(GenerateTokens(id, env, issuedMs).value.refreshToken, env, nowMs).Err?
  {
  }

  datatype MailKind = VerificationMail | WelcomeMail | PasswordResetMail

  /** A message handed to the transport: recipient, kind, and the link it carries. */
  datatype Mail = Mail(to: string, kind: MailKind, link: Url)

  /** `${FRONTEND_URL}/verify-email?token=${token}` */
  function VerificationLink(env: Env, token: Token): (r: Url)
    ensures |r| == 2 && r[1] == TokenText(token)
    ensures r[0] == Text(Render(env.frontendUrl) + "/verify-email?token=")
  {
    [Text(Render(env.frontendUrl) + "/verify-email?token="), TokenText(token)]
  }

  /**
   * sendVerificationEmail(user): the mail sent, or the error it throws when the
   * verification secret is unset or the transport fails.
   */
  function SendVerificationEmail(userId: Id, email: string, env: Env, nowMs: nat, delivered: bool): (r: Result<Mail, string>)
    ensures r.Ok? <==> delivered && Usable(env.verificationSecret)
    ensures r.Ok? ==> r.value.to == email && r.value.kind == VerificationMail
    ensures r.Ok? ==> exists t :: (r.value.link == VerificationLink(env, t) &&
                                   VerifyEmailToken(t, env, nowMs) == Ok(VerificationClaims(userId, email, nowMs)))
    ensures r.Ok? ==> GenerateVerificationToken(userId, email, env, nowMs).Ok? &&
                      r.value.link == VerificationLink(env, GenerateVerificationToken(userId, email, env, nowMs).value)
  {
    var token := GenerateVerificationToken(userId, email, env, nowMs);
    if token.Err? then Err(token.error)
    else if !delivered then Err("transport failure")
    else
      var mail := Mail(email, VerificationMail, VerificationLink(env, token.value));
      assert VerifyEmailToken(token.value, env, nowMs) == Ok(VerificationClaims(userId, email, nowMs));
      Ok(mail)
  }

  /**
   * sendWelcomeEmail(user): catches every error itself, so the caller only
   * learns whether a mail went out, never a failure.
   */
  function SendWelcomeEmail(email: string, delivered: bool): (r: Option<Mail>)
    ensures r.Some? <==> delivered
    ensures r.Some? ==> r.value.to == email && r.value.kind == WelcomeMail
  {
    if delivered then Some(Mail(email, WelcomeMail, [])) else None
  }

  /** sendPasswordResetEmail(user, resetToken): `${FRONTEND_URL}/reset-password?token=${resetToken}`. */
  function SendPasswordResetEmail(email: string, raw: string, env: Env, delivered: bool): (r: Result<Mail, string>)
    ensures r.Ok? <==> delivered
    ensures r.Ok? ==> r.value.to == email && r.value.kind == PasswordResetMail &&
                      r.value.link == [Text(Render(env.frontendUrl) + "/reset-password?token=" + raw)]
  {
    if delivered then Ok(Mail(email, PasswordResetMail, [Text(Render(env.frontendUrl) + "/reset-password?token=" + raw)]))
    else Err("transport failure")
  }
}
