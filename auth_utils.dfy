/**
 * The helpers of utils/authUtils.js: token-pair issuance, the e-mail format
 * check, e-mail normalisation, the password-length check and the two
 * response builders. Also the process environment the helpers read.
 */
module AuthUtils {
  import opened Wrappers
  import opened Jwt

  /** The environment variables the core reads; None is an unset variable. */
  datatype Env = Env(
    jwtSecret: Option<string>,          // JWT_SECRET
    refreshSecret: Option<string>,      // REFRESH_TOKEN_SECRET
    verificationSecret: Option<string>, // EMAIL_VERIFICATION_SECRET
    frontendUrl: Option<string>)        // FRONTEND_URL

  datatype TokenPair = TokenPair(accessToken: Token, refreshToken: Token)

  /**
   * generateTokens(userId): an access token under JWT_SECRET for 15 minutes and a
   * refresh token under REFRESH_TOKEN_SECRET for 7 days, both carrying { id }.
   * None where jwt.sign throws because a secret is unset.
   */
  function GenerateTokens(id: Id, env: Env, nowMs: nat): (r: Option<TokenPair>)
    ensures r.Some? <==> Usable(env.jwtSecret) && Usable(env.refreshSecret)
    ensures r.Some? ==> r.value.accessToken == Signed(env.jwtSecret.value, SubjectClaims(id), Seconds(nowMs), Seconds(nowMs) + AccessLifetime)
    ensures r.Some? ==> r.value.refreshToken == Signed(env.refreshSecret.value, SubjectClaims(id), Seconds(nowMs), Seconds(nowMs) + RefreshLifetime)
  {
    var access := Sign(SubjectClaims(id), env.jwtSecret, nowMs, AccessLifetime);
    var refresh := Sign(SubjectClaims(id), env.refreshSecret, nowMs, RefreshLifetime);
    if access.Some? && refresh.Some? then Some(TokenPair(access.value, refresh.value)) else None
  }

  /**
   * What the pair means to a verifier: the access token is accepted under
   * JWT_SECRET, for the subject id, exactly within 15 minutes of issuance; the
   * refresh token under REFRESH_TOKEN_SECRET within 7 days; and when the two
   * secrets differ neither is accepted under the other's secret.
   */
  lemma GeneratedTokensVerify(id: Id, env: Env, issuedMs: nat, nowMs: nat)
    requires GenerateTokens(id, env, issuedMs).Some?
    ensures var p := GenerateTokens(id, env, issuedMs).value;
      && (Verify(p.accessToken, env.jwtSecret, nowMs).Accepted? <==> Seconds(nowMs) < Seconds(issuedMs) + AccessLifetime)
      && (Verify(p.refreshToken, env.refreshSecret, nowMs).Accepted? <==> Seconds(nowMs) < Seconds(issuedMs) + RefreshLifetime)
      && (Verify(p.accessToken, env.jwtSecret, nowMs).Accepted? ==> Verify(p.accessToken, env.jwtSecret, nowMs).claims.id == Some(id))
      && (Verify(p.refreshToken, env.refreshSecret, nowMs).Accepted? ==> Verify(p.refreshToken, env.refreshSecret, nowMs).claims.id == Some(id))
      && (env.jwtSecret != env.refreshSecret ==>
            Verify(p.accessToken, env.refreshSecret, nowMs) == Rejected(JsonWebTokenError) &&
            Verify(p.refreshToken, env.jwtSecret, nowMs) == Rejected(JsonWebTokenError))
  {
  }

  // ---------------------------------------------------------------------------
  // Characters and strings (JavaScript semantics)

  /** The characters JavaScript's \s and String.prototype.trim treat as white space. */
  predicate IsSpace(c: char) {
    var n := c as int;
    (0x09 <= n <= 0x0D) || n == 0x20 || n == 0xA0 || n == 0x1680 ||
    (0x2000 <= n <= 0x200A) || n == 0x2028 || n == 0x2029 || n == 0x202F ||
    n == 0x205F || n == 0x3000 || n == 0xFEFF
  }

  predicate IsUpper(c: char) {
    'A' <= c <= 'Z'
  }

  function LowerChar(c: char): (r: char)
    ensures !IsUpper(r)
    ensures IsSpace(r) <==> IsSpace(c)
    ensures IsUpper(c) ==> r as int == c as int + 32
    ensures !IsUpper(c) ==> r == c
  {
    if IsUpper(c) then (c as int + 32) as char else c
  }

  /** toLowerCase on the ASCII letters. */
  function ToLower(s: string): (r: string)
    ensures |r| == |s|
    ensures forall i | 0 <= i < |s| :: r[i] == LowerChar(s[i])
  {
    if s == [] then [] else [LowerChar(s[0])] + ToLower(s[1..])
  }

  function TrimStart(s: string): (r: string)
    ensures |r| <= |s| && r == s[|s| - |r|..]
    ensures forall i | 0 <= i < |s| - |r| :: IsSpace(s[i])
    ensures r != [] ==> !IsSpace(r[0])
  {
    if s != [] && IsSpace(s[0]) then TrimStart(s[1..]) else s
  }

  function TrimEnd(s: string): (r: string)
    ensures |r| <= |s| && r == s[..|r|]
    ensures forall i | |r| <= i < |s| :: IsSpace(s[i])
    ensures r != [] ==> !IsSpace(r[|r| - 1])
  {
    if s != [] && IsSpace(s[|s| - 1]) then TrimEnd(s[..|s| - 1]) else s
  }

  /** r is s[i..j], and only white space lies outside that slice. */
  predicate CutAround(s: string, r: string, i: int, j: int) {
    && 0 <= i <= j <= |s| && r == s[i..j]
    && (forall k | 0 <= k < i :: IsSpace(s[k]))
    && (forall k | j <= k < |s| :: IsSpace(s[k]))
  }

  /** String.prototype.trim: s[i..j] with only white space cut from both ends. */
  function Trim(s: string): (r: string)
    ensures exists i, j :: CutAround(s, r, i, j)
    ensures r != [] ==> !IsSpace(r[0]) && !IsSpace(r[|r| - 1])
  {
    var t := TrimStart(s);
    var r := TrimEnd(t);
    TrimmedSlice(s, t, r);
    r
  }

  /** What TrimStart and then TrimEnd leave is the slice of s between the cut white space. */
  lemma TrimmedSlice(s: string, t: string, r: string)
    requires |t| <= |s| && t == s[|s| - |t|..]
    requires forall k | 0 <= k < |s| - |t| :: IsSpace(s[k])
    requires |r| <= |t| && r == t[..|r|]
    requires forall k | |r| <= k < |t| :: IsSpace(t[k])
    ensures CutAround(s, r, |s| - |t|, |s| - |t| + |r|)
  {
    var i := |s| - |t|;
    forall k | i + |r| <= k < |s| ensures IsSpace(s[k]) {
      assert s[k] == t[k - i];
    }
    assert r == s[i..i + |r|];
  }

  /** normalizeEmail: email.trim().toLowerCase(). */
  function NormalizeEmail(email: string): (r: string)
    ensures r != [] ==> !IsSpace(r[0]) && !IsSpace(r[|r| - 1])
    ensures forall i | 0 <= i < |r| :: !IsUpper(r[i])
  {
    ToLower(Trim(email))
  }

  lemma {:induction false} LowerTrimStart(s: string)
    ensures TrimStart(ToLower(s)) == ToLower(TrimStart(s))
  {
    if s != [] {
      assert ToLower(s)[1..] == ToLower(s[1..]);
      LowerTrimStart(s[1..]);
    }
  }

  lemma {:induction false} LowerTrimEnd(s: string)
    ensures TrimEnd(ToLower(s)) == ToLower(TrimEnd(s))
  {
    if s != [] {
      assert ToLower(s)[..|s| - 1] == ToLower(s[..|s| - 1]);
      LowerTrimEnd(s[..|s| - 1]);
    }
  }

  /** Lowercasing then trimming, as createUnverifiedUser does, is normalizeEmail. */
  lemma LowerCommutesWithTrim(s: string)
    ensures Trim(ToLower(s)) == NormalizeEmail(s)
  {
    LowerTrimStart(s);
    LowerTrimEnd(TrimStart(s));
  }

  lemma {:induction false} TrimStartOfTrimmed(s: string)
    requires s != [] ==> !IsSpace(s[0])
    ensures TrimStart(s) == s
  {
  }

  lemma {:induction false} TrimEndOfTrimmed(s: string)
    requires s != [] ==> !IsSpace(s[|s| - 1])
    ensures TrimEnd(s) == s
  {
  }

  lemma {:induction false} ToLowerIdempotent(s: string)
    ensures ToLower(ToLower(s)) == ToLower(s)
  {
    var l := ToLower(s);
    assert forall i | 0 <= i < |l| :: ToLower(l)[i] == l[i];
  }

  /** Normalising an already normalised address changes nothing. */
  lemma NormalizeEmailIdempotent(email: string)
    ensures NormalizeEmail(NormalizeEmail(email)) == NormalizeEmail(email)
  {
    var n := NormalizeEmail(email);
    TrimStartOfTrimmed(n);
    TrimEndOfTrimmed(n);
    assert Trim(n) == n;
    ToLowerIdempotent(Trim(email));
  }

  // ---------------------------------------------------------------------------
  // isValidEmail: /^[^\s@]+@[^\s@]+\.[^\s@]+$/

  /** A non-empty run of characters that are neither white space nor '@': [^\s@]+ */
  predicate Word(s: string) {
    s != [] && forall i | 0 <= i < |s| :: !IsSpace(s[i]) && s[i] != '@'
  }

  /** The domain part [^\s@]+\.[^\s@]+, split at one of its dots. */
  predicate Domain(d: string) {
    exists k | 0 < k < |d| - 1 :: d[k] == '.' && Word(d[..k]) && Word(d[k + 1..])
  }

  /** isValidEmail: the regular expression test, as a split of the address. */
  predicate IsValidEmail(e: string) {
    exists i | 0 < i < |e| :: e[i] == '@' && Word(e[..i]) && Domain(e[i + 1..])
  }

  /** The number of occurrences of c in s. */
  function Count(s: string, c: char): (n: nat)
    ensures n <= |s|
    ensures n == 0 <==> forall i | 0 <= i < |s| :: s[i] != c
  {
    if s == [] then 0 else (if s[0] == c then 1 else 0) + Count(s[1..], c)
  }

  lemma {:induction false} CountConcat(a: string, b: string, c: char)
    ensures Count(a + b, c) == Count(a, c) + Count(b, c)
  {
    if a != [] {
      assert (a + b)[1..] == a[1..] + b;
      CountConcat(a[1..], b, c);
    } else {
      assert a + b == b;
    }
  }

  predicate NoSpace(s: string) {
    forall k | 0 <= k < |s| :: !IsSpace(s[k])
  }

  /** The text after an '@' at i has a '.' at j with characters on both sides. */
  predicate DotAfter(e: string, i: int) {
    exists j | 0 <= i && i + 1 < j < |e| - 1 :: e[j] == '.'
  }

  /** The shape the regular expression promises, stated without it. */
  predicate EmailShape(e: string) {
    && NoSpace(e)
    && Count(e, '@') == 1
    && exists i | 0 < i < |e| :: e[i] == '@' && DotAfter(e, i)
  }

  /** A word, an '@' and a text free of white space and '@' count one '@' and no white space. */
  lemma AtJoin(a: string, d: string)
    requires Word(a)
    requires forall m | 0 <= m < |d| :: !IsSpace(d[m]) && d[m] != '@'
    ensures Count(a + ['@'] + d, '@') == 1
    ensures NoSpace(a + ['@'] + d)
  {
    assert Count(a, '@') == 0 && Count(d, '@') == 0;
    CountConcat(a, ['@'] + d, '@');
    CountConcat(['@'], d, '@');
    assert a + ['@'] + d == a + (['@'] + d);
  }

  lemma DomainChars(d: string)
    requires Domain(d)
    ensures forall m | 0 <= m < |d| :: !IsSpace(d[m]) && d[m] != '@'
    ensures exists k | 0 < k < |d| - 1 :: d[k] == '.'
  {
    var k :| 0 < k < |d| - 1 && d[k] == '.' && Word(d[..k]) && Word(d[k + 1..]);
    forall m | 0 <= m < |d| ensures !IsSpace(d[m]) && d[m] != '@' {
      if m < k { assert d[m] == d[..k][m]; }
      else if m > k { assert d[m] == d[k + 1..][m - k - 1]; }
    }
  }

  /** An '@' at i between a word and a text free of white space and '@' is the only '@', and e has no white space. */
  lemma AtSplit(e: string, i: int, d: string)
    requires 0 < i < |e| && e[i] == '@' && Word(e[..i]) && d == e[i + 1..]
    requires forall m | 0 <= m < |d| :: !IsSpace(d[m]) && d[m] != '@'
    ensures Count(e, '@') == 1 && NoSpace(e)
  {
    assert e == e[..i] + ['@'] + d;
    AtJoin(e[..i], d);
  }

  /**
   * A valid address has no white space, exactly one '@', and after it a '.' with
   * non-empty text on both sides.
   */
  lemma ValidEmailHasShape(e: string)
    requires IsValidEmail(e)
    ensures EmailShape(e)
  {
    var i :| 0 < i < |e| && e[i] == '@' && Word(e[..i]) && Domain(e[i + 1..]);
    var d := e[i + 1..];
    DomainChars(d);
    AtSplit(e, i, d);
    var k :| 0 < k < |d| - 1 && d[k] == '.';
    assert e[i + 1 + k] == '.';
    assert DotAfter(e, i);
  }

  /** With exactly one '@' in e, at i, no other position holds an '@'. */
  lemma OnlyAt(e: string, i: int)
    requires 0 <= i < |e| && e[i] == '@' && Count(e, '@') == 1
    ensures forall k | 0 <= k < |e| && k != i :: e[k] != '@'
  {
    var a, d := e[..i], e[i + 1..];
    assert e == a + ([e[i]] + d);
    CountConcat(a, [e[i]] + d, '@');
    CountConcat([e[i]], d, '@');
    NoOtherAt(a);
    NoOtherAt(d);
    forall k | 0 <= k < |e| && k != i ensures e[k] != '@' {
      if k < i { assert e[k] == a[k]; } else { assert e[k] == d[k - i - 1]; }
    }
  }

  /** A non-empty slice free of white space and '@' is a word. */
  lemma SliceIsWord(e: string, lo: int, hi: int)
    requires 0 <= lo < hi <= |e|
    requires forall k | lo <= k < hi :: !IsSpace(e[k]) && e[k] != '@'
    ensures Word(e[lo..hi])
  {
    forall m | 0 <= m < hi - lo ensures !IsSpace(e[lo..hi][m]) && e[lo..hi][m] != '@' {
      assert e[lo..hi][m] == e[lo + m];
    }
  }

  lemma DomainAt(d: string, k: int)
    requires 0 < k < |d| - 1 && d[k] == '.' && Word(d[..k]) && Word(d[k + 1..])
    ensures Domain(d)
  {
  }

  lemma ValidAt(e: string, i: int)
    requires 0 < i < |e| && e[i] == '@' && Word(e[..i]) && Domain(e[i + 1..])
    ensures IsValidEmail(e)
  {
  }

  /** Every address of that shape passes the regular expression. */
  lemma ShapeIsValidEmail(e: string)
    requires EmailShape(e)
    ensures IsValidEmail(e)
  {
    var i :| 0 < i < |e| && e[i] == '@' && DotAfter(e, i);
    var j :| i + 1 < j < |e| - 1 && e[j] == '.';
    OnlyAt(e, i);
    SliceIsWord(e, 0, i);
    SliceIsWord(e, i + 1, j);
    SliceIsWord(e, j + 1, |e|);
    var d, k := e[i + 1..], j - i - 1;
    assert d[..k] == e[i + 1..j];
    assert d[k + 1..] == e[j + 1..|e|];
    DomainAt(d, k);
    assert e[..i] == e[0..i];
    ValidAt(e, i);
  }

  /** isValidEmail holds exactly of the addresses of that shape. */
  lemma ValidEmailShape(e: string)
    ensures IsValidEmail(e) <==> EmailShape(e)
  {
    if IsValidEmail(e) { ValidEmailHasShape(e); }
    if EmailShape(e) { ShapeIsValidEmail(e); }
  }

  lemma {:induction false} NoOtherAt(s: string)
    requires Count(s, '@') == 0
    ensures forall i | 0 <= i < |s| :: s[i] != '@'
  {
    if s != [] {
      NoOtherAt(s[1..]);
      assert forall i | 1 <= i < |s| :: s[i] == s[1..][i - 1];
    }
  }

  // ---------------------------------------------------------------------------
  // validatePassword

  /** String.prototype.length: UTF-16 code units, two for a character outside the Basic Multilingual Plane. */
  function Utf16Length(s: string): (n: nat)
    ensures |s| <= n <= 2 * |s|
    ensures n == |s| <==> forall i | 0 <= i < |s| :: s[i] as int <= 0xFFFF
  {
    if s == [] then 0 else (if s[0] as int > 0xFFFF then 2 else 1) + Utf16Length(s[1..])
  }

  datatype PasswordCheck = PasswordCheck(isValid: bool, message: string)

  const PasswordRequired := "Password is required"
  const PasswordTooShort := "Password must be at least 8 characters long"

  /** validatePassword(password). A missing password is None. */
  function ValidatePassword(password: Option<string>): (r: PasswordCheck)
    ensures !r.isValid <==> password.None? || password.value == "" || Utf16Length(password.value) < 8
    ensures r.isValid <==> r.message == ""
    ensures (password.None? || password.value == "") ==> r.message == PasswordRequired
  {
    if password.None? || password.value == "" then PasswordCheck(false, PasswordRequired)
    else if Utf16Length(password.value) < 8 then PasswordCheck(false, PasswordTooShort)
    else PasswordCheck(true, "")
  }

  // ---------------------------------------------------------------------------
  // Response builders

  datatype Json = JStr(s: string) | JNum(n: int) | JBool(b: bool) | JNull

  /** createErrorResponse(statusCode, message, additionalData): the extra keys are spread last. */
  function CreateErrorResponse(statusCode: int, message: string, additionalData: map<string, Json>): (r: map<string, Json>)
    ensures r.Keys == {"status", "statusCode", "message"} + additionalData.Keys
    ensures forall k | k in additionalData :: r[k] == additionalData[k]
    ensures "status" !in additionalData ==> r["status"] == JStr("error")
    ensures "statusCode" !in additionalData ==> r["statusCode"] == JNum(statusCode)
    ensures "message" !in additionalData ==> r["message"] == JStr(message)
  {
    map["status" := JStr("error"), "statusCode" := JNum(statusCode), "message" := JStr(message)] + additionalData
  }

  /** createSuccessResponse(message, data): the data keys are spread last. */
  function CreateSuccessResponse(message: string, data: map<string, Json>): (r: map<string, Json>)
    ensures r.Keys == {"status", "message"} + data.Keys
    ensures forall k | k in data :: r[k] == data[k]
    ensures "status" !in data ==> r["status"] == JStr("success")
    ensures "message" !in data ==> r["message"] == JStr(message)
  {
    map["status" := JStr("success"), "message" := JStr(message)] + data
  }
}
