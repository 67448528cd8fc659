# jwt-auth-api: a Dafny model of the account and session lifecycle

This project models the core of an Express/Mongoose authentication backend. It covers:

- the user record and the two model statics (`createUnverifiedUser`, `findOrCreateGoogleUser`);
- the JSON Web Tokens it issues: access tokens, refresh tokens and e-mail verification tokens;
- the session guard that protects routes;
- the controllers for registration, login, logout, e-mail change, account deletion, e-mail verification and resend, forgotten and reset passwords, refresh-token rotation and the Google callback;
- the legacy `/register`, `/login` and `/profile` routes.

The MongoDB collection is the class `UserModel.AccountStore`. It holds a map from ids to records, plus the next id to allocate. `Valid()` is its invariant: every record is stored under its own id, is schema-valid and has a unique e-mail and Google id.

Each request handler is a method that changes the store and returns a `Http.Reply`, which is a status, a message and a tag for the extra JSON fields.

Some things are inputs to the model:

- the clock, as a `nowMs: nat` parameter;
- whether nodemailer delivered a mail, as a `delivered: bool` parameter;
- the random reset secret, as a `raw: string` parameter;
- the reading of a token out of header text, as a `decode` function.

Tokens are a datatype that records the key, the claims, `iat` and `exp` (sections 4.1.6 and 4.1.4 of RFC 7519). bcrypt and sha256 are injective constructors.

Module by module:

- `Wrappers`: Option and Result.
- `Jwt`: tokens, `jwt.sign`, `jwt.verify`, the lifetimes.
- `AuthUtils`: utils/authUtils.js.
- `UserModel`: models/user.js.
- `Http`: replies and URLs.
- `EmailService`: the token and link logic of services/emailService.js.
- `SessionGuard`: middleware/user.auth.js.
- `UserController`, `EmailController`, `PasswordController`, `AuthController`, `GoogleAuthController`: one module per controller file.
  `UserController.RegisterUser` makes `createUnverifiedUser`'s initial lowercase lookup itself. It then hands over to `RegisterOverRecord` when a record already has the address, or to `RegisterNewRecord` when none does, and both of these call `createUnverifiedUser`. The behaviour is unchanged.
- `LegacyRoutes`: routes/auth.js.
- `Scenarios`: multi-request client flows built from the operations above.

Where the code and the intended design disagree, the model follows the code, and the proofs show the consequences:

- **Passwords are hashed twice.** `createUnverifiedUser` hashes the password, and the pre-save hook hashes it again. The stored value is therefore `Bcrypt(Bcrypt(Plain(pw)))`, and the password the user chose never matches it. Only the undisclosed inner hash, typed in as text, would match. `Scenarios.RegisterThenLogIn` and `Scenarios.RegisterVerifyLogIn` prove that login is refused after registration, even after a successful e-mail verification. A password set through `resetPassword` is hashed once, so it works (`Scenarios.ResetThenLogIn`).
- **The resend rate limit never fires.** It reads `emailVerificationExpires`, which nothing ever sets. `UserModel.StoreInvariant` records that the field is always unset, and `EmailController.ResendVerification` proves status 429 unreachable on a valid store.
- **An expired access token gives 500, not 401.** The guard maps only `JsonWebTokenError` to 401 (`SessionGuard.IsLoggedIn`, `SessionGuard.FreshAccessTokenPasses`).
- **The registration rollback deletes whatever record `createUnverifiedUser` returned.** That includes a recycled, pre-existing unverified account (`UserController.RegisterUser`).
- **Two refreshes within the same second return an identical refresh token.** `iat` is in whole seconds and signing is deterministic (`AuthController.RotatedTokenIsNew`). The first token then stays usable (`Scenarios.RefreshTwice`).
- **The legacy `/register` always fails with 500** unless the exact e-mail is already stored. It creates a record without the required `name` (`LegacyRoutes.Register`).

Two more details of the code, kept as written:

- The guard answers under an `error` key, where the controllers use `message`.
- The reset mail text promises one hour, while the reset secret lasts ten minutes.

None of the controllers is mounted by a router: server.js mounts only routes/auth.js. They are modelled as operations anyway.

## Model

| member | source | states |
|---|---|---|
| Jwt.Sign | utils/authUtils.js:9-17 | signing fails exactly when the secret is unset or empty; otherwise the token carries that key and those claims, with iat the current second and exp iat plus the lifetime |
| Jwt.Verify | middleware/user.auth.js:13 | accepted exactly when the token is well-formed, signed with the given usable key and its exp is after the current second, returning its claims; TokenExpiredError exactly for a correctly signed token whose exp has passed |
| Jwt.SignThenVerify | utils/authUtils.js:8-18 | a token signed now verifies under the same key, giving the claims back, until its lifetime ends, and is expired from then on |
| Jwt.KeySeparation | utils/authUtils.js:9-17 | a token signed under one key is a JsonWebTokenError under any other key |
| AuthUtils.GenerateTokens | utils/authUtils.js:8-18 | the pair exists exactly when both secrets are usable; the access token is { id } under JWT_SECRET for 900 s, the refresh token { id } under REFRESH_TOKEN_SECRET for 604800 s |
| AuthUtils.GeneratedTokensVerify | utils/authUtils.js:8-18 | the access token is accepted exactly within 15 minutes and the refresh token within 7 days, both for the subject id, and neither verifies under the other secret when the two differ |
| AuthUtils.LowerChar | utils/authUtils.js:36 | lowercasing leaves no uppercase letter, keeps white space and changes only A-Z |
| AuthUtils.ToLower | utils/authUtils.js:36 | same length, each character lowercased in place |
| AuthUtils.Trim | utils/authUtils.js:36 | the result is a slice of the input with only white space cut from both ends, and it neither starts nor ends with white space |
| AuthUtils.TrimmedSlice | utils/authUtils.js:36 | cutting leading and then trailing white space leaves the slice of the input between the cut white space |
| AuthUtils.NormalizeEmail | utils/authUtils.js:35-37 | the normalised address has no leading or trailing white space and no uppercase letter |
| AuthUtils.NormalizeEmailIdempotent | utils/authUtils.js:35-37 | normalising a normalised address changes nothing |
| AuthUtils.LowerCommutesWithTrim | models/user.js:161-166 | trimming the lowercased address, as createUnverifiedUser does, equals normalizeEmail |
| AuthUtils.ValidEmailHasShape | utils/authUtils.js:25-28 | an address passing the regular expression has no white space, exactly one '@' and, after it, a '.' with text on both sides |
| AuthUtils.ShapeIsValidEmail | utils/authUtils.js:25-28 | every address of that shape passes the regular expression |
| AuthUtils.IsValidEmail | utils/authUtils.js:25-28 | the regular expression `^[^\s@]+@[^\s@]+\.[^\s@]+$`: a non-empty run without white space or '@', an '@', then such a run, a dot and such a run; `ValidEmailShape` characterises it |
| AuthUtils.ValidEmailShape | utils/authUtils.js:25-28 | isValidEmail holds exactly of the addresses of that shape |
| AuthUtils.ValidatePassword | utils/authUtils.js:43-53 | invalid exactly when the password is missing, empty or shorter than 8 UTF-16 units; the message is empty exactly when valid; a missing password gets the "required" message |
| AuthUtils.Utf16Length | utils/authUtils.js:48 | `password.length` counts UTF-16 code units: between one and two per character, and exactly one per character when none lies outside the Basic Multilingual Plane |
| AuthUtils.CreateErrorResponse | utils/authUtils.js:62-69 | keys are status, statusCode, message and the additional keys; additional keys override, otherwise status is "error" and statusCode and message are the arguments |
| AuthUtils.CreateSuccessResponse | utils/authUtils.js:77-83 | keys are status, message and the data keys; data keys override, otherwise status is "success" and message is the argument |
| UserModel.ComparePassword | models/user.js:68-71 | a record with no password never matches; a match needs a candidate whose bcrypt hash is the stored value; a missing candidate with a stored password throws illegal arguments |
| UserModel.SchemaValid | models/user.js:7-52 | the schema's required validators: a name, an e-mail, and a password when the provider is local |
| UserModel.ToPublicHidesSecrets | models/user.js:73-84 | the public view is the same whatever the password, refresh tokens and reset fields are |
| UserModel.ToPublic | models/user.js:73-84 | the public view: id, name, e-mail, picture, verification state, provider and timestamps, with no field for the password, the refresh tokens or the reset fields |
| UserModel.CreatePasswordResetToken | models/user.js:55-66 | stores sha256 of the raw secret, never the raw secret, with expiry now + 600000 ms, and changes nothing else |
| UserModel.ResetTokenProperties | models/user.js:55-66 | the stored digest matches exactly the raw value it came from, and a second call overwrites every trace of the first |
| UserModel.MarkEmailAsVerified | models/user.js:86-92 | sets emailVerified, emailVerifiedAt = now, clears emailVerificationExpires, and changes nothing else |
| UserModel.PreSave | models/user.js:173-183 | only a modified, non-empty password is replaced by its bcrypt hash; every other field, and an unmodified password, is kept |
| UserModel.PreSaveKeepsSchema | models/user.js:173-183 | the hook keeps a schema-valid record schema-valid |
| UserModel.NewLocalDraft | models/user.js:158-169 | a new local record has the trimmed name, the normalised e-mail, is unverified, local, has no refresh tokens and a once-hashed password |
| UserModel.RegisteredPasswordNeverMatches | models/user.js:151-152 | after the hook, the password stored by createUnverifiedUser, new or recycled, matches no plain-text candidate, the chosen password included |
| UserModel.Recycled | models/user.js:145-155 | an unverified record taken over at registration gets the new name and, when one is given, the once-hashed new password; nothing else changes and the record stays schema-valid |
| UserModel.AssignedPasswordMatches | models/user.js:173-183 | a password assigned as text and saved matches exactly that text |
| UserModel.LinkedKeepsLocalState | models/user.js:109-122 | linking sets googleId, provider google and verified; keeps name, e-mail, password, tokens, reset fields, an existing picture and verification time; password checks are unchanged |
| UserModel.FirstPhoto | models/user.js:113 | `profile.photos[0]?.value` on a present photos list: the first photo, or nothing when the list is empty |
| UserModel.Linked | models/user.js:109-121 | defined when the picture expression can be evaluated (a stored picture, or a photos list in the profile); linking by e-mail sets the Google id, verifies the account, switches the provider to google and stamps the login; a picture already there stays, and a schema-valid record stays valid |
| UserModel.GoogleDraft | models/user.js:124-133 | for a profile with an address and a photos list, a new Google document: the Google id, the display name, the lowercased first address, no password, verified; it passes the schema exactly when the name and the address are non-empty |
| UserModel.FindFirst | models/user.js:101 | findOne finds the least id in range whose record matches, and a miss means no record in range matches |
| UserModel.FindByEmail | models/user.js:144 | a hit has that e-mail; a miss means no record below the bound has it |
| UserModel.FindByGoogleId | models/user.js:101 | a hit has that Google id; a miss means no record below the bound has it |
| UserModel.FindByResetToken | controllers/passwordController.js:74-78 | a hit has that reset digest and an expiry strictly after now; a miss means no record does |
| UserModel.EmailLookup | models/user.js:15 | under the unique index, a lookup misses exactly when no record has the e-mail, and a hit is the only record with it |
| UserModel.KeysKeptFits | models/user.js:7-52 | a schema-valid record that keeps its stored e-mail and Google id can be saved without breaking uniqueness |
| UserModel.AccountStore.constructor | models/user.js:7-52 | the empty collection satisfies the invariant |
| UserModel.AccountStore.Save | models/user.js:173-183 | save stores the record after the pre-save hook under its id and keeps the invariant |
| UserModel.AccountStore.Create | models/user.js:7-52 | schema validation fails first, then a taken e-mail is a duplicate key, otherwise the hooked record is stored under a fresh id |
| UserModel.AccountStore.Delete | controllers/userController.js:35 | findByIdAndDelete removes exactly that id |
| UserModel.AccountStore.CreateUnverifiedUser | models/user.js:141-170 | fails with "already exists" exactly when a verified record has the lowercased e-mail; an unverified one is recycled (name, password) and returned, with no new record; otherwise a new local draft is created or refused by validation or the unique index |
| UserModel.AccountStore.FindOrCreateGoogleUser | models/user.js:99-139 | a Google-id hit changes only lastLoginAt; otherwise a missing e-mail fails; an e-mail hit is linked, or fails with the store unchanged when it has no picture and the profile no photos list; a double miss fails the same way without a photos list and otherwise creates a record; any success carries the Google id |
| EmailService.GenerateVerificationToken | services/emailService.js:31-45 | fails with the "not configured" error exactly when the secret is unset; otherwise a token under that secret with userId, email, type email_verification, timestamp, for 24 h |
| EmailService.VerifyEmailToken | services/emailService.js:48-58 | succeeds exactly when the token verifies under the verification secret and has the verification purpose; every failure is the one "invalid or expired" message |
| EmailService.VerificationRoundTrip | services/emailService.js:31-58 | a generated token verifies within 24 hours, giving back the same userId and email, and is refused afterwards |
| EmailService.WrongPurposeRefused | services/emailService.js:51-53 | a correctly signed token of another type is refused |
| EmailService.SessionTokenIsNoVerificationToken | services/emailService.js:51-53 | access and refresh tokens are never accepted as verification tokens |
| EmailService.VerificationLink | services/emailService.js:139 | the link is FRONTEND_URL + "/verify-email?token=" followed by the token |
| EmailService.SendVerificationEmail | services/emailService.js:136-152 | a mail goes out exactly when the secret is usable and the transport delivers; it goes to the user, and its link carries the token generated for this user and address, which verifies to those claims |
| EmailService.SendWelcomeEmail | services/emailService.js:155-202 | never fails: the caller only learns whether a welcome mail to the user went out |
| EmailService.SendPasswordResetEmail | services/emailService.js:205-212 | the mail goes to the user with link FRONTEND_URL + "/reset-password?token=" + the raw secret, or the send fails |
| SessionGuard.FirstSpace | middleware/user.auth.js:12 | the index of the first space, or the length when there is none |
| SessionGuard.Split | middleware/user.auth.js:12 | `split(' ')`: at least one piece and none containing a space; the first piece is the text up to its first space, and there is a single piece exactly when the text has no space |
| SessionGuard.SplitThenJoin | middleware/user.auth.js:12 | joining the pieces of a split with single spaces gives the text back |
| SessionGuard.JoinThenSplit | middleware/user.auth.js:12 | splitting a join of space-free pieces gives the same pieces back |
| SessionGuard.BearerSplit | middleware/user.auth.js:12 | "Bearer " + rest splits into "Bearer" and the part of rest before its first space |
| SessionGuard.BearerToken | middleware/user.auth.js:12 | the token is the header text after "Bearer " up to the next space |
| SessionGuard.IsLoggedIn | middleware/user.auth.js:4-33 | a missing or non-Bearer header is 401 "No token provided"; next is called exactly when the token verifies with an id of a stored account, with that account; every halt is 401 or 500, and 500 exactly when the token has expired |
| SessionGuard.FreshAccessTokenPasses | middleware/user.auth.js:8-31 | a generated access token passes the guard within 15 minutes and is answered with 500 afterwards |
| SessionGuard.RefreshTokenIsNoAccessToken | middleware/user.auth.js:13-29 | a refresh token is a 401 at the guard when the two secrets differ |
| UserController.Sent | controllers/userController.js:29-37 | the mail sent, exactly when sending succeeded |
| UserController.RegisterUser | controllers/userController.js:6-55 | missing fields or a weak password are a 400 before the store changes; a verified record is a 400; otherwise the record from createUnverifiedUser gets a verification mail and a 201, or is deleted on a send failure (a recycled one included) with a 500; a 201 leaves an unverified account with the twice-hashed password |
| UserController.CreationFailure | controllers/userController.js:42-54 | a failure of createUnverifiedUser is a 400 exactly when the address is taken (verified record or duplicate key), with the matching message, and a 500 otherwise |
| UserController.SendOrRollBack | controllers/userController.js:23-40 | when the verification mail goes out the store is unchanged and the reply is a 201 naming the record's address; otherwise the record is deleted, nothing else changes, and the reply is a 500 without mail |
| UserController.RegisterOverRecord | controllers/userController.js:20-40 | for an address a record already holds: a verified record is a 400 with the store unchanged; an unverified one is overwritten with the new name and the twice-hashed password, then mailed (201) or deleted (500) |
| UserController.RegisterNewRecord | controllers/userController.js:20-40 | for an address no lowercase lookup finds: a draft the schema refuses is a 500, and one whose trimmed address a record holds is the duplicate-key 400, both with the store unchanged; otherwise a new unverified record under the next id with the twice-hashed password, then mailed (201) or removed again, leaving the store as it was (500) |
| UserController.LoggedIn | controllers/userController.js:93-97 | exactly one refresh token appended at the end and lastLoginAt set, nothing else changed |
| UserController.LoginUser | controllers/userController.js:58-109 | the same 400 for an unknown e-mail and a wrong password; a Google account without a password gets the useGoogleAuth hint; unverified after a match gets requiresVerification; success stores LoggedIn and returns both tokens and the public user; any failure leaves the store unchanged |
| UserController.Without | controllers/userController.js:131 | filter keeps exactly the entries different from the token |
| UserController.WithoutKeepsOrder | controllers/userController.js:131 | filtering distributes over concatenation, so the remaining tokens keep their order |
| UserController.WithoutIdempotent | controllers/userController.js:128-134 | filtering twice is filtering once |
| UserController.LogoutUser | controllers/userController.js:126-141 | without a token nothing changes and the reply is 200; with one, every equal entry is removed from the user's list; a vanished user is a 500 |
| UserController.UpdateUserEmail | controllers/userController.js:143-202 | checks in order: Google account, format, unchanged, taken (409); success stores the normalised address unverified with no verification time, and a failed mail does not undo it |
| UserController.DeleteAccount | controllers/userController.js:205-248 | deletion happens exactly when the user exists and, for a local account with a password, the given password matches; otherwise nothing changes |
| EmailController.VerifyEmail | controllers/emailController.js:6-68 | a missing token is 400; a refused token is 400 with expired; an unknown user is 404; another address is 400; an already verified account is 400 with alreadyVerified; otherwise the account is marked verified, one refresh token appended and lastLoginAt set; a welcome-mail failure does not change the reply |
| EmailController.ResendVerification | controllers/emailController.js:71-112 | missing e-mail 400, unknown 404, verified 400 alreadyVerified, 429 exactly under the rate-limit condition, otherwise the mail or a 500; on a valid store 429 never occurs |
| PasswordController.ResetCleared | controllers/passwordController.js:41-44 | both reset fields cleared and nothing else changed |
| PasswordController.IssueResetLink | controllers/passwordController.js:29-49 | for a local account, the digest of the raw secret is stored with its expiry and mailed; when the mail fails both reset fields are cleared and a 500 returned |
| PasswordController.ForgotPassword | controllers/passwordController.js:5-55 | an unknown address gets the same 200 as a sent link and nothing changes; a Google account gets a distinct 400 with no reset fields set; otherwise the digest is stored and mailed, or cleared again with a 500 when the mail fails |
| PasswordController.PasswordAssigned | controllers/passwordController.js:87-90 | the new password set as text and both reset fields cleared, nothing else changed |
| PasswordController.ResetPassword | controllers/passwordController.js:58-100 | missing or weak inputs are a 400 before any lookup; success needs a record with the sha256 of the token and an expiry after now, then sets the hooked password and clears the reset fields |
| AuthController.RefreshToken | controllers/authController.js:4-46 | a missing token is 400; a refused token, an unknown id or a token not in the stored list is 403 with no change; success replaces the list with exactly the new refresh token, a pair as from generateTokens; 200 exactly under those conditions |
| AuthController.RotatedTokenIsNew | controllers/authController.js:25-34 | the new refresh token differs from the old exactly when they were issued in different seconds |
| GoogleAuthController.FrontendUrl | controllers/googleAuthController.js:28 | FRONTEND_URL when set, otherwise http://localhost:5173 |
| GoogleAuthController.UserData | controllers/googleAuthController.js:19-26 | the user JSON has id, name, email, authProvider and emailVerified with the record's values, and profilePicture only when there is one, with its value |
| GoogleAuthController.ProviderName | models/user.js:34-38 | the stored enum text is 'local' exactly for a local account and 'google' exactly for a Google one |
| GoogleAuthController.ErrorUrl | controllers/googleAuthController.js:34-35 | FRONTEND_URL or the default, then "/login?error=", then the encoded fixed message, and no token anywhere in it |
| GoogleAuthController.SessionUrl | controllers/googleAuthController.js:29 | the redirect carries the access token, the refresh token and the encoded user JSON, and is never the error URL |
| GoogleAuthController.GoogleCallback | controllers/googleAuthController.js:8-38 | the error URL, with no change, exactly when there is no user or no token pair; otherwise exactly one refresh token is appended to the user's list and the session URL returned |
| LegacyRoutes.Register | routes/auth.js:41-66 | the store never changes; an exact-match e-mail is a 400, anything else a 500 because the record lacks the required name |
| LegacyRoutes.Login | routes/auth.js:96-119 | the same 400 for an unknown e-mail and a wrong password; 200 exactly for a match under a usable secret, with a 1 h token for the id; no verification check and no refresh token |
| LegacyRoutes.Profile | routes/auth.js:136-144 | the guard's reply when it halts, otherwise the id and e-mail of the resolved user |
| Scenarios.NormalizedIsLower | utils/authUtils.js:35-37 | a normalised address is its own lowercase |
| Scenarios.LogInDoubleHashed | controllers/userController.js:78-83 | logging in against a twice-hashed password is the "Invalid email or password" reply |
| Scenarios.RegisterThenLogIn | controllers/userController.js:6-109 | after a successful registration, logging in with the same password is refused |
| Scenarios.RequestReset | controllers/passwordController.js:5-55 | a forgot-password request for a local account stores the digest and mails the raw secret |
| Scenarios.UseResetToken | controllers/passwordController.js:58-100 | a pending reset secret sets the password and leaves no record with that digest |
| Scenarios.ResetThenLogIn | controllers/passwordController.js:58-100 | after a reset, login with the new password succeeds and replaying the secret is refused |
| Scenarios.LogInAfterReset | controllers/userController.js:58-109 | logging in to a verified local account with its matching password opens a session, and no record gains a reset digest |
| Scenarios.ReplayResetToken | controllers/passwordController.js:76-85 | a raw reset secret whose digest no record holds is refused with 400 and the store is unchanged |
| Scenarios.LogoutThenRefresh | controllers/authController.js:21-23 | a refresh token removed by logout is refused at refresh with 403 |
| Scenarios.RefreshTwice | controllers/authController.js:21-34 | a rotated-away token is refused on second use, except when the rotation gave back the identical token |
| Scenarios.GoogleSignIn | config/passport.js:17-24 | a sign-in whose profile resolves to no record is the error handler's 500 and changes nothing; otherwise the callback redirects, a session redirect carries tokens for a stored account holding that Google id, and a known Google id always gets one when both secrets are set |
| Scenarios.ResolveGoogleUser | models/user.js:99-139 | findOrCreateGoogleUser fails exactly when the Google id is unknown and either there is no address, or the address finds a record without a picture while the profile has no photos list, or it finds none and the profile lacks a photos list or makes no schema-valid record; on failure the store is unchanged, otherwise the returned record holds the Google id |
| Scenarios.VerifyFromMail | controllers/emailController.js:6-68 | the link of a verification mail, used within 24 h, verifies the account and opens a session, keeping its address and password |
| Scenarios.RegisterVerifyLogIn | controllers/emailController.js:33-53 | after register and verify both succeed, login with the registration password is still refused |
| Scenarios.LogoutTwice | controllers/userController.js:126-141 | logging out twice with the same token gives the same reply and state as once |

## Left out

- E-mail transport and templates: nodemailer and the HTML and text bodies are I/O. A send is the `delivered` input, and a mail records only its recipient, kind and link.
- JWT signing and verification internals, bcrypt and sha256: these are foreign library calls, modelled as injective constructors. The constructors also keep hashes and plain texts apart: no hash equals a plain text. So a 60-character bcrypt string typed in as a candidate password is a `Plain` value, never the inner hash itself. Salts and cost factors are not modelled, and neither is bcrypt's truncation of the candidate to its first 72 bytes, so `UserModel.AssignedPasswordMatches` and `UserModel.ComparePassword` treat two passwords that share their first 72 bytes as different. The token text in a URL or header is left abstract (`TokenText`, and the `decode` function in the guard).
- Randomness and the clock: the raw reset secret (`crypto.randomBytes`) is the `raw` parameter, and `Date.now()` is `nowMs`.
- Concurrency: each request is one atomic step. Two refreshes racing on one account are not modelled.
- server.js, config/db.js, config/swagger.js and swaggerConfig.js are bootstrapping and are not part of this model, except for the error handler at the end of server.js. The verify callback of config/passport.js is `Scenarios.ResolveGoogleUser` and `Scenarios.GoogleSignIn`. When `findOrCreateGoogleUser` throws, passport hands the error to Express, and the error handler of server.js:144-147 answers 500 before `googleCallback` runs. The strategy options and the session serialisation of config/passport.js are not modelled. auth/googleAuth.tsx is an unused duplicate of the Google strategy and is not part of this model. `googleAuth` (a passport.authenticate call) is not modelled.
- `getUserProfile` and `isEmailVerificationExpired` sit outside the modelled core and are not modelled.
- Database and unexpected exceptions: the catch-all 500s reached only when MongoDB throws are not modelled. The 500s the code reaches deterministically are modelled, such as a missing secret or bcrypt's illegal-arguments error.
- Requests: `req.user` is the id of the resolved account rather than the loaded document. The handlers re-read the record from the map.
- UserModel.AccountStore.Create: Mongoose strict mode drops fields missing from the schema (`emailVerifiedAt`, `lastLoginAt`, `emailVerificationExpires`). The model keeps them as ordinary fields. `emailVerificationToken` is assigned by markEmailAsVerified but is not a schema field, so strict mode drops it and the model has no such field. The TTL index of models/user.js:185-193 is on `emailVerificationExpires` for unverified records. Nothing ever stores that field (`UserModel.StoreInvariant` keeps it unset), so the index never removes a record, and it is not modelled.
- UserModel.RegisteredPasswordNeverMatches: holds for every candidate only because hashes and plain texts are kept apart. In the code, `bcrypt.compare` accepts the inner hash string of a double-hashed password, but that string is never disclosed to the user.
- AuthUtils.ToLower: only the ASCII letters are mapped; JavaScript's full Unicode case mapping is not modelled.
- GoogleAuthController.UserData: the id is a number (`JNum`), whereas the JSON carries the ObjectId as a string. Ids are natural numbers assigned in increasing order, so `findOne` is "least matching id".
- LegacyRoutes.Register and LegacyRoutes.Login take the e-mail as present. A body without `email` (a `findOne` on undefined) is not modelled.
- UserController.LogoutUser, AuthController.RefreshToken and EmailController.VerifyEmail: a token in a request body is a `Token` value, and an empty string is `Malformed("")`. Comparing token strings is comparing values.
- SessionGuard.IsLoggedIn and Scenarios.GoogleSignIn: the JSON key `error` used by the guard and the error handler, as opposed to `message`, is not part of `Http.Reply`.
