/**
 * models/user.js: the account record, its document methods and the two model
 * statics, over an in-memory store that stands for the MongoDB collection.
 * bcrypt and sha256 are injective constructors: a hash reveals nothing but is
 * equal to another hash exactly when the hashed values are equal. A hash is
 * also never equal to a plain text, so a hash string typed in as a password
 * is not what bcrypt.compare would see.
 */
module UserModel {
  import opened Wrappers
  import opened Jwt
  import AuthUtils

  datatype Provider = Local | Google

  /** A stored password: text, or a bcrypt hash of a stored password. */
  datatype Secret = Plain(text: string) | Bcrypt(of: Secret)

  /** A sha256 hex digest. */
  datatype Digest = Sha256(of: string)

  /** One user document. */
  datatype Account = Account(
    id: Id,
    name: string,
    email: string,
    password: Option<Secret>,
    refreshTokens: seq<Token>,
    googleId: Option<string>,
    profilePicture: Option<string>,
    authProvider: Provider,
    emailVerified: bool,
    emailVerifiedAt: Option<nat>,
    emailVerificationExpires: Option<nat>,
    passwordResetToken: Option<Digest>,
    passwordResetExpires: Option<nat>,
    lastLoginAt: Option<nat>,
    createdAt: nat)

  /** A JavaScript string value that is neither undefined nor empty. */
  predicate Truthy(s: Option<string>) {
    s.Some? && s.value != ""
  }

  /** `this.password` is truthy. */
  predicate HasPassword(a: Account) {
    a.password.Some? && a.password.value != Plain("")
  }

  /** The schema's required fields: name, email, and a password for local accounts. */
  predicate SchemaValid(a: Account) {
    a.name != "" && a.email != "" && (a.authProvider == Local ==> HasPassword(a))
  }

  /** A document as passed to create: no id, no timestamps, the schema defaults. */
  function Draft(name: string, email: string, password: Option<Secret>, googleId: Option<string>,
                 picture: Option<string>, provider: Provider, verified: bool,
                 verifiedAt: Option<nat>, lastLoginAt: Option<nat>): Account
  {
    Account(0, name, email, password, [], googleId, picture, provider, verified, verifiedAt,
            None, None, None, lastLoginAt, 0)
  }

  // ---------------------------------------------------------------------------
  // Document methods

  /** bcrypt.compare(candidate, stored): the stored value is the hash of that text. */
  predicate BcryptMatches(candidate: string, stored: Secret) {
    stored == Bcrypt(Plain(candidate))
  }

  /** bcrypt.compare throws "Illegal arguments" when either side is not a string. */
  datatype Comparison = Match | NoMatch | IllegalArguments

  /** comparePassword(candidate); a missing candidate is None. */
  function ComparePassword(a: Account, candidate: Option<string>): (r: Comparison)
    ensures !HasPassword(a) ==> r == NoMatch
    ensures r == Match <==> HasPassword(a) && candidate.Some? && BcryptMatches(candidate.value, a.password.value)
    ensures r == IllegalArguments <==> HasPassword(a) && candidate.None?
  {
    if !HasPassword(a) then NoMatch
    else if candidate.None? then IllegalArguments
    else if BcryptMatches(candidate.value, a.password.value) then Match
    else NoMatch
  }

  /** The fields toPublic exposes. */
  datatype PublicUser = PublicUser(
    id: Id, name: string, email: string, profilePicture: Option<string>, emailVerified: bool,
    authProvider: Provider, createdAt: nat, emailVerifiedAt: Option<nat>)

  function ToPublic(a: Account): PublicUser {
    PublicUser(a.id, a.name, a.email, a.profilePicture, a.emailVerified, a.authProvider,
               a.createdAt, a.emailVerifiedAt)
  }

  /** toPublic does not depend on the password, the refresh tokens or the reset fields. */
  lemma ToPublicHidesSecrets(a: Account, password: Option<Secret>, tokens: seq<Token>,
                             reset: Option<Digest>, expires: Option<nat>)
    ensures ToPublic(a) == ToPublic(a.(password := password, refreshTokens := tokens,
                                       passwordResetToken := reset, passwordResetExpires := expires))
  {
  }

  const ResetLifetimeMs: nat := 10 * 60 * 1000

  /** createPasswordResetToken(): the record after the call; the caller keeps `raw`. */
  function CreatePasswordResetToken(a: Account, raw: string, nowMs: nat): (r: Account)
    ensures r.passwordResetToken == Some(Sha256(raw))
    ensures r.passwordResetExpires == Some(nowMs + ResetLifetimeMs)
    ensures r == a.(passwordResetToken := r.passwordResetToken, passwordResetExpires := r.passwordResetExpires)
  {
    a.(passwordResetToken := Some(Sha256(raw)), passwordResetExpires := Some(nowMs + ResetLifetimeMs))
  }

  /**
   * The stored reset secret identifies exactly the raw value it was made from,
   * and a second call leaves no trace of the first.
   */
  lemma ResetTokenProperties(a: Account, raw: string, raw2: string, token: string, nowMs: nat, nowMs2: nat)
    ensures CreatePasswordResetToken(a, raw, nowMs).passwordResetToken == Some(Sha256(token)) <==> token == raw
    ensures CreatePasswordResetToken(CreatePasswordResetToken(a, raw, nowMs), raw2, nowMs2) ==
            CreatePasswordResetToken(a, raw2, nowMs2)
  {
  }

  /** markEmailAsVerified(): the record it saves. */
  function MarkEmailAsVerified(a: Account, nowMs: nat): (r: Account)
    ensures r.emailVerified && r.emailVerifiedAt == Some(nowMs) && r.emailVerificationExpires == None
    ensures r == a.(emailVerified := true, emailVerifiedAt := r.emailVerifiedAt, emailVerificationExpires := None)
  {
    a.(emailVerified := true, emailVerifiedAt := Some(nowMs), emailVerificationExpires := None)
  }

  /** The pre-save hook: a modified, truthy password is replaced by its bcrypt hash. */
  function PreSave(a: Account, passwordModified: bool): (r: Account)
    ensures r == a.(password := r.password)
    ensures !passwordModified || !HasPassword(a) ==> r == a
    ensures passwordModified && HasPassword(a) ==> r.password == Some(Bcrypt(a.password.value))
  {
    if passwordModified && HasPassword(a) then a.(password := Some(Bcrypt(a.password.value))) else a
  }

  /** The hook keeps the schema's required fields. */
  lemma PreSaveKeepsSchema(a: Account, passwordModified: bool)
    requires SchemaValid(a)
    ensures SchemaValid(PreSave(a, passwordModified))
  {
  }

  // ---------------------------------------------------------------------------
  // What createUnverifiedUser hands to save

  /** An unverified record at registration: only the name and, when given, the hashed password change. */
  function Recycled(a: Account, name: string, password: string): (r: Account)
    ensures r.name == name && r.(name := a.name, password := a.password) == a
    ensures password != "" ==> r.password == Some(Bcrypt(Plain(password)))
    ensures password == "" ==> r.password == a.password
    ensures SchemaValid(a) && name != "" ==> SchemaValid(r)
  {
    a.(name := name, password := if password != "" then Some(Bcrypt(Plain(password))) else a.password)
  }

  /** A new local document: name trimmed, email lowercased then trimmed, password hashed once. */
  function NewLocalDraft(name: string, email: string, password: string): (r: Account)
    ensures r.name == AuthUtils.Trim(name)
    ensures r.email == AuthUtils.NormalizeEmail(email)
    ensures !r.emailVerified && r.authProvider == Local && r.refreshTokens == []
    ensures r.password == Some(Bcrypt(Plain(password)))
  {
    AuthUtils.LowerCommutesWithTrim(email);
    Draft(AuthUtils.Trim(name), AuthUtils.Trim(AuthUtils.ToLower(email)), Some(Bcrypt(Plain(password))),
          None, None, Local, false, None, None)
  }

  /**
   * Passwords are hashed twice: the value createUnverifiedUser hashes is hashed
   * again by the hook, so the stored credential matches no plain-text candidate,
   * the chosen password included, neither for a new record nor for a recycled
   * one. Only the undisclosed inner hash, typed in as text, would match.
   */
  lemma RegisteredPasswordNeverMatches(a: Account, name: string, email: string, password: string, candidate: Option<string>)
    requires password != ""
    ensures ComparePassword(PreSave(NewLocalDraft(name, email, password), true), candidate) != Match
    ensures ComparePassword(PreSave(Recycled(a, name, password), true), candidate) != Match
  {
  }

  /** A password assigned as text and then saved, as resetPassword does, matches exactly that text. */
  lemma AssignedPasswordMatches(a: Account, password: string, candidate: string)
    requires password != ""
    ensures ComparePassword(PreSave(a.(password := Some(Plain(password))), true), Some(candidate)) == Match
            <==> candidate == password
  {
  }

  // ---------------------------------------------------------------------------
  // What findOrCreateGoogleUser hands to save

  /**
   * The part of the passport Google profile the model reads. passport leaves
   * `photos` out (None) when the account has no picture; an empty `emails`
   * stands for a missing or empty list alike, since both throw on [0].value.
   */
  datatype GoogleProfile = GoogleProfile(id: string, displayName: string, emails: seq<string>, photos: Option<seq<string>>)

  /** profile.photos[0]?.value: the ?. guards only .value, so a missing photos list throws. */
  function FirstPhoto(p: GoogleProfile): (r: Option<string>)
    requires p.photos.Some?
    ensures r.Some? <==> p.photos.value != []
    ensures r.Some? ==> r.value == p.photos.value[0]
  {
    if p.photos.value == [] then None else Some(p.photos.value[0])
  }

  /** user.profilePicture || profile.photos[0]?.value evaluates without throwing. */
  predicate PictureReadable(a: Account, p: GoogleProfile) {
    Truthy(a.profilePicture) || p.photos.Some?
  }

  /** Linking a Google identity onto the record found by e-mail. */
  function Linked(a: Account, p: GoogleProfile, nowMs: nat): (r: Account)
    requires PictureReadable(a, p)
    ensures r.googleId == Some(p.id) && r.emailVerified && r.authProvider == Google
    ensures r.lastLoginAt == Some(nowMs) && r.emailVerifiedAt.Some?
    ensures Truthy(a.profilePicture) ==> r.profilePicture == a.profilePicture
    ensures SchemaValid(a) ==> SchemaValid(r)
  {
    a.(googleId := Some(p.id),
       profilePicture := if Truthy(a.profilePicture) then a.profilePicture else FirstPhoto(p),
       emailVerified := true,
       emailVerifiedAt := if a.emailVerifiedAt.Some? then a.emailVerifiedAt else Some(nowMs),
       lastLoginAt := Some(nowMs),
       authProvider := Google)
  }

  /**
   * Linking keeps the name, e-mail, password, refresh tokens, reset fields and
   * creation time, keeps a picture and a verification time already there, and
   * leaves password checks exactly as they were.
   */
  lemma LinkedKeepsLocalState(a: Account, p: GoogleProfile, nowMs: nat, candidate: Option<string>)
    requires PictureReadable(a, p)
    ensures var l := Linked(a, p, nowMs);
      && l.googleId == Some(p.id) && l.authProvider == Google && l.emailVerified
      && l.id == a.id && l.name == a.name && l.email == a.email && l.password == a.password
      && l.refreshTokens == a.refreshTokens && l.createdAt == a.createdAt
      && l.passwordResetToken == a.passwordResetToken && l.passwordResetExpires == a.passwordResetExpires
      && (Truthy(a.profilePicture) ==> l.profilePicture == a.profilePicture)
      && (a.emailVerifiedAt.Some? ==> l.emailVerifiedAt == a.emailVerifiedAt)
      && ComparePassword(l, candidate) == ComparePassword(a, candidate)
  {
  }

  /** A record created from a Google profile: verified, provider google, no password. */
  function GoogleDraft(p: GoogleProfile, nowMs: nat): (r: Account)
    requires p.emails != [] && p.photos.Some?
    ensures r.googleId == Some(p.id) && r.name == p.displayName && r.email == AuthUtils.ToLower(p.emails[0])
    ensures r.password.None? && r.refreshTokens == [] && r.emailVerified && r.authProvider == Google
    ensures SchemaValid(r) <==> p.displayName != "" && p.emails[0] != ""
  {
    Draft(p.displayName, AuthUtils.ToLower(p.emails[0]), None, Some(p.id), FirstPhoto(p), Google, true,
          Some(nowMs), Some(nowMs))
  }

  // ---------------------------------------------------------------------------
  // Lookups: findOne returns the first match in natural order, which is id order here

  function FindFirst(m: map<Id, Account>, p: Account -> bool, lo: nat, hi: nat): (r: Option<Id>)
    decreases hi - lo
    ensures r.Some? ==> lo <= r.value < hi && r.value in m && p(m[r.value])
    ensures r.Some? ==> forall j | lo <= j < r.value && j in m :: !p(m[j])
    ensures r.None? ==> forall j | lo <= j < hi && j in m :: !p(m[j])
  {
    if lo >= hi then None
    else if lo in m && p(m[lo]) then Some(lo)
    else FindFirst(m, p, lo + 1, hi)
  }

  function FindByEmail(m: map<Id, Account>, bound: nat, email: string): (r: Option<Id>)
    ensures r.Some? ==> r.value in m && m[r.value].email == email
    ensures r.None? ==> forall j | j in m && j < bound :: m[j].email != email
  {
    FindFirst(m, (a: Account) => a.email == email, 0, bound)
  }

  function FindByGoogleId(m: map<Id, Account>, bound: nat, googleId: string): (r: Option<Id>)
    ensures r.Some? ==> r.value in m && m[r.value].googleId == Some(googleId)
    ensures r.None? ==> forall j | j in m && j < bound :: m[j].googleId != Some(googleId)
  {
    FindFirst(m, (a: Account) => a.googleId == Some(googleId), 0, bound)
  }

  /** The filter of resetPassword: this reset hash, and an expiry strictly after now. */
  predicate ResetPending(a: Account, digest: Digest, nowMs: nat) {
    a.passwordResetToken == Some(digest) && a.passwordResetExpires.Some? && a.passwordResetExpires.value > nowMs
  }

  function FindByResetToken(m: map<Id, Account>, bound: nat, digest: Digest, nowMs: nat): (r: Option<Id>)
    ensures r.Some? ==> r.value in m && ResetPending(m[r.value], digest, nowMs)
    ensures r.None? ==> forall j | j in m && j < bound :: !ResetPending(m[j], digest, nowMs)
  {
    FindFirst(m, (a: Account) => ResetPending(a, digest, nowMs), 0, bound)
  }

  // ---------------------------------------------------------------------------
  // The collection

  ghost predicate EmailsUnique(m: map<Id, Account>) {
    forall i, j | i in m && j in m && m[i].email == m[j].email :: i == j
  }

  ghost predicate GoogleIdsUnique(m: map<Id, Account>) {
    forall i, j | i in m && j in m && m[i].googleId.Some? && m[i].googleId == m[j].googleId :: i == j
  }

  /**
   * What holds of the collection between requests: every record is stored
   * under its own id, below the next id to allocate, satisfies the schema and
   * has no emailVerificationExpires (nothing sets it); e-mails are unique (the
   * unique index) and so are Google ids.
   */
  ghost predicate StoreInvariant(m: map<Id, Account>, next: nat) {
    && (forall id | id in m :: m[id].id == id && id < next && SchemaValid(m[id]) && m[id].emailVerificationExpires.None?)
    && EmailsUnique(m)
    && GoogleIdsUnique(m)
  }

  /** Under the invariant, findOne by e-mail misses exactly when no record has it, and a hit is the only one. */
  lemma EmailLookup(m: map<Id, Account>, next: nat, email: string)
    requires StoreInvariant(m, next)
    ensures FindByEmail(m, next, email).None? <==> forall j | j in m :: m[j].email != email
    ensures FindByEmail(m, next, email).Some? ==>
              forall j | j in m && m[j].email == email :: j == FindByEmail(m, next, email).value
  {
  }

  /** A record that can replace the one stored under its id without breaking the invariant. */
  ghost predicate Fits(m: map<Id, Account>, a: Account) {
    && SchemaValid(a)
    && a.emailVerificationExpires.None?
    && (forall j | j in m && j != a.id :: m[j].email != a.email)
    && (a.googleId.Some? ==> forall j | j in m && j != a.id :: m[j].googleId != a.googleId)
  }

  /** A record that keeps the stored e-mail and Google id and the schema can always replace the stored one. */
  lemma KeysKeptFits(m: map<Id, Account>, next: nat, a: Account)
    requires StoreInvariant(m, next) && a.id in m
    requires a.email == m[a.id].email && a.googleId == m[a.id].googleId
    requires SchemaValid(a) && a.emailVerificationExpires.None?
    ensures Fits(m, a)
  {
  }

  datatype CreateFailure = AlreadyExists | DuplicateKey | ValidationError | MissingEmail | MissingPhotos

  class AccountStore {
    var accounts: map<Id, Account>
    var nextId: nat

    ghost predicate Valid()
      reads this
    {
      StoreInvariant(accounts, nextId)
    }

    constructor ()
      ensures Valid() && accounts == map[] && nextId == 0
    {
      accounts := map[];
      nextId := 0;
    }

    /** document.save() of a record already stored under a.id, running the pre-save hook. */
    method Save(a: Account, passwordModified: bool)
      requires Valid() && a.id in accounts && Fits(accounts, a)
      modifies this
      ensures Valid() && nextId == old(nextId)
      ensures accounts == old(accounts)[a.id := PreSave(a, passwordModified)]
    {
      accounts := accounts[a.id := PreSave(a, passwordModified)];
    }

    /**
     * Model.create(draft): schema validation first, then the pre-save hook,
     * then the unique e-mail index.
     */
    method Create(draft: Account, nowMs: nat) returns (r: Result<Id, CreateFailure>)
      requires Valid()
      requires draft.emailVerificationExpires.None?
      requires draft.googleId.Some? ==> forall j | j in accounts :: accounts[j].googleId != draft.googleId
      modifies this
      ensures Valid()
      ensures !SchemaValid(draft) ==> r == Err(ValidationError)
      ensures SchemaValid(draft) && (exists j | j in old(accounts) :: old(accounts)[j].email == draft.email) ==>
                r == Err(DuplicateKey)
      ensures r.Ok? <==> SchemaValid(draft) && forall j | j in old(accounts) :: old(accounts)[j].email != draft.email
      ensures r.Err? ==> accounts == old(accounts) && nextId == old(nextId)
      ensures r.Ok? ==> SchemaValid(draft) && r.value == old(nextId) && r.value !in old(accounts) && nextId == old(nextId) + 1
      ensures r.Ok? ==> accounts == old(accounts)[r.value := PreSave(draft.(id := r.value, createdAt := nowMs), true)]
    {
      if !SchemaValid(draft) {
        return Err(ValidationError);
      }
      if FindByEmail(accounts, nextId, draft.email).Some? {
        return Err(DuplicateKey);
      }
      var id := nextId;
      var stored := PreSave(draft.(id := id, createdAt := nowMs), true);
      accounts := accounts[id := stored];
      nextId := nextId + 1;
      return Ok(id);
    }

    /** Model.findByIdAndDelete(id). */
    method Delete(id: Id)
      requires Valid()
      modifies this
      ensures Valid() && nextId == old(nextId)
      ensures accounts == old(accounts) - {id}
    {
      accounts := accounts - {id};
    }

    /**
     * createUnverifiedUser({ name, email, password }): looks the lowercased e-mail
     * up; a verified record refuses, an unverified one is recycled, and otherwise
     * a new local record is created.
     */
    method CreateUnverifiedUser(name: string, email: string, password: string, nowMs: nat)
      returns (r: Result<Id, CreateFailure>)
      requires Valid()
      modifies this
      ensures Valid()
      ensures r == Err(AlreadyExists) <==>
                exists j | j in old(accounts) :: old(accounts)[j].email == AuthUtils.ToLower(email) && old(accounts)[j].emailVerified
      ensures var found := FindByEmail(old(accounts), old(nextId), AuthUtils.ToLower(email));
              found.Some? && !old(accounts)[found.value].emailVerified && name != "" ==>
                (r == Ok(found.value) && nextId == old(nextId) &&
                 accounts == old(accounts)[found.value := PreSave(Recycled(old(accounts)[found.value], name, password), password != "")])
      ensures (exists j | j in old(accounts) :: old(accounts)[j].email == AuthUtils.ToLower(email)) && name == "" ==>
                r.Err? && r.error in {AlreadyExists, ValidationError}
      ensures (forall j | j in old(accounts) :: old(accounts)[j].email != AuthUtils.ToLower(email)) ==>
                var draft := NewLocalDraft(name, email, password);
                && (!SchemaValid(draft) ==> r == Err(ValidationError))
                && (SchemaValid(draft) && (exists j | j in old(accounts) :: old(accounts)[j].email == draft.email) ==>
                      r == Err(DuplicateKey))
                && (r.Ok? <==> SchemaValid(draft) && forall j | j in old(accounts) :: old(accounts)[j].email != draft.email)
                && (r.Ok? ==> (r.value == old(nextId) &&
                      accounts == old(accounts)[r.value := PreSave(draft.(id := r.value, createdAt := nowMs), true)]))
      ensures r.Err? ==> accounts == old(accounts)
    {
      var found := FindByEmail(accounts, nextId, AuthUtils.ToLower(email));
      if found.Some? {
        var existing := accounts[found.value];
        if existing.emailVerified {
          return Err(AlreadyExists);
        }
        var updated := Recycled(existing, name, password);
        if !SchemaValid(updated) {
          return Err(ValidationError);
        }
        Save(updated, password != "");
        return Ok(found.value);
      }
      var draft := NewLocalDraft(name, email, password);
      r := Create(draft, nowMs);
    }

    /**
     * findOrCreateGoogleUser(profile): by Google id, then by the lowercased first
     * e-mail (linking the identity onto that record), and only then a new record.
     */
    method FindOrCreateGoogleUser(profile: GoogleProfile, nowMs: nat) returns (r: Result<Id, CreateFailure>)
      requires Valid()
      modifies this
      ensures Valid()
      ensures var byId := FindByGoogleId(old(accounts), old(nextId), profile.id);
              byId.Some? ==> (r == Ok(byId.value) &&
                accounts == old(accounts)[byId.value := old(accounts)[byId.value].(lastLoginAt := Some(nowMs))])
      ensures (forall j | j in old(accounts) :: old(accounts)[j].googleId != Some(profile.id)) ==>
              if profile.emails == [] then r == Err(MissingEmail) && accounts == old(accounts)
              else
                var byEmail := FindByEmail(old(accounts), old(nextId), AuthUtils.ToLower(profile.emails[0]));
                if byEmail.Some? then
                  if !PictureReadable(old(accounts)[byEmail.value], profile) then r == Err(MissingPhotos) && accounts == old(accounts)
                  else r == Ok(byEmail.value) && accounts == old(accounts)[byEmail.value := Linked(old(accounts)[byEmail.value], profile, nowMs)]
                else if profile.photos.None? then r == Err(MissingPhotos) && accounts == old(accounts)
                else
                  var draft := GoogleDraft(profile, nowMs);
                  && (r.Ok? <==> SchemaValid(draft))
                  && (r.Ok? ==> (r.value == old(nextId) &&
                        accounts == old(accounts)[r.value := draft.(id := r.value, createdAt := nowMs)]))
                  && (r.Err? ==> r == Err(ValidationError) && accounts == old(accounts))
      ensures r.Ok? ==> r.value in accounts && accounts[r.value].googleId == Some(profile.id)
    {
      var byId := FindByGoogleId(accounts, nextId, profile.id);
      if byId.Some? {
        var user := accounts[byId.value];
        Save(user.(lastLoginAt := Some(nowMs)), false);
        return Ok(byId.value);
      }
      if profile.emails == [] {
        return Err(MissingEmail);
      }
      var byEmail := FindByEmail(accounts, nextId, AuthUtils.ToLower(profile.emails[0]));
      if byEmail.Some? {
        var user := accounts[byEmail.value];
        if !PictureReadable(user, profile) {
          return Err(MissingPhotos);
        }
        Save(Linked(user, profile, nowMs), false);
        return Ok(byEmail.value);
      }
      if profile.photos.None? {
        return Err(MissingPhotos);
      }
      r := Create(GoogleDraft(profile, nowMs), nowMs);
    }
  }
}
