/** The account endpoints: registration (required fields, unique username
    and email), login (one error for every failed attempt), the current
    user, and the profile update with its truthiness guards and its
    key-wise merge of social links. Password hashing, password comparison
    and token signing are parameters. */
module AuthController {
  import opened Common
  import opened JsString
  import opened UserModel
  import opened Database

  /** The body of a successful `register` or `login`: the user's id,
      public names and picture, and a token; there is no password field. */
  datatype AuthResponse = AuthResponse(id: Id, username: string, email: string, displayName: string,
                                       profilePicture: string, token: string)

  function Response(id: Id, u: User, token: string): (r: AuthResponse)
    ensures r.id == id && r.username == u.username && r.email == u.email
    ensures r.displayName == u.displayName && r.profilePicture == u.profilePicture && r.token == token
  {
    AuthResponse(id, u.username, u.email, u.displayName, u.profilePicture, token)
  }

  // ---------------------------------------------------------------------
  // register
  // ---------------------------------------------------------------------

  /** `User.findOne({ $or: [{ email }, { username }] })` finds a user: the
      query values go through the same setters as stored values. */
  predicate Taken(users: map<Id, User>, username: string, email: string)
  {
    exists k :: k in users && (users[k].username == NormalizeUsername(username) || users[k].email == NormalizeEmail(email))
  }

  /** The decision of `register` on the current users: 400 for a missing
      field or a clash, 500 when a validator fails, else the new user with
      its password replaced by `hash` by the pre-save hook. */
  function RegisterOutcome(users: map<Id, User>, username: Option<string>, email: Option<string>,
                           password: Option<string>, now: Time, hash: string): (r: Result<User>)
    ensures !(Truthy(username) && Truthy(email) && Truthy(password)) ==>
      r == Err(BadRequest, "Please provide all required fields")
    ensures Truthy(username) && Truthy(email) && Truthy(password) && Taken(users, username.value, email.value) ==>
      r == Err(BadRequest, "User already exists with this email or username")
    ensures Truthy(username) && Truthy(email) && Truthy(password) && !Taken(users, username.value, email.value) ==>
      (r.Ok? <==> Validates(Construct(username.value, email.value, password.value, now)))
    ensures r.Err? ==> r.status == BadRequest || r.status == ServerError
    ensures r.Ok? ==> r.value == PreSave(Construct(username.value, email.value, password.value, now), true, hash)
  {
    if !(Truthy(username) && Truthy(email) && Truthy(password)) then
      Err(BadRequest, "Please provide all required fields")
    else if Taken(users, username.value, email.value) then
      Err(BadRequest, "User already exists with this email or username")
    else
      var u := Construct(username.value, email.value, password.value, now);
      if Validates(u) then Ok(PreSave(u, true, hash)) else Err(ServerError, "User validation failed")
  }

  /** A registered user passed every setter and validator, carries the
      hash instead of the password, and clashes with no stored user. */
  lemma RegisteredIsNew(users: map<Id, User>, username: Option<string>, email: Option<string>,
                        password: Option<string>, now: Time, hash: string)
    requires |hash| >= PasswordMinLength
    requires RegisterOutcome(users, username, email, password, now, hash).Ok?
    ensures var u := RegisterOutcome(users, username, email, password, now, hash).value;
      && StoredUser(u) && u.password == hash
      && forall k :: k in users ==> users[k].username != u.username && users[k].email != u.email
  {
    var u0 := Construct(username.value, email.value, password.value, now);
    var u := PreSave(u0, true, hash);
    assert u == u0.(password := hash);
    assert ValidatesProfile(u0) && ValidatesProfile(u);
    assert !Taken(users, username.value, email.value);
  }

  /** `register`: the outcome above, and on success the user stored under a
      fresh id. `hash` stands for the bcrypt output, 60 characters long, so
      the stored password passes the validators on every later save. */
  method Register(db: Store, username: Option<string>, email: Option<string>, password: Option<string>,
                  freshId: Id, now: Time, hash: string, token: string) returns (r: Result<AuthResponse>)
    requires db.Valid() && freshId !in db.issued && |hash| >= PasswordMinLength
    modifies db
    ensures db.Valid()
    ensures var o := RegisterOutcome(old(db.users), username, email, password, now, hash);
      && (o.Err? ==> r == Err(o.status, o.message) && unchanged(db))
      && (o.Ok? ==> r == Ok(Response(freshId, o.value, token)) && db.users == old(db.users)[freshId := o.value])
    ensures db.articles == old(db.articles) && db.comments == old(db.comments)
  {
    var o := RegisterOutcome(db.users, username, email, password, now, hash);
    if o.Err? {
      return Err(o.status, o.message);
    }
    RegisteredIsNew(db.users, username, email, password, now, hash);
    db.InsertUser(freshId, o.value);
    r := Ok(Response(freshId, o.value, token));
  }

  /** Registration can never store a second user with a username or an
      email already in use: the unique indexes follow from the check. */
  lemma RegisterKeepsUnique(users: map<Id, User>, username: Option<string>, email: Option<string>,
                            password: Option<string>, now: Time, hash: string, freshId: Id)
    requires UsersUnique(users) && freshId !in users && |hash| >= PasswordMinLength
    requires RegisterOutcome(users, username, email, password, now, hash).Ok?
    ensures UsersUnique(users[freshId := RegisterOutcome(users, username, email, password, now, hash).value])
  {
    var u := RegisterOutcome(users, username, email, password, now, hash).value;
    RegisteredIsNew(users, username, email, password, now, hash);
    UsersUniqueInsert(users, freshId, u);
  }

  // ---------------------------------------------------------------------
  // login
  // ---------------------------------------------------------------------

  /** `login`: 400 for a missing field; otherwise success exactly when a
      user has that (normalised) email and the password matches its hash
      under `passwordMatches`, which stands for `bcrypt.compare`. An unknown
      email and a wrong password give the same 401. */
  method Login(db: Store, email: Option<string>, password: Option<string>,
               passwordMatches: (string, string) -> bool, tokenFor: Id -> string) returns (r: Result<AuthResponse>)
    requires db.Valid()
    ensures !(Truthy(email) && Truthy(password)) ==> r == Err(BadRequest, "Please provide email and password")
    ensures Truthy(email) && Truthy(password) ==>
      (r.Ok? <==> exists id :: id in db.users && db.users[id].email == NormalizeEmail(email.value)
                                && passwordMatches(password.value, db.users[id].password))
    ensures Truthy(email) && Truthy(password) && r.Err? ==> r == Err(Unauthorized, "Invalid email or password")
    ensures r.Ok? ==> exists id :: id in db.users && db.users[id].email == NormalizeEmail(email.value)
                                 && r.value == Response(id, db.users[id], tokenFor(id))
  {
    if !(Truthy(email) && Truthy(password)) {
      return Err(BadRequest, "Please provide email and password");
    }
    var e := NormalizeEmail(email.value);
    if !exists id :: id in db.users && db.users[id].email == e {
      return Err(Unauthorized, "Invalid email or password");
    }
    var id :| id in db.users && db.users[id].email == e;
    if !passwordMatches(password.value, db.users[id].password) {
      assert forall id' :: id' in db.users && db.users[id'].email == e ==> id' == id;
      return Err(Unauthorized, "Invalid email or password");
    }
    r := Ok(Response(id, db.users[id], tokenFor(id)));
  }

  // ---------------------------------------------------------------------
  // getMe
  // ---------------------------------------------------------------------

  /** `getMe`: the acting user without the password, or `null` when that
      user no longer exists. */
  function GetMe(users: map<Id, User>, actor: Id): (r: Option<PublicUser>)
    ensures r.Some? <==> actor in users
    ensures r.Some? ==> WithPassword(r.value, users[actor].password) == users[actor]
  {
    if actor in users then Some(ToJson(users[actor])) else None
  }

  // ---------------------------------------------------------------------
  // updateProfile
  // ---------------------------------------------------------------------

  /** The `socialLinks` object of the request: the keys it carries. */
  datatype LinksPatch = LinksPatch(github: Option<string>, linkedin: Option<string>,
                                   twitter: Option<string>, website: Option<string>)

  /** The fields `updateProfile` reads; `None` is a field absent from the
      body. */
  datatype ProfileRequest = ProfileRequest(displayName: Option<string>, bio: Option<string>,
                                           skills: Option<seq<string>>, location: Option<string>,
                                           socialLinks: Option<LinksPatch>)

  /** `{ ...stored, ...patch }`: every key the request carries wins, even
      with an empty value; every other key keeps its stored value. */
  function MergeLinks(stored: SocialLinks, patch: LinksPatch): (r: SocialLinks)
    ensures patch.github.Some? ==> r.github == patch.github.value
    ensures patch.github.None? ==> r.github == stored.github
    ensures patch.linkedin.Some? ==> r.linkedin == patch.linkedin.value
    ensures patch.linkedin.None? ==> r.linkedin == stored.linkedin
    ensures patch.twitter.Some? ==> r.twitter == patch.twitter.value
    ensures patch.twitter.None? ==> r.twitter == stored.twitter
    ensures patch.website.Some? ==> r.website == patch.website.value
    ensures patch.website.None? ==> r.website == stored.website
  {
    SocialLinks(
      if patch.github.Some? then patch.github.value else stored.github,
      if patch.linkedin.Some? then patch.linkedin.value else stored.linkedin,
      if patch.twitter.Some? then patch.twitter.value else stored.twitter,
      if patch.website.Some? then patch.website.value else stored.website)
  }

  /** The user after the assignments of `updateProfile`, before saving:
      display name, bio and location change only for a non-empty value,
      skills for any array, the links by merging; nothing else changes. */
  function ApplyProfile(u: User, req: ProfileRequest): (r: User)
    ensures r.displayName == if Truthy(req.displayName) then req.displayName.value else u.displayName
    ensures r.bio == if Truthy(req.bio) then req.bio.value else u.bio
    ensures r.skills == if req.skills.Some? then req.skills.value else u.skills
    ensures r.location == if Truthy(req.location) then req.location.value else u.location
    ensures r.socialLinks == if req.socialLinks.Some? then MergeLinks(u.socialLinks, req.socialLinks.value) else u.socialLinks
    ensures r.(displayName := u.displayName, bio := u.bio, skills := u.skills, location := u.location,
               socialLinks := u.socialLinks) == u
  {
    User(u.username, u.email, u.password,
         if Truthy(req.displayName) then req.displayName.value else u.displayName,
         if Truthy(req.bio) then req.bio.value else u.bio,
         u.profilePicture, u.coverImage,
         if req.socialLinks.Some? then MergeLinks(u.socialLinks, req.socialLinks.value) else u.socialLinks,
         if req.skills.Some? then req.skills.value else u.skills,
         if Truthy(req.location) then req.location.value else u.location,
         u.followers, u.following, u.followingTags, u.emailVerified, u.createdAt, u.updatedAt)
  }

  /** Sending the same profile update twice has the effect of sending it
      once. */
  lemma ApplyProfileIdempotent(u: User, req: ProfileRequest)
    ensures ApplyProfile(ApplyProfile(u, req), req) == ApplyProfile(u, req)
  {
    var once := ApplyProfile(u, req);
    if req.socialLinks.Some? {
      assert MergeLinks(once.socialLinks, req.socialLinks.value) == once.socialLinks;
    }
  }

  /** An empty string in the request never clears a stored value. */
  lemma EmptyNeverClears(u: User, req: ProfileRequest)
    requires req.displayName == Some("") && req.bio == Some("") && req.location == Some("")
    ensures var r := ApplyProfile(u, req);
      r.displayName == u.displayName && r.bio == u.bio && r.location == u.location
  {
  }

  /** A profile update leaves the username, email and stored password as
      they were, so on a stored user the validators `save()` runs can fail
      only on the new bio. */
  lemma ProfileKeepsStored(u: User, req: ProfileRequest)
    requires StoredUser(u)
    ensures var r := ApplyProfile(u, req);
      Normalized(r) && (Validates(r) <==> |r.bio| <= BioMaxLength)
  {
  }

  /** `updateProfile`: 404 when the acting user no longer exists; 500 when
      the new bio is over 200 characters (the only validator the update
      can break); otherwise the updated user, saved (the password
      untouched, so not re-hashed) and shown without its password. */
  method UpdateProfile(db: Store, actor: Id, req: ProfileRequest, now: Time) returns (r: Result<PublicUser>)
    requires db.Valid()
    modifies db
    ensures db.Valid()
    ensures actor !in old(db.users) ==> r == Err(NotFound, "User not found")
    ensures actor in old(db.users) ==>
      var after := ApplyProfile(old(db.users[actor]), req);
      if |after.bio| <= BioMaxLength
      then && r == Ok(ToJson(Saved(old(db.users[actor]), after, now)))
           && db.users == old(db.users)[actor := Saved(old(db.users[actor]), after, now)]
      else r.Err? && r.status == ServerError
    ensures r.Err? ==> unchanged(db)
    ensures db.articles == old(db.articles) && db.comments == old(db.comments) && db.issued == old(db.issued)
  {
    if actor !in db.users {
      return Err(NotFound, "User not found");
    }
    var before := db.users[actor];
    var after := PreSave(ApplyProfile(before, req), false, "");
    ProfileKeepsStored(before, req);
    if !Validates(after) {
      return Err(ServerError, "User validation failed");
    }
    var saved := Saved(before, after, now);
    db.ReplaceUser(actor, saved);
    r := Ok(ToJson(saved));
  }
}
