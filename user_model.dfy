/** The user schema: fields, setters (trim, lowercase), validators
    (length bounds, the email pattern), defaults, the pre-save password
    hook and the password-free JSON view. */
module UserModel {
  import opened Common
  import opened JsString

  const UsernameMinLength: nat := 3
  const UsernameMaxLength: nat := 30
  const PasswordMinLength: nat := 6
  const BioMaxLength: nat := 200
  const DefaultProfilePicture: string := "https://via.placeholder.com/150"

  datatype SocialLinks = SocialLinks(github: string, linkedin: string, twitter: string, website: string)

  const NoSocialLinks := SocialLinks("", "", "", "")

  datatype User = User(
    username: string,
    email: string,
    password: string,
    displayName: string,
    bio: string,
    profilePicture: string,
    coverImage: string,
    socialLinks: SocialLinks,
    skills: seq<string>,
    location: string,
    followers: seq<Id>,
    following: seq<Id>,
    followingTags: seq<string>,
    emailVerified: bool,
    createdAt: Time,
    updatedAt: Time)

  /** A user as it leaves the server: every field but the password. */
  datatype PublicUser = PublicUser(
    username: string,
    email: string,
    displayName: string,
    bio: string,
    profilePicture: string,
    coverImage: string,
    socialLinks: SocialLinks,
    skills: seq<string>,
    location: string,
    followers: seq<Id>,
    following: seq<Id>,
    followingTags: seq<string>,
    emailVerified: bool,
    createdAt: Time,
    updatedAt: Time)

  /** The username setter: trimmed. */
  function NormalizeUsername(u: string): string
  {
    Trim(u)
  }

  /** The email setters: lowercased and trimmed. */
  function NormalizeEmail(e: string): (r: string)
    ensures Trimmed(r) && Lowercase(r)
  {
    var t := ToLower(e);
    var r := Trim(t);
    assert Lowercase(r) by {
      var a, b :| 0 <= a <= b <= |t| && r == t[a..b];
    }
    r
  }

  lemma NormalizeEmailIdempotent(e: string)
    ensures NormalizeEmail(NormalizeEmail(e)) == NormalizeEmail(e)
  {
    var n := NormalizeEmail(e);
    ToLowerFixes(n);
    TrimFixes(n);
  }

  /** The pattern `^\S+@\S+\.\S+$`, by positions: no whitespace anywhere,
      an `@` at some index i >= 1, and a `.` at some index j with
      i + 1 < j < |e| - 1. */
  predicate EmailMatches(e: string)
  {
    && NoSpace(e)
    && exists i, j :: 1 <= i && i + 1 < j < |e| - 1 && e[i] == '@' && e[j] == '.'
  }

  /** The pattern read as the concatenation it describes: three non-empty
      runs of non-whitespace joined by `@` and `.`. */
  ghost predicate EmailPattern(e: string)
  {
    exists a: string, b: string, c: string ::
      && e == a + "@" + b + "." + c
      && a != [] && b != [] && c != []
      && NoSpace(a) && NoSpace(b) && NoSpace(c)
  }

  /** A string the positional check accepts splits as the pattern does. */
  lemma MatchIsPattern(e: string)
    requires EmailMatches(e)
    ensures EmailPattern(e)
  {
    var i, j :| 1 <= i && i + 1 < j < |e| - 1 && e[i] == '@' && e[j] == '.';
    var a, b, c := e[..i], e[i + 1..j], e[j + 1..];
    assert e == a + "@" + b + "." + c;
    assert forall k :: 0 <= k < |b| ==> b[k] == e[i + 1 + k];
    assert forall k :: 0 <= k < |c| ==> c[k] == e[j + 1 + k];
    assert NoSpace(a) && NoSpace(b) && NoSpace(c);
  }

  /** A string of the pattern's shape passes the positional check. */
  lemma PatternIsMatch(e: string)
    requires EmailPattern(e)
    ensures EmailMatches(e)
  {
    var a: string, b: string, c: string :|
      && e == a + "@" + b + "." + c
      && a != [] && b != [] && c != []
      && NoSpace(a) && NoSpace(b) && NoSpace(c);
    var i, j := |a|, |a| + 1 + |b|;
    assert e[i] == '@' && e[j] == '.';
    forall k | 0 <= k < |e| ensures !IsSpace(e[k]) {
      if k < i {
        assert e[k] == a[k];
      } else if i < k < j {
        assert e[k] == b[k - i - 1];
      } else if j < k {
        assert e[k] == c[k - j - 1];
      }
    }
  }

  /** The positional check accepts exactly the strings the pattern does. */
  lemma EmailMatchesPattern(e: string)
    ensures EmailMatches(e) <==> EmailPattern(e)
  {
    if EmailMatches(e) {
      MatchIsPattern(e);
    }
    if EmailPattern(e) {
      PatternIsMatch(e);
    }
  }

  /** The validators of every field but the password: username required,
      3 to 30 characters; email required and matching the pattern; bio at
      most 200 characters. */
  predicate ValidatesProfile(u: User)
  {
    && u.username != "" && UsernameMinLength <= |u.username| <= UsernameMaxLength
    && u.email != "" && EmailMatches(u.email)
    && |u.bio| <= BioMaxLength
  }

  /** All validators, as run on a new user before its password is hashed:
      the plain password is required and at least 6 characters. */
  predicate Validates(u: User)
  {
    ValidatesProfile(u) && u.password != "" && |u.password| >= PasswordMinLength
  }

  /** What the setters guarantee of every stored user. */
  predicate Normalized(u: User)
  {
    Trimmed(u.username) && Trimmed(u.email) && Lowercase(u.email)
  }

  /** A normalized user is a fixpoint of its setters. */
  lemma NormalizedFixed(u: User)
    requires Normalized(u)
    ensures NormalizeUsername(u.username) == u.username && NormalizeEmail(u.email) == u.email
  {
    TrimFixes(u.username);
    ToLowerFixes(u.email);
    TrimFixes(u.email);
  }

  /** A new user from the registration fields: setters applied, the
      display name defaulting to the (trimmed) username, every other
      profile field at its schema default. */
  function Construct(username: string, email: string, password: string, now: Time): (u: User)
    ensures Normalized(u)
    ensures u.username == NormalizeUsername(username) && u.email == NormalizeEmail(email)
    ensures u.password == password && u.displayName == u.username
    ensures u.bio == "" && u.location == "" && u.coverImage == ""
    ensures u.profilePicture == DefaultProfilePicture && u.socialLinks == NoSocialLinks
    ensures u.skills == [] && u.followers == [] && u.following == [] && u.followingTags == []
    ensures !u.emailVerified && u.createdAt == now && u.updatedAt == now
  {
    var name := NormalizeUsername(username);
    User(name, NormalizeEmail(email), password, name, "", DefaultProfilePicture, "",
         NoSocialLinks, [], "", [], [], [], false, now, now)
  }

  /** The pre-save hook: the password is replaced by its hash only when it
      was modified; any other save keeps the stored value. */
  function PreSave(u: User, passwordModified: bool, hash: string): (r: User)
    ensures r.(password := u.password) == u
    ensures passwordModified ==> r.password == hash
    ensures !passwordModified ==> r == u
  {
    if passwordModified then u.(password := hash) else u
  }

  /** `user.save()` on a document changed from `before` to `after`:
      `updatedAt` moves to `now` only when some field changed. This is the
      rule of `ArticleModel.Saved`; every schema enables the same
      `timestamps` option, and each is written out for its own record type. */
  function Saved(before: User, after: User, now: Time): (r: User)
    ensures r.(updatedAt := after.updatedAt) == after
    ensures r.updatedAt == (if after.(updatedAt := before.updatedAt) == before then before.updatedAt else now)
  {
    if after.(updatedAt := before.updatedAt) == before then before else after.(updatedAt := now)
  }

  /** `toJSON`: the record with its password deleted. */
  function ToJson(u: User): PublicUser
  {
    PublicUser(u.username, u.email, u.displayName, u.bio, u.profilePicture, u.coverImage,
               u.socialLinks, u.skills, u.location, u.followers, u.following,
               u.followingTags, u.emailVerified, u.createdAt, u.updatedAt)
  }

  /** The record a public view came from, given the password it lacks. */
  function WithPassword(p: PublicUser, password: string): User
  {
    User(p.username, p.email, password, p.displayName, p.bio, p.profilePicture, p.coverImage,
         p.socialLinks, p.skills, p.location, p.followers, p.following,
         p.followingTags, p.emailVerified, p.createdAt, p.updatedAt)
  }

  /** The JSON view is exactly the record minus its password: it does not
      depend on the password, and adding the password back restores the
      record. */
  lemma ToJsonIsRecordMinusPassword(u: User, otherPassword: string)
    ensures ToJson(u.(password := otherPassword)) == ToJson(u)
    ensures WithPassword(ToJson(u), u.password) == u
    ensures ToJson(WithPassword(ToJson(u), otherPassword)) == ToJson(u)
  {
  }
}
