/** The account operations of the user service: register, log in, reset a
    password with a reset token, and update one's profile. Password
    comparison and token hashing are passed in as functions; issuing a
    session token is left to the caller of the model; an uploaded picture
    is the URL the media host returned for it. */
module UserService {
  import opened Results
  import opened Schema
  import Keys
  import Text

  const UserExists := "User exists with this email"
  const InvalidCredentials := "Invalid email or password"
  const InvalidResetToken := "Invalid or expired reset token"
  const ResetDone := "Password reset successful"
  const UserNotFound := "User not found"

  /** The folder the media host keeps profile pictures in. */
  const PicturesFolder := "profile_pictures/"

  /** The substring that marks a picture URL as one the media host holds. */
  const MediaHost := "cloudinary.com"

  /** `User.findOne({ email })`. The schema's `lowercase` setter also
      applies to query values, so the lookup is by the lower-cased email. */
  function FindByEmail(users: Users, email: string): (r: Option<UserId>)
    ensures r.None? <==> forall id | id in users :: users[id].email != Text.Lower(email)
    ensures r.Some? ==> r.value in users && users[r.value].email == Text.Lower(email)
  {
    Keys.FirstKey(users, (u: User) => u.email == Text.Lower(email))
  }

  // ------------------------------------------------------------- register

  /** `registerService`: 400 when a user already has the email; otherwise
      `User.create` with the given name, email and password, which fails
      with 500 when a required path is missing or blank after its setter.
      The new user and its id come back; the session token is not modelled. */
  function Register(users: Users, name: Option<string>, email: string, password: Option<string>,
                    now: Time): (r: Reply<Users, Account>)
    ensures r.released == []
    ensures (exists id | id in users :: users[id].email == Text.Lower(email)) ==>
      r == Fail(users, 400, UserExists)
    ensures r.result.Err? ==> r.store == users
    ensures r.result.Err? && (forall id | id in users :: users[id].email != Text.Lower(email)) ==>
      r.result.status == 500
    ensures r.result.Ok? <==>
      && (forall id | id in users :: users[id].email != Text.Lower(email))
      && name.Some? && Text.Trim(name.value) != ""
      && Text.Lower(email) != ""
      && Truthy(password)
    ensures r.result.Ok? ==>
      var a := r.result.value;
      && a.id !in users
      && r.store == users[a.id := a.user]
      && a.user.name == Text.Trim(name.value)
      && a.user.email == Text.Lower(email)
      && a.user.password == password.value
      && a.user.profilePicture == "" && a.user.bio == ""
      && a.user.followers == [] && a.user.following == []
      && a.user.resetPasswordToken.None? && a.user.resetPasswordExpires.None?
      && a.user.createdAt == now && a.user.updatedAt == now
    ensures ValidUsers(users) ==> ValidUsers(r.store)
  {
    if FindByEmail(users, email).Some? then Fail(users, 400, UserExists)
    else
      var created := CreateUser(users, name, Some(email), password, now);
      assert !EmailTaken(users, Text.Lower(email), None);
      if created.Err? then Fail(users, created.status, created.message)
      else
        var (users', id) := created.value;
        assert users' == users[id := users'[id]];
        Reply(users', [], Ok(Account(id, users'[id])))
  }

  // ---------------------------------------------------------------- login

  /** `loginSerice`: the user with the (lower-cased) email, if the password
      matches the stored one. An unknown email and a wrong password fail
      with the same 400 error, so a caller cannot tell them apart. Logging
      in changes nothing. */
  function Login(users: Users, email: string, password: string,
                 passwordMatches: (string, string) -> bool): (r: Result<Account>)
    ensures r.Err? ==> r == Err(400, InvalidCredentials)
    ensures r.Ok? ==>
      && r.value.id in users
      && r.value.user == users[r.value.id]
      && r.value.user.email == Text.Lower(email)
      && passwordMatches(password, r.value.user.password)
    ensures (forall id | id in users :: users[id].email != Text.Lower(email)) ==> r.Err?
    ensures ValidUsers(users) ==>
      (r.Ok? <==> exists id | id in users ::
                    users[id].email == Text.Lower(email) && passwordMatches(password, users[id].password))
  {
    match FindByEmail(users, email)
    case None => Err(400, InvalidCredentials)
    case Some(id) =>
      if !passwordMatches(password, users[id].password) then Err(400, InvalidCredentials)
      else Ok(Account(id, users[id]))
  }

  // ---------------------------------------------------------------- reset

  /** The reset query's condition: the stored token is the hash of the one
      presented and has not expired (`resetPasswordExpires > now`). */
  predicate ResetMatches(u: User, tokenHash: string, now: Time) {
    u.resetPasswordToken == Some(tokenHash)
    && u.resetPasswordExpires.Some? && u.resetPasswordExpires.value > now
  }

  /** The user the reset query finds. */
  function ResetTarget(users: Users, tokenHash: string, now: Time): (r: Option<UserId>)
    ensures r.None? <==> forall id | id in users :: !ResetMatches(users[id], tokenHash, now)
    ensures r.Some? ==> r.value in users && ResetMatches(users[r.value], tokenHash, now)
  {
    Keys.FirstKey(users, (u: User) => ResetMatches(u, tokenHash, now))
  }

  /** `resetPasswordService`: find the user holding the hash of the token,
      unexpired; 400 when there is none. Otherwise store the new password
      and clear the token and its expiry. */
  function Reset(users: Users, token: string, password: string, hash: string -> string,
                 now: Time): (r: Reply<Users, string>)
    ensures r.released == []
    ensures r.result.Ok? <==> exists id | id in users :: ResetMatches(users[id], hash(token), now)
    ensures r.result.Err? ==> r == Fail(users, 400, InvalidResetToken)
    ensures r.result.Ok? ==>
      var id := ResetTarget(users, hash(token), now).value;
      && r.result.value == ResetDone
      && r.store == users[id := users[id].(password := password,
                                           resetPasswordToken := None,
                                           resetPasswordExpires := None,
                                           updatedAt := now)]
    ensures ValidUsers(users) ==> ValidUsers(r.store)
  {
    match ResetTarget(users, hash(token), now)
    case None => Fail(users, 400, InvalidResetToken)
    case Some(id) =>
      var u := users[id];
      var u' := u.(password := password, resetPasswordToken := None, resetPasswordExpires := None);
      Reply(users[id := Touch(u, u', now)], [], Ok(ResetDone))
  }

  // ------------------------------------------------------- update profile

  /** The public id of a profile picture the media host holds:
      `profile_pictures/` and the URL's file name without extension, or
      none when that name is empty (the service skips the release then). */
  function PicturePublicId(url: string): (r: Option<string>)
    ensures r.None? <==> Text.FileStem(url) == ""
    ensures r.Some? ==>
      && |r.value| > |PicturesFolder| && r.value[..|PicturesFolder|] == PicturesFolder
      && Text.IsFileStem(url, r.value[|PicturesFolder|..])
  {
    var stem := Text.FileStem(url);
    if stem == "" then None
    else
      assert (PicturesFolder + stem)[|PicturesFolder|..] == stem;
      Some(PicturesFolder + stem)
  }

  /** The asset an update with a new picture releases: the current
      picture's public id, when its URL is on the media host and names a file.
      No new picture, no release. */
  function PictureReleases(current: string, picture: Option<string>): (r: seq<string>)
    ensures |r| <= 1
    ensures |r| == 1 <==> picture.Some? && Text.Contains(current, MediaHost) && Text.FileStem(current) != ""
    ensures |r| == 1 ==> r[0] == PicturePublicId(current).value
  {
    if picture.Some? && Text.Contains(current, MediaHost) then
      match PicturePublicId(current)
      case Some(publicId) => [publicId]
      case None => []
    else []
  }

  /** The profile after the request's fields are applied: a new picture
      replaces the old one; name, email and bio replace theirs only when
      given non-empty, through the `trim` and `lowercase` setters. */
  function EditProfile(u: User, name: Option<string>, email: Option<string>, bio: Option<string>,
                       picture: Option<string>): (v: User)
    ensures v.name == (if Truthy(name) then Text.Trim(name.value) else u.name)
    ensures v.email == (if Truthy(email) then Text.Lower(email.value) else u.email)
    ensures v.bio == (if Truthy(bio) then bio.value else u.bio)
    ensures v.profilePicture == (if picture.Some? then picture.value else u.profilePicture)
    ensures v == u.(name := v.name, email := v.email, bio := v.bio, profilePicture := v.profilePicture)
    ensures WellFormed(u) ==> WellFormed(v)
  {
    var u1 := if picture.Some? then u.(profilePicture := picture.value) else u;
    var u2 := if Truthy(name) then u1.(name := Text.Trim(name.value)) else u1;
    var u3 := if Truthy(email) then u2.(email := Text.Lower(email.value)) else u2;
    if Truthy(bio) then u3.(bio := bio.value) else u3
  }

  /** `updateProfileService`. The caller's own user is loaded (404 when
      there is none). With a new picture, the old one is released first
      when its URL is on the media host, then replaced. Name, email and bio
      are overwritten only when given non-empty, and `updatedAt` moves to
      `now` exactly when the profile changed; nothing else changes. The
      save skips validation but not the unique email index, so taking
      another user's email fails with 500, after the old picture was
      already released. */
  function UpdateProfile(users: Users, caller: Option<Account>, name: Option<string>,
                         email: Option<string>, bio: Option<string>, picture: Option<string>,
                         now: Time): (r: Reply<Users, User>)
    ensures caller.None? || caller.value.id !in users ==> r == Fail(users, 404, UserNotFound)
    ensures caller.Some? && caller.value.id in users ==>
      var id := caller.value.id;
      var before := users[id];
      var after := EditProfile(before, name, email, bio, picture);
      && r.released == PictureReleases(before.profilePicture, picture)
      && (r.result.Ok? <==> !EmailTaken(users, after.email, Some(id)))
      && (r.result.Err? ==> r.store == users && r.result.status == 500)
      && (r.result.Ok? ==>
            && r.result.value == Touch(before, after, now)
            && r.store == users[id := Touch(before, after, now)])
    ensures ValidUsers(users) ==> ValidUsers(r.store)
  {
    if caller.None? || caller.value.id !in users then Fail(users, 404, UserNotFound)
    else
      var id := caller.value.id;
      var u := users[id];
      var released := PictureReleases(u.profilePicture, picture);
      var edited := EditProfile(u, name, email, bio, picture);
      assert ValidUsers(users) ==> WellFormed(edited);
      match SaveUser(users, id, edited, now)
      case Err(status, message) => Reply(users, released, Err(status, message))
      case Ok(users') => Reply(users', released, Ok(users'[id]))
  }
}
