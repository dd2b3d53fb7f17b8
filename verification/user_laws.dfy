/** Properties that relate several calls of the user service. */
module UserLaws {
  import opened Results
  import opened Schema
  import opened UserService
  import Text

  /** Whoever registers can log in with the same email and password, and
      gets back the account registration created. */
  lemma RegisterThenLogin(users: Users, name: Option<string>, email: string, password: Option<string>,
                          now: Time, passwordMatches: (string, string) -> bool)
    requires ValidUsers(users)
    requires Register(users, name, email, password, now).result.Ok?
    requires passwordMatches(password.value, password.value)
    ensures var r := Register(users, name, email, password, now);
            Login(r.store, email, password.value, passwordMatches) == Ok(r.result.value)
  {
    var r := Register(users, name, email, password, now);
    var a := r.result.value;
    assert a.id in r.store && r.store[a.id].email == Text.Lower(email);
    var found := FindByEmail(r.store, email);
    assert found == Some(a.id);
  }

  /** An unknown email and a known email with a wrong password get the same
      answer. */
  lemma LoginFailuresAlike(users: Users, unknown: string, known: UserId, password: string,
                           passwordMatches: (string, string) -> bool)
    requires ValidUsers(users)
    requires forall id | id in users :: users[id].email != Text.Lower(unknown)
    requires known in users && !passwordMatches(password, users[known].password)
    ensures Login(users, unknown, password, passwordMatches)
         == Login(users, users[known].email, password, passwordMatches)
  {
    Text.LowerLower(users[known].email);
    assert FindByEmail(users, users[known].email) == Some(known);
  }

  /** A reset token works once: after a successful reset the user it
      served no longer matches it, at any time, so a second reset with the
      same token fails unless another user holds the same hash. */
  lemma ResetOnce(users: Users, token: string, p1: string, p2: string, hash: string -> string,
                  t1: Time, t2: Time)
    requires Reset(users, token, p1, hash, t1).result.Ok?
    ensures var id := ResetTarget(users, hash(token), t1).value;
            var r1 := Reset(users, token, p1, hash, t1);
            && id in r1.store
            && !ResetMatches(r1.store[id], hash(token), t2)
            && ((forall other | other in users && other != id :: !ResetMatches(users[other], hash(token), t2)) ==>
                  Reset(r1.store, token, p2, hash, t2) == Fail(r1.store, 400, InvalidResetToken))
  {
    var id := ResetTarget(users, hash(token), t1).value;
    var r1 := Reset(users, token, p1, hash, t1);
    if forall other | other in users && other != id :: !ResetMatches(users[other], hash(token), t2) {
      assert forall other | other in r1.store :: !ResetMatches(r1.store[other], hash(token), t2);
    }
  }

  /** Only the fields a reset is about change. */
  lemma ResetKeepsProfile(users: Users, token: string, password: string, hash: string -> string, now: Time)
    requires Reset(users, token, password, hash, now).result.Ok?
    ensures var id := ResetTarget(users, hash(token), now).value;
            var after := Reset(users, token, password, hash, now).store[id];
            && after.name == users[id].name && after.email == users[id].email
            && after.profilePicture == users[id].profilePicture && after.bio == users[id].bio
            && after.followers == users[id].followers && after.following == users[id].following
            && after.createdAt == users[id].createdAt
  {
  }

  /** Sending the same name, email and bio again changes nothing more:
      `trim` and `lowercase` are idempotent. */
  lemma EditProfileIdempotent(u: User, name: Option<string>, email: Option<string>, bio: Option<string>,
                              picture: Option<string>)
    ensures var v := EditProfile(u, name, email, bio, picture);
            EditProfile(v, name, email, bio, picture) == v
  {
    var v := EditProfile(u, name, email, bio, picture);
    if Truthy(name) {
      Text.TrimIdempotent(name.value);
    }
    if Truthy(email) {
      Text.LowerLower(Text.Lower(email.value));
    }
  }

  /** A name of blanks passes the truthiness test, is trimmed to `""` and,
      with validation skipped, is saved: the user ends up with an empty
      name, which `User.create` would have refused. */
  lemma UpdateProfileCanBlankName(users: Users, caller: Option<Account>, now: Time)
    requires ValidUsers(users)
    requires caller.Some? && caller.value.id in users
    ensures var r := UpdateProfile(users, caller, Some(" "), None, None, None, now);
            r.result.Ok? && r.result.value.name == "" && r.store[caller.value.id].name == ""
  {
    Text.TrimBlank(" ");
  }

  /** Taking another user's email fails, but an old picture on the media
      host has already been released by then. */
  lemma FailedUpdateStillReleases(users: Users, caller: Option<Account>, other: UserId,
                                  email: string, picture: string, now: Time)
    requires caller.Some? && caller.value.id in users
    requires other in users && other != caller.value.id
    requires email != "" && users[other].email == Text.Lower(email)
    requires Text.Contains(users[caller.value.id].profilePicture, MediaHost)
    requires Text.FileStem(users[caller.value.id].profilePicture) != ""
    ensures var r := UpdateProfile(users, caller, None, Some(email), None, Some(picture), now);
            && r.result == Err(500, DuplicateKey)
            && r.store == users
            && |r.released| == 1
  {
    var after := EditProfile(users[caller.value.id], None, Some(email), None, Some(picture));
    assert EmailTaken(users, after.email, Some(caller.value.id));
  }
}
