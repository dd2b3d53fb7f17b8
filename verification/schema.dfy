/** The two document schemas: posts and users, with their required paths,
    their defaults and the setters and index that apply when a document is
    created or saved. Stores are maps from id to document. */
module Schema {
  import opened Results
  import Keys
  import Text

  type UserId = nat
  type PostId = nat

  /** Milliseconds since the epoch, the unit of `Date.now()`. */
  type Time = nat

  /** A post document. `author` and `content` are required; `media`,
      `likes` and `shares` are arrays, which Mongoose fills with `[]` when
      a document does not set them; `originalPost` and `shareThoughts` are
      optional; `createdAt` and `updatedAt` are the schema's timestamps. */
  datatype Post = Post(
    author: UserId,
    content: string,
    media: seq<string>,
    likes: seq<UserId>,
    shares: seq<UserId>,
    originalPost: Option<PostId>,
    shareThoughts: Option<string>,
    createdAt: Time,
    updatedAt: Time)

  /** A user document. `name` (trimmed), `email` (lower-cased, unique) and
      `password` are required; `profilePicture` and `bio` default to `""`;
      `followers` and `following` are arrays of user ids; the reset token
      and its expiry are optional. */
  datatype User = User(
    name: string,
    email: string,
    password: string,
    profilePicture: string,
    bio: string,
    followers: seq<UserId>,
    following: seq<UserId>,
    resetPasswordToken: Option<string>,
    resetPasswordExpires: Option<Time>,
    createdAt: Time,
    updatedAt: Time)

  type Posts = map<PostId, Post>
  type Users = map<UserId, User>

  /** The user document the authentication middleware attaches to a
      request, with its id. */
  datatype Account = Account(id: UserId, user: User)

  const ValidationFailed := "validation failed"
  const DuplicateKey := "E11000 duplicate key error"

  /** JavaScript truthiness of an optional string: present and non-empty.
      It is also what a `required` string path accepts. */
  predicate Truthy(v: Option<string>) {
    v.Some? && v.value != ""
  }

  // ---------------------------------------------------------------- posts

  /** The store invariant the post schema maintains: every post has
      content. */
  ghost predicate ValidPosts(posts: Posts) {
    forall id | id in posts :: posts[id].content != ""
  }

  /** `Post.create(...)`: validate the required paths, then insert under a
      fresh id with empty `likes` and `shares` and both timestamps set to
      `now`. A validation failure is not a `CustomError`, so it surfaces
      with status 500. */
  function CreatePost(posts: Posts, author: Option<UserId>, content: Option<string>,
                      media: seq<string>, originalPost: Option<PostId>,
                      shareThoughts: Option<string>, now: Time): (r: Result<(Posts, PostId)>)
    ensures r.Ok? <==> author.Some? && Truthy(content)
    ensures r.Err? ==> r.status == 500
    ensures r.Ok? ==>
      var (posts', id) := r.value;
      && id !in posts
      && (forall old_id | old_id in posts :: old_id < id)
      && posts'.Keys == posts.Keys + {id}
      && (forall other | other in posts :: posts'[other] == posts[other])
      && posts'[id] == Post(author.value, content.value, media, [], [],
                            originalPost, shareThoughts, now, now)
  {
    if author.None? || !Truthy(content) then Err(500, "Post " + ValidationFailed)
    else
      var id := Keys.Fresh(posts.Keys);
      Ok((posts[id := Post(author.value, content.value, media, [], [],
                           originalPost, shareThoughts, now, now)], id))
  }

  /** `doc.save()` of a post that was modified: the new content replaces the
      old and `updatedAt` becomes `now`. Post saves in the services skip
      validation and no post path carries an index, so they cannot fail. */
  function SavePost(posts: Posts, id: PostId, p: Post, now: Time): (posts': Posts)
    requires id in posts
    ensures posts'.Keys == posts.Keys
    ensures posts'[id] == p.(updatedAt := now)
    ensures forall other | other in posts && other != id :: posts'[other] == posts[other]
  {
    posts[id := p.(updatedAt := now)]
  }

  // ---------------------------------------------------------------- users

  /** What the user schema's setters and the email validator guarantee of
      one document: a trimmed name and a non-empty lower-case email. */
  predicate WellFormed(u: User) {
    Text.IsTrimmed(u.name) && Text.IsLower(u.email) && u.email != ""
  }

  /** The store invariant the user schema maintains: every user is well
      formed and no two users share an email (the unique index). */
  ghost predicate ValidUsers(users: Users) {
    && (forall id | id in users :: WellFormed(users[id]))
    && (forall a, b | a in users && b in users && a != b :: users[a].email != users[b].email)
  }

  /** The unique email index: does a user other than `self` hold `email`? */
  predicate EmailTaken(users: Users, email: string, self: Option<UserId>) {
    exists id | id in users :: users[id].email == email && Some(id) != self
  }

  /** `User.create({ name, email, password })`: the `trim` and `lowercase`
      setters apply, the required paths are validated on the set values,
      `profilePicture` and `bio` default to `""`, the follow lists to `[]`,
      and the unique email index rejects an email already held. */
  function CreateUser(users: Users, name: Option<string>, email: Option<string>,
                      password: Option<string>, now: Time): (r: Result<(Users, UserId)>)
    ensures r.Ok? <==>
      && name.Some? && Text.Trim(name.value) != ""
      && email.Some? && Text.Lower(email.value) != ""
      && Truthy(password)
      && !EmailTaken(users, Text.Lower(email.value), None)
    ensures r.Ok? ==>
      var (users', id) := r.value;
      && id !in users
      && users'.Keys == users.Keys + {id}
      && (forall other | other in users :: users'[other] == users[other])
      && name.Some? && email.Some? && Truthy(password)
      && users'[id].name == Text.Trim(name.value) && users'[id].name != ""
      && users'[id].email == Text.Lower(email.value) && users'[id].email != ""
      && users'[id].password == password.value
      && users'[id].profilePicture == "" && users'[id].bio == ""
      && users'[id].followers == [] && users'[id].following == []
      && users'[id].resetPasswordToken.None? && users'[id].resetPasswordExpires.None?
      && users'[id].createdAt == now && users'[id].updatedAt == now
    ensures r.Err? ==> r.status == 500
    ensures ValidUsers(users) && r.Ok? ==> ValidUsers(r.value.0)
  {
    if name.None? || Text.Trim(name.value) == "" || email.None? || Text.Lower(email.value) == ""
       || !Truthy(password) then
      Err(500, "User " + ValidationFailed)
    else if EmailTaken(users, Text.Lower(email.value), None) then
      Err(500, DuplicateKey)
    else
      var id := Keys.Fresh(users.Keys);
      var u := User(Text.Trim(name.value), Text.Lower(email.value), password.value, "", "",
                    [], [], None, None, now, now);
      Ok((users[id := u], id))
  }

  /** Mongoose's timestamp rule on save: `updatedAt` becomes `now` only when
      some path changed. */
  function Touch(before: User, after: User, now: Time): (u: User)
    ensures u == after.(updatedAt := u.updatedAt)
    ensures u.updatedAt == if after.(updatedAt := before.updatedAt) == before then before.updatedAt else now
  {
    if after.(updatedAt := before.updatedAt) == before then before else after.(updatedAt := now)
  }

  /** `user.save({ validateBeforeSave: false })`: no validator runs, but the
      unique email index still rejects an email another user holds. */
  function SaveUser(users: Users, id: UserId, u: User, now: Time): (r: Result<Users>)
    requires id in users
    ensures r.Ok? <==> !EmailTaken(users, u.email, Some(id))
    ensures r.Err? ==> r.status == 500
    ensures r.Ok? ==> r.value == users[id := Touch(users[id], u, now)]
    ensures ValidUsers(users) && WellFormed(u) && r.Ok? ==> ValidUsers(r.value)
  {
    if EmailTaken(users, u.email, Some(id)) then Err(500, DuplicateKey)
    else Ok(users[id := Touch(users[id], u, now)])
  }
}
