/** The post service: create, delete, share and like. Each call takes the
    post store, the signed-in caller (None when the request carries no
    user) and the request's arguments, and returns a `Reply`. Uploads are
    URLs the media host already returned; releases are reported in the
    reply. */
module PostService {
  import opened Results
  import opened Schema
  import Text

  const Unauthorized := "Unauthorized"
  const PostNotFound := "Post not found"
  const NotOwner := "Yuo are not owner of this post"

  /** The folder the media host keeps post media in. */
  const PostsFolder := "posts/"

  // --------------------------------------------------------------- create

  /** `createPostService`. The uploaded URLs are passed under the key
      `images`, which the post schema does not declare, so strict mode drops
      them and the post is stored with no media. There is no check for a
      caller: without one the `author` path is missing and `Post.create`
      fails validation. */
  function Create(posts: Posts, caller: Option<Account>, content: Option<string>,
                  uploaded: seq<string>, now: Time): (r: Reply<Posts, (PostId, Post)>)
    ensures r.released == []
    ensures r.result.Ok? <==> caller.Some? && Truthy(content)
    ensures r.result.Err? ==> r.store == posts && r.result.status == 500
    ensures r.result.Ok? ==>
      var (id, p) := r.result.value;
      && id !in posts
      && r.store == posts[id := p]
      && p == Post(caller.value.id, content.value, [], [], [], None, None, now, now)
    ensures ValidPosts(posts) ==> ValidPosts(r.store)
  {
    var author := if caller.Some? then Some(caller.value.id) else None;
    match CreatePost(posts, author, content, [], None, None, now)
    case Err(status, message) => Fail(posts, status, message)
    case Ok((posts', id)) => Reply(posts', [], Ok((id, posts'[id])))
  }

  // --------------------------------------------------------------- delete

  /** `isPostOwner`: the post's author is the given user. */
  predicate IsPostOwner(userId: UserId, post: Post) {
    post.author == userId
  }

  /** The public id under which the media host keeps the asset at `url`:
      `posts/` followed by the URL's file name without its extension. */
  function MediaPublicId(url: string): (id: string)
    ensures |id| >= |PostsFolder| && id[..|PostsFolder|] == PostsFolder
    ensures Text.IsFileStem(url, id[|PostsFolder|..])
  {
    var stem := Text.FileStem(url);
    assert (PostsFolder + stem)[|PostsFolder|..] == stem;
    PostsFolder + stem
  }

  /** The public ids of all of a post's media, in media order. */
  function MediaPublicIds(media: seq<string>): (ids: seq<string>)
    ensures |ids| == |media|
    ensures forall i | 0 <= i < |media| :: ids[i] == MediaPublicId(media[i])
  {
    seq(|media|, i requires 0 <= i < |media| => MediaPublicId(media[i]))
  }

  /** `deletePostService`: 401 without a caller, then 404 for a missing
      post, then 400 when the caller is not the author. The owner's post
      has every media asset released and is then removed; nothing else
      changes. The result is `deleteOne`'s deleted count. */
  function Delete(posts: Posts, caller: Option<Account>, postId: PostId): (r: Reply<Posts, nat>)
    ensures caller.None? ==> r == Fail(posts, 401, Unauthorized)
    ensures caller.Some? && postId !in posts ==> r == Fail(posts, 404, PostNotFound)
    ensures caller.Some? && postId in posts && posts[postId].author != caller.value.id ==>
      r == Fail(posts, 400, NotOwner)
    ensures r.result.Ok? <==> caller.Some? && postId in posts && posts[postId].author == caller.value.id
    ensures r.result.Ok? ==>
      && r.result.value == 1
      && r.store.Keys == posts.Keys - {postId}
      && (forall other | other in r.store :: r.store[other] == posts[other])
      && |r.released| == |posts[postId].media|
      && (forall i | 0 <= i < |r.released| ::
            |r.released[i]| >= |PostsFolder|
            && r.released[i][..|PostsFolder|] == PostsFolder
            && Text.IsFileStem(posts[postId].media[i], r.released[i][|PostsFolder|..]))
    ensures ValidPosts(posts) ==> ValidPosts(r.store)
  {
    if caller.None? then Fail(posts, 401, Unauthorized)
    else if postId !in posts then Fail(posts, 404, PostNotFound)
    else if !IsPostOwner(caller.value.id, posts[postId]) then Fail(posts, 400, NotOwner)
    else
      var post := posts[postId];
      var released := if |post.media| > 0 then MediaPublicIds(post.media) else [];
      Reply(posts - {postId}, released, Ok(1))
  }

  // ---------------------------------------------------------------- share

  /** `sharePostService`: 401 without a caller, 404 for a missing post.
      Otherwise the caller is appended to the original's `shares` unless
      already there, and then a new post is created on every call: by the
      caller, with the original's content and media, pointing back at the
      original, carrying the share thoughts or `""`. Creating the new post
      can only fail when the original has no content, and by then the
      `shares` update is already saved. */
  function Share(posts: Posts, caller: Option<Account>, postId: PostId,
                 shareThoughts: Option<string>, now: Time): (r: Reply<Posts, (PostId, Post)>)
    ensures r.released == []
    ensures caller.None? ==> r == Fail(posts, 401, Unauthorized)
    ensures caller.Some? && postId !in posts ==> r == Fail(posts, 404, PostNotFound)
    ensures caller.Some? && postId in posts ==>
      var source := posts[postId];
      var me := caller.value.id;
      && postId in r.store
      && r.store[postId].shares == (if me in source.shares then source.shares else source.shares + [me])
      && r.store[postId] == source.(shares := r.store[postId].shares,
                                    updatedAt := if me in source.shares then source.updatedAt else now)
      && (r.result.Ok? <==> source.content != "")
      && (r.result.Err? ==> r.store.Keys == posts.Keys && r.result.status == 500)
      && (r.result.Ok? ==>
            var (id, p) := r.result.value;
            && id !in posts
            && r.store.Keys == posts.Keys + {id}
            && r.store[id] == p
            && p.author == me
            && p.content == source.content
            && p.media == source.media
            && p.originalPost == Some(postId)
            && p.shareThoughts == Some(if Truthy(shareThoughts) then shareThoughts.value else "")
            && p.likes == [] && p.shares == []
            && p.createdAt == now && p.updatedAt == now)
      && (forall other | other in posts && other != postId :: other in r.store && r.store[other] == posts[other])
    ensures ValidPosts(posts) ==> ValidPosts(r.store)
  {
    if caller.None? then Fail(posts, 401, Unauthorized)
    else if postId !in posts then Fail(posts, 404, PostNotFound)
    else
      var me := caller.value.id;
      var source := posts[postId];
      var posts1 := if me in source.shares then posts
                    else SavePost(posts, postId, source.(shares := source.shares + [me]), now);
      var thoughts := if Truthy(shareThoughts) then shareThoughts.value else "";
      match CreatePost(posts1, Some(me), Some(source.content), source.media,
                       Some(postId), Some(thoughts), now)
      case Err(status, message) => Reply(posts1, [], Err(status, message))
      case Ok((posts2, id)) => Reply(posts2, [], Ok((id, posts2[id])))
  }

  // ----------------------------------------------------------------- like

  datatype LikeMessage = Liked | Unliked

  /** `likes.filter(id => !id.equals(x))`: every occurrence of `x` gone,
      every other id kept as often as before, in the same order. */
  function RemoveAll(s: seq<UserId>, x: UserId): (r: seq<UserId>)
    ensures x !in r
    ensures forall y | y != x :: multiset(r)[y] == multiset(s)[y]
    ensures x !in s ==> r == s
  {
    if |s| == 0 then []
    else
      assert s == [s[0]] + s[1..];
      if s[0] == x then RemoveAll(s[1..], x) else [s[0]] + RemoveAll(s[1..], x)
  }

  /** `likePostService`: 401 without a caller, 404 for a missing post.
      Otherwise the caller's like is toggled: a caller already in `likes`
      is removed from it entirely and gets "Unliked"; any other caller is
      appended and gets "Liked". The post is saved, so its `updatedAt`
      becomes `now`; nothing else changes. */
  function Like(posts: Posts, caller: Option<Account>, postId: PostId, now: Time): (r: Reply<Posts, LikeMessage>)
    ensures r.released == []
    ensures caller.None? ==> r == Fail(posts, 401, Unauthorized)
    ensures caller.Some? && postId !in posts ==> r == Fail(posts, 404, PostNotFound)
    ensures caller.Some? && postId in posts ==>
      var before := posts[postId].likes;
      var me := caller.value.id;
      && r.store.Keys == posts.Keys
      && (forall other | other in posts && other != postId :: r.store[other] == posts[other])
      && r.store[postId] == posts[postId].(likes := r.store[postId].likes, updatedAt := now)
      && (me in before ==>
            && r.result == Ok(Unliked)
            && r.store[postId].likes == RemoveAll(before, me)
            && me !in r.store[postId].likes
            && forall y | y != me :: multiset(r.store[postId].likes)[y] == multiset(before)[y])
      && (me !in before ==>
            r.result == Ok(Liked) && r.store[postId].likes == before + [me])
    ensures ValidPosts(posts) ==> ValidPosts(r.store)
  {
    if caller.None? then Fail(posts, 401, Unauthorized)
    else if postId !in posts then Fail(posts, 404, PostNotFound)
    else
      var me := caller.value.id;
      var post := posts[postId];
      if me in post.likes then
        Reply(SavePost(posts, postId, post.(likes := RemoveAll(post.likes, me)), now), [], Ok(Unliked))
      else
        Reply(SavePost(posts, postId, post.(likes := post.likes + [me]), now), [], Ok(Liked))
  }
}
