/** Properties that relate several calls of the post service. */
module PostLaws {
  import opened Results
  import opened Schema
  import opened PostService
  import Keys

  /** Removal works piece by piece and keeps order: removing from a
      concatenation removes from each part, and a single id stays exactly
      when it is not the one removed. Together these fix the result of
      `filter` on every list. */
  lemma {:induction false} RemoveAllConcat(a: seq<UserId>, b: seq<UserId>, x: UserId)
    ensures RemoveAll(a + b, x) == RemoveAll(a, x) + RemoveAll(b, x)
    ensures RemoveAll([x], x) == [] && forall y | y != x :: RemoveAll([y], x) == [y]
  {
    if |a| == 0 {
      assert a + b == b;
    } else {
      assert (a + b)[0] == a[0];
      assert (a + b)[1..] == a[1..] + b;
      RemoveAllConcat(a[1..], b, x);
    }
  }

  /** Removing every occurrence of an id that was just appended to a list
      without it gives the list back. */
  lemma {:induction false} RemoveAllAppended(s: seq<UserId>, x: UserId)
    requires x !in s
    ensures RemoveAll(s + [x], x) == s
  {
    if |s| == 0 {
      assert [x][1..] == [];
    } else {
      assert (s + [x])[0] == s[0];
      assert (s + [x])[1..] == s[1..] + [x];
      RemoveAllAppended(s[1..], x);
      assert [s[0]] + s[1..] == s;
    }
  }

  /** Liking and then unliking restores the post: a caller who had not
      liked a post likes it and then unlikes it, and the post is back as it
      was but for its `updatedAt`. */
  lemma LikeThenUnlike(posts: Posts, caller: Option<Account>, postId: PostId, t1: Time, t2: Time)
    requires caller.Some? && postId in posts
    requires caller.value.id !in posts[postId].likes
    ensures var r1 := Like(posts, caller, postId, t1);
            var r2 := Like(r1.store, caller, postId, t2);
            && r1.result == Ok(Liked)
            && r2.result == Ok(Unliked)
            && r2.store == posts[postId := posts[postId].(updatedAt := t2)]
  {
    var me := caller.value.id;
    var r1 := Like(posts, caller, postId, t1);
    RemoveAllAppended(posts[postId].likes, me);
    var r2 := Like(r1.store, caller, postId, t2);
    assert r2.store[postId] == posts[postId].(updatedAt := t2);
  }

  /** Two likes in a row always leave the caller's membership in `likes`
      as it was, and answer differently. */
  lemma LikeTwice(posts: Posts, caller: Option<Account>, postId: PostId, t1: Time, t2: Time)
    requires caller.Some? && postId in posts
    ensures var r1 := Like(posts, caller, postId, t1);
            var r2 := Like(r1.store, caller, postId, t2);
            && r1.result.Ok? && r2.result.Ok? && r1.result != r2.result
            && r2.store.Keys == posts.Keys
            && (caller.value.id in r2.store[postId].likes <==> caller.value.id in posts[postId].likes)
  {
  }

  /** Liking keeps `likes` free of repeats. */
  lemma LikeKeepsDistinct(posts: Posts, caller: Option<Account>, postId: PostId, now: Time)
    requires caller.Some? && postId in posts
    requires Keys.NoRepeats(posts[postId].likes)
    ensures Keys.NoRepeats(Like(posts, caller, postId, now).store[postId].likes)
  {
    var me := caller.value.id;
    var before := posts[postId].likes;
    var after := Like(posts, caller, postId, now).store[postId].likes;
    if me !in before {
      assert multiset(after) == multiset(before) + multiset{me};
    } else {
      forall x ensures multiset(after)[x] <= 1 {
        if x != me {
          assert multiset(after)[x] == multiset(before)[x];
        }
      }
    }
  }

  /** Sharing the same post twice: the caller is recorded in the
      original's `shares` once (no more often than before), and each call
      creates its own new post pointing back at the original. */
  lemma ShareTwice(posts: Posts, caller: Option<Account>, postId: PostId,
                   thoughts1: Option<string>, thoughts2: Option<string>, t1: Time, t2: Time)
    requires caller.Some? && postId in posts && posts[postId].content != ""
    ensures var me := caller.value.id;
            var before := posts[postId].shares;
            var r1 := Share(posts, caller, postId, thoughts1, t1);
            var r2 := Share(r1.store, caller, postId, thoughts2, t2);
            && r1.result.Ok? && r2.result.Ok?
            && r2.store[postId].shares == r1.store[postId].shares
            && multiset(r2.store[postId].shares)[me] == (if me in before then multiset(before)[me] else 1)
            && r1.result.value.0 != r2.result.value.0
            && r1.result.value.0 in r2.store && r2.result.value.0 in r2.store
            && r2.store[r1.result.value.0].originalPost == Some(postId)
            && r2.store[r2.result.value.0].originalPost == Some(postId)
  {
    var me := caller.value.id;
    var before := posts[postId].shares;
    var r1 := Share(posts, caller, postId, thoughts1, t1);
    assert me in r1.store[postId].shares;
    if me !in before {
      assert multiset(before + [me])[me] == multiset(before)[me] + 1;
    }
  }

  /** A post created and then deleted by its author leaves the store as it
      was, and since the upload never reaches the document, no media is
      released. */
  lemma CreateThenDelete(posts: Posts, caller: Option<Account>, content: Option<string>,
                         uploaded: seq<string>, now: Time)
    requires caller.Some? && Truthy(content)
    ensures var r1 := Create(posts, caller, content, uploaded, now);
            var r2 := Delete(r1.store, caller, r1.result.value.0);
            && r2.result == Ok(1)
            && r2.store == posts
            && r2.released == []
  {
    var r1 := Create(posts, caller, content, uploaded, now);
    var id := r1.result.value.0;
    assert r1.store - {id} == posts;
  }

  /** Once deleted, a post is gone for every operation on it. */
  lemma DeleteIsFinal(posts: Posts, caller: Option<Account>, postId: PostId,
                      other: Option<Account>, thoughts: Option<string>, now: Time)
    requires Delete(posts, caller, postId).result.Ok?
    requires other.Some?
    ensures var after := Delete(posts, caller, postId).store;
            && Like(after, other, postId, now) == Fail(after, 404, PostNotFound)
            && Share(after, other, postId, thoughts, now) == Fail(after, 404, PostNotFound)
            && Delete(after, other, postId) == Fail(after, 404, PostNotFound)
  {
  }
}
