/** Properties of the feed: how many posts it returns, what an empty
    `following` list gives, how a parameter set to "false" changes the
    order, and what becomes of shares whose original is deleted. */
module FeedLaws {
  import opened Results
  import opened Schema
  import opened Feed
  import PostService

  /** The ids of the posts the feed must return. */
  ghost function EligibleIds(posts: Posts, users: Users, following: seq<UserId>, q: Query): set<PostId> {
    set id | id in posts && Eligible(posts, users, following, q, id)
  }

  ghost function Elements(s: seq<PostId>): set<PostId> {
    set x | x in s
  }

  /** A list of distinct ids has as many ids as elements. */
  lemma {:induction false} DistinctCount(s: seq<PostId>)
    requires forall i, j | 0 <= i < j < |s| :: s[i] != s[j]
    ensures |Elements(s)| == |s|
  {
    if |s| == 0 {
      assert Elements(s) == {};
    } else {
      DistinctCount(s[1..]);
      assert s[0] !in Elements(s[1..]);
      assert Elements(s) == Elements(s[1..]) + {s[0]};
    }
  }

  /** The feed holds one entry per eligible post: no more, no fewer. */
  lemma FeedCount(posts: Posts, users: Users, following: seq<UserId>, q: Query, entries: seq<FeedEntry>)
    requires FeedSpec(posts, users, following, q, entries)
    ensures |entries| == |EligibleIds(posts, users, following, q)|
  {
    var ids := seq(|entries|, i requires 0 <= i < |entries| => entries[i].row.id);
    DistinctCount(ids);
    assert Elements(ids) == EligibleIds(posts, users, following, q) by {
      forall id | id in EligibleIds(posts, users, following, q) ensures id in ids {
        var i :| 0 <= i < |entries| && entries[i].row.id == id;
        assert ids[i] == id;
      }
    }
  }

  /** Asking for followed authors' posts while following nobody gives an
      empty feed. */
  lemma FollowingNobody(posts: Posts, users: Users, caller: Option<Account>, q: Query)
    requires caller.Some? && caller.value.user.following == []
    requires IsTrue(q.isFollowingPosts)
    ensures GetPosts(posts, users, caller, q) == Ok([])
  {
    var entries := GetPosts(posts, users, caller, q).value;
    assert EligibleIds(posts, users, [], q) == {};
    FeedCount(posts, users, [], q, entries);
  }

  /** Two posts by one author, the first written at time 5 and the second
      at time 9. */
  function TwoPosts(author: UserId): (posts: Posts) {
    map[0 := Post(author, "first", [], [], [], None, None, 5, 5),
        1 := Post(author, "second", [], [], [], None, None, 9, 9)]
  }

  /** A feed of exactly two eligible posts lists both, once each. */
  lemma TwoEntries(posts: Posts, users: Users, following: seq<UserId>, q: Query, entries: seq<FeedEntry>,
                   a: PostId, b: PostId)
    requires FeedSpec(posts, users, following, q, entries)
    requires a != b && EligibleIds(posts, users, following, q) == {a, b}
    ensures |entries| == 2 && {entries[0].row.id, entries[1].row.id} == {a, b}
  {
    FeedCount(posts, users, following, q, entries);
    assert a in EligibleIds(posts, users, following, q);
    assert b in EligibleIds(posts, users, following, q);
    assert Eligible(posts, users, following, q, entries[0].row.id);
    assert Eligible(posts, users, following, q, entries[1].row.id);
  }

  /** Of exactly two eligible posts, a feed sorted by creation time lists
      the newer first. */
  lemma NewerFirst(posts: Posts, users: Users, following: seq<UserId>, q: Query, entries: seq<FeedEntry>,
                   older: PostId, newer: PostId)
    requires FeedSpec(posts, users, following, q, entries)
    requires older != newer && EligibleIds(posts, users, following, q) == {older, newer}
    requires FinalKey(q) == Some(ByCreatedAt)
    requires posts[older].createdAt < posts[newer].createdAt
    ensures |entries| == 2 && entries[0].row.id == newer && entries[1].row.id == older
  {
    TwoEntries(posts, users, following, q, entries, older, newer);
    assert Precedes(ByCreatedAt, entries[0].row, entries[1].row);
    assert EntryFor(posts, users, RowOf(posts, entries[0].row.id), entries[0]);
    assert EntryFor(posts, users, RowOf(posts, entries[1].row.id), entries[1]);
  }

  /** Without parameters the feed is newest first. */
  lemma NoFlagsNewestFirst(users: Users, caller: Option<Account>, author: UserId)
    requires caller.Some? && author in users
    ensures var plain := GetPosts(TwoPosts(author), users, caller, Query(None, None, None));
            |plain.value| == 2 && plain.value[0].row.id == 1 && plain.value[1].row.id == 0
  {
    var posts := TwoPosts(author);
    var following := caller.value.user.following;
    var q := Query(None, None, None);
    assert Eligible(posts, users, following, q, 0) && Eligible(posts, users, following, q, 1);
    assert EligibleIds(posts, users, following, q) == {0, 1};
    NewerFirst(posts, users, following, q, GetPosts(posts, users, caller, q).value, 0, 1);
  }

  /** Of exactly two eligible posts, a feed in insertion order shows the
      earlier insertion (the smaller id) first. */
  lemma InsertedFirst(posts: Posts, users: Users, following: seq<UserId>, q: Query, entries: seq<FeedEntry>,
                      first: PostId, second: PostId)
    requires FeedSpec(posts, users, following, q, entries)
    requires first < second && EligibleIds(posts, users, following, q) == {first, second}
    requires forall i, j | 0 <= i < j < |entries| :: entries[i].row.id < entries[j].row.id
    ensures |entries| == 2 && entries[0].row.id == first && entries[1].row.id == second
  {
    TwoEntries(posts, users, following, q, entries, first, second);
    assert entries[0].row.id < entries[1].row.id;
  }

  /** Setting `isMostLikedPosts` to "false" switches the default sort off
      without switching any other on: the same two posts come back oldest
      first, in insertion order. */
  lemma FalseFlagDropsDefaultSort(users: Users, caller: Option<Account>, author: UserId)
    requires caller.Some? && author in users
    ensures var falsy := GetPosts(TwoPosts(author), users, caller, Query(Some("false"), None, None));
            |falsy.value| == 2 && falsy.value[0].row.id == 0 && falsy.value[1].row.id == 1
  {
    var posts := TwoPosts(author);
    var following := caller.value.user.following;
    var q := Query(Some("false"), None, None);
    assert FinalKey(q).None?;
    assert Eligible(posts, users, following, q, 0) && Eligible(posts, users, following, q, 1);
    assert EligibleIds(posts, users, following, q) == {0, 1};
    InsertedFirst(posts, users, following, q, GetPosts(posts, users, caller, q).value, 0, 1);
  }

  /** A share whose original is not in the store appears without an
      original and with an empty original-author array. */
  lemma OrphanedShare(posts: Posts, users: Users, following: seq<UserId>, q: Query,
                      entries: seq<FeedEntry>, original: PostId, share: PostId)
    requires FeedSpec(posts, users, following, q, entries)
    requires original !in posts
    requires share in posts && posts[share].originalPost == Some(original)
    ensures forall i | 0 <= i < |entries| && entries[i].row.id == share ::
              entries[i].originalPost.None? && entries[i].originalAuthor == []
  {
    forall i | 0 <= i < |entries| && entries[i].row.id == share
      ensures entries[i].originalPost.None? && entries[i].originalAuthor == []
    {
      assert EntryFor(posts, users, RowOf(posts, share), entries[i]);
    }
  }

  /** Deleting an original leaves each of its shares in the feed exactly
      when it was there before, now without an original and with an empty
      original-author array. */
  lemma DeletedOriginal(posts: Posts, users: Users, caller: Option<Account>, owner: Option<Account>,
                        original: PostId, share: PostId, q: Query)
    requires caller.Some?
    requires share in posts && posts[share].originalPost == Some(original) && share != original
    requires PostService.Delete(posts, owner, original).result.Ok?
    ensures var after := PostService.Delete(posts, owner, original).store;
            var following := caller.value.user.following;
            && (Eligible(after, users, following, q, share) <==> Eligible(posts, users, following, q, share))
            && forall i | 0 <= i < |GetPosts(after, users, caller, q).value| ::
                 var e := GetPosts(after, users, caller, q).value[i];
                 e.row.id == share ==> e.originalPost.None? && e.originalAuthor == []
  {
    var after := PostService.Delete(posts, owner, original).store;
    assert share in after && after[share] == posts[share] && original !in after;
    var following := caller.value.user.following;
    OrphanedShare(after, users, following, q, GetPosts(after, users, caller, q).value, original, share);
  }
}
