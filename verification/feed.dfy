/** The feed query (`getPostsService`). The service builds an aggregation
    pipeline over the posts collection from three query parameters and runs
    it; here each stage is a function on a sequence of rows, applied in the
    same order:
      1. `$match` on the caller's `following`  (isFollowingPosts == "true")
      2. `$addFields` likesCount, sharesCount
      3. `$match` likesCount > 0, `$sort` by likes   (isMostLikedPosts == "true")
      4. `$match` sharesCount > 0, `$sort` by shares (isMostSharedPosts == "true")
      5. `$sort` by createdAt, only when both of those parameters are falsy
      6. `$lookup` + `$unwind` of the author, which drops posts whose author
         is gone
      7. `$lookup` + `$unwind` (keeping misses) of the original post, and
         `$lookup` of the original's author.
    MongoDB's `$sort` is not stable, so ties may come back in any order;
    the contract promises only the order of the sort keys. */
module Feed {
  import opened Results
  import opened Schema
  import Keys
  import PostService

  /** The query string: each parameter absent or a string. */
  datatype Query = Query(
    isMostLikedPosts: Option<string>,
    isFollowingPosts: Option<string>,
    isMostSharedPosts: Option<string>)

  /** `param === "true"`. */
  predicate IsTrue(v: Option<string>) {
    v == Some("true")
  }

  /** A post as it travels through the pipeline, with the counts that
      `$addFields` adds. */
  datatype Row = Row(id: PostId, post: Post, likesCount: nat, sharesCount: nat)

  /** A post as the feed returns it: the row, the author's whole user
      document in place of the author id, the original post when the post
      is a share whose original still exists, and the original's author as
      the array `$lookup` produces (one user, or none). */
  datatype FeedEntry = FeedEntry(
    row: Row,
    author: Account,
    originalPost: Option<(PostId, Post)>,
    originalAuthor: seq<Account>)

  // ----------------------------------------------------------- ordering

  datatype SortKey = ByLikes | ByShares | ByCreatedAt

  function Primary(k: SortKey, r: Row): nat {
    match k
    case ByLikes => r.likesCount
    case ByShares => r.sharesCount
    case ByCreatedAt => 0
  }

  /** `a` may come before `b` under `{ <count>: -1, createdAt: -1 }`: a
      larger count, or an equal count and a creation time no earlier. */
  predicate Precedes(k: SortKey, a: Row, b: Row) {
    Primary(k, a) > Primary(k, b)
    || (Primary(k, a) == Primary(k, b) && a.post.createdAt >= b.post.createdAt)
  }

  ghost predicate SortedBy(k: SortKey, rows: seq<Row>) {
    forall i, j | 0 <= i < j < |rows| :: Precedes(k, rows[i], rows[j])
  }

  /** A row that precedes every row of a sorted sequence can head it. */
  lemma ConsSorted(k: SortKey, h: Row, t: seq<Row>)
    requires SortedBy(k, t)
    requires forall y | y in t :: Precedes(k, h, y)
    ensures SortedBy(k, [h] + t)
  {
    var r := [h] + t;
    forall i, j | 0 <= i < j < |r|
      ensures Precedes(k, r[i], r[j])
    {
      assert r[j] == t[j - 1];
      if i > 0 {
        assert r[i] == t[i - 1];
      }
    }
  }

  /** The head of a sorted sequence precedes everything after it, and the
      rest is sorted. */
  lemma SortedTail(k: SortKey, rows: seq<Row>)
    requires |rows| > 0 && SortedBy(k, rows)
    ensures forall y | y in rows[1..] :: Precedes(k, rows[0], y)
    ensures SortedBy(k, rows[1..])
  {
    forall y | y in rows[1..]
      ensures Precedes(k, rows[0], y)
    {
      var m :| 0 <= m < |rows[1..]| && rows[1..][m] == y;
      assert rows[m + 1] == y;
    }
    forall i, j | 0 <= i < j < |rows[1..]|
      ensures Precedes(k, rows[1..][i], rows[1..][j])
    {
      assert rows[1..][i] == rows[i + 1] && rows[1..][j] == rows[j + 1];
    }
  }

  lemma SameElements(a: seq<Row>, b: seq<Row>)
    requires multiset(a) == multiset(b)
    ensures forall x :: x in a <==> x in b
  {
    forall x
      ensures x in a <==> x in b
    {
      assert x in a <==> x in multiset(a);
      assert x in b <==> x in multiset(b);
    }
  }

  /** Insert `x` into rows already in sort order. */
  function Insert(k: SortKey, x: Row, rows: seq<Row>): (r: seq<Row>)
    requires SortedBy(k, rows)
    ensures SortedBy(k, r)
    ensures multiset(r) == multiset(rows) + multiset{x}
    decreases |rows|
  {
    if |rows| == 0 then [x]
    else if Precedes(k, x, rows[0]) then
      SortedTail(k, rows);
      assert forall y | y in rows :: y == rows[0] || y in rows[1..];
      ConsSorted(k, x, rows);
      [x] + rows
    else
      SortedTail(k, rows);
      var rest := Insert(k, x, rows[1..]);
      SameElements(rest, rows[1..] + [x]);
      ConsSorted(k, rows[0], rest);
      assert rows == [rows[0]] + rows[1..];
      [rows[0]] + rest
  }

  /** `$sort`: the same rows, in sort order. */
  function Sort(k: SortKey, rows: seq<Row>): (r: seq<Row>)
    ensures SortedBy(k, r)
    ensures multiset(r) == multiset(rows)
    ensures forall x :: x in r <==> x in rows
    decreases |rows|
  {
    if |rows| == 0 then []
    else
      assert rows == [rows[0]] + rows[1..];
      var r := Insert(k, rows[0], Sort(k, rows[1..]));
      SameElements(r, rows);
      r
  }

  // ------------------------------------------------------------ filtering

  /** Ids strictly increasing: the order of insertion. */
  ghost predicate InInsertionOrder(rows: seq<Row>) {
    forall i, j | 0 <= i < j < |rows| :: rows[i].id < rows[j].id
  }

  lemma ConsInInsertionOrder(h: Row, t: seq<Row>)
    requires InInsertionOrder(t)
    requires forall y | y in t :: h.id < y.id
    ensures InInsertionOrder([h] + t)
  {
    var r := [h] + t;
    forall i, j | 0 <= i < j < |r|
      ensures r[i].id < r[j].id
    {
      assert r[j] == t[j - 1];
      if i > 0 {
        assert r[i] == t[i - 1];
      }
    }
  }

  lemma InInsertionOrderTail(rows: seq<Row>)
    requires |rows| > 0 && InInsertionOrder(rows)
    ensures forall y | y in rows[1..] :: rows[0].id < y.id
    ensures InInsertionOrder(rows[1..])
  {
    forall y | y in rows[1..]
      ensures rows[0].id < y.id
    {
      var m :| 0 <= m < |rows[1..]| && rows[1..][m] == y;
      assert rows[m + 1] == y;
    }
    forall i, j | 0 <= i < j < |rows[1..]|
      ensures rows[1..][i].id < rows[1..][j].id
    {
      assert rows[1..][i] == rows[i + 1] && rows[1..][j] == rows[j + 1];
    }
  }

  /** `$match` (and `$unwind` without `preserveNullAndEmptyArrays`): the
      rows satisfying `p`, in their order, so any order the rows were in
      survives. */
  function Keep(rows: seq<Row>, p: Row -> bool): (r: seq<Row>)
    ensures multiset(r) <= multiset(rows)
    ensures forall x :: x in r <==> x in rows && p(x)
    ensures forall k | SortedBy(k, rows) :: SortedBy(k, r)
    ensures InInsertionOrder(rows) ==> InInsertionOrder(r)
    decreases |rows|
  {
    if |rows| == 0 then []
    else
      assert rows == [rows[0]] + rows[1..];
      var rest := Keep(rows[1..], p);
      var r := if p(rows[0]) then [rows[0]] + rest else rest;
      assert (forall k | SortedBy(k, rows) :: SortedBy(k, r))
             && (InInsertionOrder(rows) ==> InInsertionOrder(r)) by {
        forall k | SortedBy(k, rows)
          ensures SortedBy(k, r)
        {
          SortedTail(k, rows);
          if p(rows[0]) {
            ConsSorted(k, rows[0], rest);
          }
        }
        if InInsertionOrder(rows) {
          InInsertionOrderTail(rows);
          if p(rows[0]) {
            ConsInInsertionOrder(rows[0], rest);
          }
        }
      }
      r
  }

  // ------------------------------------------------------------- pipeline

  /** The row `$addFields` makes of a stored post. */
  function RowOf(posts: Posts, id: PostId): Row
    requires id in posts
  {
    Row(id, posts[id], |posts[id].likes|, |posts[id].shares|)
  }

  /** The rows of the posts with the given ids, in the same order. */
  function RowsOf(posts: Posts, ids: seq<PostId>): (rows: seq<Row>)
    requires forall i | 0 <= i < |ids| :: ids[i] in posts
    ensures |rows| == |ids|
    ensures forall i | 0 <= i < |ids| :: rows[i] == RowOf(posts, ids[i])
  {
    seq(|ids|, i requires 0 <= i < |ids| => RowOf(posts, ids[i]))
  }

  /** Rows of every stored post taken in ascending id order are the
      store's rows in insertion order, each once. */
  lemma ScanFacts(posts: Posts, ids: seq<PostId>, rows: seq<Row>)
    requires forall i, j | 0 <= i < j < |ids| :: ids[i] < ids[j]
    requires forall x :: x in ids <==> x in posts
    requires |rows| == |ids|
    requires forall i | 0 <= i < |ids| :: ids[i] in posts && rows[i] == RowOf(posts, ids[i])
    ensures forall x: Row :: x in rows <==> x.id in posts && x == RowOf(posts, x.id)
    ensures InInsertionOrder(rows)
    ensures Keys.NoRepeats(rows)
  {
    assert InInsertionOrder(rows) by {
      forall i, j | 0 <= i < j < |rows| ensures rows[i].id < rows[j].id {
        assert rows[i].id == ids[i] && rows[j].id == ids[j];
      }
    }
    forall x: Row | x.id in posts && x == RowOf(posts, x.id) ensures x in rows {
      var i :| 0 <= i < |ids| && ids[i] == x.id;
      assert rows[i] == x;
    }
    Keys.PairwiseNoRepeats(rows);
  }

  /** The rows of a store, in insertion order. */
  function Scan(posts: Posts): (rows: seq<Row>)
    ensures forall x: Row :: x in rows <==> x.id in posts && x == RowOf(posts, x.id)
    ensures InInsertionOrder(rows)
    ensures Keys.NoRepeats(rows)
  {
    var ids := Keys.Ascending(posts.Keys);
    var rows := RowsOf(posts, ids);
    ScanFacts(posts, ids, rows);
    rows
  }

  /** The author and original-post lookups of step 6 and 7 for one row
      whose author exists. */
  function Enrich(posts: Posts, users: Users, row: Row): (e: FeedEntry)
    requires row.post.author in users
    ensures EntryFor(posts, users, row, e)
  {
    var author := Account(row.post.author, users[row.post.author]);
    var original := row.post.originalPost;
    if original.Some? && original.value in posts then
      var source := posts[original.value];
      var sourceAuthor := if source.author in users then [Account(source.author, users[source.author])] else [];
      FeedEntry(row, author, Some((original.value, source)), sourceAuthor)
    else
      FeedEntry(row, author, None, [])
  }

  /** Which rows survive every `$match` and the author `$unwind`. */
  ghost predicate Eligible(posts: Posts, users: Users, following: seq<UserId>, q: Query, id: PostId) {
    && id in posts
    && posts[id].author in users
    && (IsTrue(q.isFollowingPosts) ==> posts[id].author in following)
    && (IsTrue(q.isMostLikedPosts) ==> |posts[id].likes| > 0)
    && (IsTrue(q.isMostSharedPosts) ==> |posts[id].shares| > 0)
  }

  /** `e` is what the feed shows for `row`: the counts are the lengths of
      the lists, the author is the author's user document, the original is
      present exactly when the post names one that still exists, and the
      original's author array holds that post's author when the user
      exists. */
  ghost predicate EntryFor(posts: Posts, users: Users, row: Row, e: FeedEntry) {
    && e.row == row
    && row.post.author in users
    && e.author == Account(row.post.author, users[row.post.author])
    && (e.originalPost.Some? <==> row.post.originalPost.Some? && row.post.originalPost.value in posts)
    && (e.originalPost.Some? ==>
          && e.originalPost.value.0 == row.post.originalPost.value
          && e.originalPost.value.1 == posts[row.post.originalPost.value])
    && (e.originalPost.None? ==> e.originalAuthor == [])
    && (e.originalPost.Some? ==>
          var source := e.originalPost.value.1;
          e.originalAuthor == if source.author in users then [Account(source.author, users[source.author])] else [])
  }

  /** The order the feed promises: the key of the last `$sort` that ran, or
      none when no sort ran. `isMostSharedPosts` sorts after
      `isMostLikedPosts`, so it decides when both are "true"; the
      `createdAt` sort runs only when both parameters are absent or empty,
      so any other value, "false" included, leaves the order open. */
  function FinalKey(q: Query): Option<SortKey> {
    if IsTrue(q.isMostSharedPosts) then Some(ByShares)
    else if IsTrue(q.isMostLikedPosts) then Some(ByLikes)
    else if !Truthy(q.isMostLikedPosts) && !Truthy(q.isMostSharedPosts) then Some(ByCreatedAt)
    else None
  }

  /** What the feed returns for a caller following `following`: exactly the
      eligible posts, each once and with its lookups, in the order of the
      final sort key. */
  ghost predicate FeedSpec(posts: Posts, users: Users, following: seq<UserId>, q: Query, entries: seq<FeedEntry>) {
    && (forall i | 0 <= i < |entries| ::
          && Eligible(posts, users, following, q, entries[i].row.id)
          && EntryFor(posts, users, RowOf(posts, entries[i].row.id), entries[i]))
    && (forall id | Eligible(posts, users, following, q, id) ::
          exists i :: 0 <= i < |entries| && entries[i].row.id == id)
    && (forall i, j | 0 <= i < j < |entries| :: entries[i].row.id != entries[j].row.id)
    && (FinalKey(q).Some? ==>
          forall i, j | 0 <= i < j < |entries| :: Precedes(FinalKey(q).value, entries[i].row, entries[j].row))
  }

  /** Step 1. */
  function FollowingStage(rows: seq<Row>, following: seq<UserId>, q: Query): (r: seq<Row>)
    ensures forall x :: x in r <==> x in rows && (IsTrue(q.isFollowingPosts) ==> x.post.author in following)
    ensures Keys.NoRepeats(rows) ==> Keys.NoRepeats(r)
    ensures InInsertionOrder(rows) ==> InInsertionOrder(r)
  {
    if IsTrue(q.isFollowingPosts) then Keep(rows, (r: Row) => r.post.author in following) else rows
  }

  /** Step 3. */
  function LikedStage(rows: seq<Row>, q: Query): (r: seq<Row>)
    ensures forall x :: x in r <==> x in rows && (IsTrue(q.isMostLikedPosts) ==> x.likesCount > 0)
    ensures Keys.NoRepeats(rows) ==> Keys.NoRepeats(r)
    ensures IsTrue(q.isMostLikedPosts) ==> SortedBy(ByLikes, r)
    ensures !IsTrue(q.isMostLikedPosts) ==> r == rows
  {
    if IsTrue(q.isMostLikedPosts) then Sort(ByLikes, Keep(rows, (r: Row) => r.likesCount > 0)) else rows
  }

  /** Step 4. */
  function SharedStage(rows: seq<Row>, q: Query): (r: seq<Row>)
    ensures forall x :: x in r <==> x in rows && (IsTrue(q.isMostSharedPosts) ==> x.sharesCount > 0)
    ensures Keys.NoRepeats(rows) ==> Keys.NoRepeats(r)
    ensures IsTrue(q.isMostSharedPosts) ==> SortedBy(ByShares, r)
    ensures !IsTrue(q.isMostSharedPosts) ==> r == rows
  {
    if IsTrue(q.isMostSharedPosts) then Sort(ByShares, Keep(rows, (r: Row) => r.sharesCount > 0)) else rows
  }

  /** Step 5: the default sort runs only when neither parameter is truthy. */
  function DefaultSortStage(rows: seq<Row>, q: Query): (r: seq<Row>)
    ensures forall x :: x in r <==> x in rows
    ensures Keys.NoRepeats(rows) ==> Keys.NoRepeats(r)
    ensures !Truthy(q.isMostLikedPosts) && !Truthy(q.isMostSharedPosts) ==> SortedBy(ByCreatedAt, r)
    ensures Truthy(q.isMostLikedPosts) || Truthy(q.isMostSharedPosts) ==> r == rows
  {
    if !Truthy(q.isMostLikedPosts) && !Truthy(q.isMostSharedPosts) then Sort(ByCreatedAt, rows) else rows
  }

  /** Step 6: `$unwind` of the looked-up author drops rows without one. */
  function AuthorStage(rows: seq<Row>, users: Users): (r: seq<Row>)
    ensures forall x :: x in r <==> x in rows && x.post.author in users
    ensures Keys.NoRepeats(rows) ==> Keys.NoRepeats(r)
    ensures forall k | SortedBy(k, rows) :: SortedBy(k, r)
    ensures InInsertionOrder(rows) ==> InInsertionOrder(r)
  {
    Keep(rows, (r: Row) => r.post.author in users)
  }

  /** Steps 1 to 7 for a caller whose `following` list is given. */
  function Pipeline(posts: Posts, users: Users, following: seq<UserId>, q: Query): (entries: seq<FeedEntry>)
    ensures FeedSpec(posts, users, following, q, entries)
    ensures FinalKey(q).None? ==>
      forall i, j | 0 <= i < j < |entries| :: entries[i].row.id < entries[j].row.id
  {
    var rows0 := Scan(posts);
    var rows1 := FollowingStage(rows0, following, q);
    var rows2 := LikedStage(rows1, q);
    var rows3 := SharedStage(rows2, q);
    var rows4 := DefaultSortStage(rows3, q);
    var rows := AuthorStage(rows4, users);
    PipelineRows(posts, users, following, q, rows0, rows1, rows2, rows3, rows4, rows);
    PipelineOrder(posts, users, following, q, rows0, rows1, rows2, rows3, rows4, rows);
    var entries := EnrichAll(posts, users, rows);
    EntriesMeetSpec(posts, users, following, q, rows, entries);
    entries
  }

  /** What the row stages keep: exactly the eligible posts' rows, none
      twice. */
  lemma PipelineRows(posts: Posts, users: Users, following: seq<UserId>, q: Query,
                     rows0: seq<Row>, rows1: seq<Row>, rows2: seq<Row>, rows3: seq<Row>,
                     rows4: seq<Row>, rows5: seq<Row>)
    requires rows0 == Scan(posts)
    requires rows1 == FollowingStage(rows0, following, q)
    requires rows2 == LikedStage(rows1, q)
    requires rows3 == SharedStage(rows2, q)
    requires rows4 == DefaultSortStage(rows3, q)
    requires rows5 == AuthorStage(rows4, users)
    ensures forall x :: x in rows5 <==> x.id in posts && x == RowOf(posts, x.id) && Eligible(posts, users, following, q, x.id)
    ensures Keys.NoRepeats(rows5)
  {
  }

  /** The order the row stages leave: that of the last sort that ran, or
      insertion order when none ran. */
  lemma PipelineOrder(posts: Posts, users: Users, following: seq<UserId>, q: Query,
                      rows0: seq<Row>, rows1: seq<Row>, rows2: seq<Row>, rows3: seq<Row>,
                      rows4: seq<Row>, rows5: seq<Row>)
    requires rows0 == Scan(posts)
    requires rows1 == FollowingStage(rows0, following, q)
    requires rows2 == LikedStage(rows1, q)
    requires rows3 == SharedStage(rows2, q)
    requires rows4 == DefaultSortStage(rows3, q)
    requires rows5 == AuthorStage(rows4, users)
    ensures FinalKey(q).Some? ==> SortedBy(FinalKey(q).value, rows5)
    ensures FinalKey(q).None? ==> InInsertionOrder(rows5)
  {
    if IsTrue(q.isMostSharedPosts) {
      assert rows4 == rows3;
      assert SortedBy(ByShares, rows4);
    } else if IsTrue(q.isMostLikedPosts) {
      assert rows4 == rows3 && rows3 == rows2;
      assert SortedBy(ByLikes, rows4);
    } else if !Truthy(q.isMostLikedPosts) && !Truthy(q.isMostSharedPosts) {
      assert SortedBy(ByCreatedAt, rows4);
    } else {
      assert rows4 == rows3 && rows3 == rows2 && rows2 == rows1;
      assert InInsertionOrder(rows4);
    }
  }

  /** Step 7 for every row. */
  function EnrichAll(posts: Posts, users: Users, rows: seq<Row>): (entries: seq<FeedEntry>)
    requires forall x | x in rows :: x.post.author in users
    ensures |entries| == |rows|
    ensures forall i | 0 <= i < |rows| :: rows[i].post.author in users && entries[i] == Enrich(posts, users, rows[i])
  {
    seq(|rows|, i requires 0 <= i < |rows| => assert rows[i] in rows; Enrich(posts, users, rows[i]))
  }

  /** Turning the surviving rows into entries meets the feed's
      specification. */
  lemma EntriesMeetSpec(posts: Posts, users: Users, following: seq<UserId>, q: Query,
                        rows: seq<Row>, entries: seq<FeedEntry>)
    requires forall x :: x in rows <==> x.id in posts && x == RowOf(posts, x.id) && Eligible(posts, users, following, q, x.id)
    requires Keys.NoRepeats(rows)
    requires FinalKey(q).Some? ==> SortedBy(FinalKey(q).value, rows)
    requires |entries| == |rows|
    requires forall i | 0 <= i < |rows| :: rows[i].post.author in users && entries[i] == Enrich(posts, users, rows[i])
    ensures FeedSpec(posts, users, following, q, entries)
  {
    assert forall i | 0 <= i < |rows| :: rows[i] in rows;
    Keys.NoRepeatsPairwise(rows);
    forall id | Eligible(posts, users, following, q, id)
      ensures exists i :: 0 <= i < |entries| && entries[i].row.id == id
    {
      var x := RowOf(posts, id);
      assert x in rows;
      var i :| 0 <= i < |rows| && rows[i] == x;
      assert entries[i].row.id == id;
    }
  }

  /** `getPostsService`: 401 without a caller; otherwise the pipeline for
      the caller's `following` list. The feed only reads the stores. */
  function GetPosts(posts: Posts, users: Users, caller: Option<Account>, q: Query): (r: Result<seq<FeedEntry>>)
    ensures caller.None? ==> r == Err(401, PostService.Unauthorized)
    ensures caller.Some? ==> r.Ok? && FeedSpec(posts, users, caller.value.user.following, q, r.value)
    ensures caller.Some? && FinalKey(q).None? ==>
      forall i, j | 0 <= i < j < |r.value| :: r.value[i].row.id < r.value[j].row.id
  {
    if caller.None? then Err(401, PostService.Unauthorized)
    else Ok(Pipeline(posts, users, caller.value.user.following, q))
  }
}
