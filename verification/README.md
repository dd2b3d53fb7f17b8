# Social-media backend: posts, feed and accounts in Dafny

This project models the service layer of a small Express and Mongoose social-media backend:

- **Posts.** Creating, deleting, sharing and liking posts.
- **The feed.** The feed query builds an aggregation pipeline from three query parameters.
- **Accounts.** Registering, logging in, resetting a password and updating a profile.

The post and user documents, their required fields, their setters (`trim`, `lowercase`), the unique email index and the timestamps are modelled too.

Each store is an immutable map from id to document. Each service is a pure function of the following:
- the store;
- the signed-in caller: `None` when the request carries no user, otherwise the user document with its id;
- the request's arguments.

Every service that writes returns a `Reply`, which holds three things:
- the new store;
- the media-host asset ids the call released;
- either a value or an error with its HTTP status.

The store in a failed reply may differ from the input. The services do save part of their work before they fail: a share records the caller before the new post is validated, and a profile update releases the old picture before the save.

Ids are natural numbers. A fresh id is larger than every id in use, so ascending id order is insertion order. `findOne` returns the matching document with the least id.

## Layout

- `results.dfy`: `Option`, `Result` and `Reply`.
- `keys.dfy`: fresh ids, ids in ascending order, and the first key whose value matches.
- `text.dfy`: the JavaScript string operations the code uses:
  - `split` on one character, and its last and first piece;
  - `includes`;
  - `trim`;
  - `toLowerCase` (ASCII).
- `schema.dfy`: the `Post` and `User` documents, and the effect of `create` and `save` on them.
- `post_service.dfy`: the four post services.
- `feed.dfy`: the feed pipeline, one function per stage, and the specification the whole feed meets.
- `user_service.dfy`: the four account services.
- `post_laws.dfy`, `feed_laws.dfy`, `user_laws.dfy`: properties that relate several calls.

## Behaviour the model makes explicit

- **Create drops uploads.** The post service creates posts with the uploaded URLs under a key the post schema does not declare. Strict mode drops that key, so every created post has no media. `PostLaws.CreateThenDelete` shows the consequence: deleting the post again releases nothing.
- **Default sort needs both flags falsy.** The feed's default newest-first sort runs only when both `isMostLikedPosts` and `isMostSharedPosts` are absent or empty. The value "false" switches the default sort off without switching another sort on. `FeedLaws.FalseFlagDropsDefaultSort` shows the same two posts coming back oldest first.
- **Shares decide when both flags are "true".** With both flags "true", both filters apply, and the sort by shares runs last and decides the order.
- **Missing authors.** A post whose author no longer exists is dropped from the feed.
- **Missing originals.** A share whose original was deleted stays in the feed. It has no original and an empty original-author array, which the database returns as `originalPost: { author: [] }`.
- **The feed embeds the whole author document.** The stored password is included.
- **Blank names.** A profile update with a blank name trims it to `""` and saves it with validation switched off (`UserLaws.UpdateProfileCanBlankName`).
- **Failed updates still release the old picture.** A profile update that takes another user's email fails with 500 after the old picture was already released (`UserLaws.FailedUpdateStillReleases`).
- **No caller on profile update.** Without a caller, the update answers 404, not 401.

## Model

| member | source | states |
|---|---|---|
| Keys.FirstKey | src/service/user.service.ts:23 | `findOne`: no match exactly when no stored document satisfies the filter; otherwise a stored, matching document, and the first such in insertion order |
| Schema.CreatePost | src/schema/post.schema.ts:15-35 | A post is stored only with an author and non-empty content, otherwise the error is 500. It gets an id above every existing one, empty likes and shares, both timestamps at creation time, and no other post changes |
| Schema.SavePost | src/service/post.service.ts:197 | Saving a modified post replaces exactly that post, stamps `updatedAt`, and keeps the set of ids |
| Schema.CreateUser | src/schema/user.schema.ts:14-28 | A user is created exactly when the trimmed name, the lower-cased email and the password are non-empty and the email is free. The stored name is trimmed and the email lower-cased. Picture and bio default to empty, follow lists to empty, reset fields to absent. Store validity (trimmed names, unique lower-case emails) is kept |
| Schema.Touch | src/schema/user.schema.ts:27 | `updatedAt` moves to the save time exactly when some other field changed |
| Schema.SaveUser | src/service/user.service.ts:94 | A save without validation still fails with 500 when another user holds the email. Otherwise only that user changes, and a well-formed user keeps the store valid |
| Text.FileStem | src/service/post.service.ts:56-58 | The result is the text after the URL's last `/`, cut at its first `.` |
| Text.Split | src/service/post.service.ts:56-58 | `split` on one character: at least one piece, no piece contains the separator, and joining the pieces with it gives the input back |
| Text.Contains | src/service/user.service.ts:82 | True exactly when the substring occurs at some position |
| Text.Trim | src/schema/user.schema.ts:17 | The result has no white space at either end and is what remains of the input after white space is removed from both ends |
| Text.TrimIdempotent | src/schema/user.schema.ts:17 | Trimming twice is trimming once |
| Text.TrimBlank | src/schema/user.schema.ts:17 | A string of white space trims to the empty string |
| Text.Lower | src/schema/user.schema.ts:18 | Same length, no capitals left, each ASCII capital replaced by its small letter and every other character kept |
| Text.SplitJoin | src/service/post.service.ts:56 | Splitting undoes joining pieces that do not contain the separator |
| PostService.Create | src/service/post.service.ts:11-33 | Succeeds exactly with a caller and non-empty content, and otherwise fails with 500 and leaves the store alone. The new post is by the caller, has no media whatever was uploaded, and is the only change |
| PostService.MediaPublicId | src/service/post.service.ts:56-58 | The id is `posts/` followed by the URL's file name up to its first dot |
| PostService.MediaPublicIds | src/service/post.service.ts:53-60 | One public id per media URL, in the same order |
| PostService.RemoveAll | src/service/post.service.ts:189 | The id is gone, every other id keeps its count, and a list without the id is unchanged. Order is kept, as `PostLaws.RemoveAllConcat` states |
| PostService.Delete | src/service/post.service.ts:35-66 | 401 without a caller, then 404 for a missing post, then 400 for a non-owner, each leaving the store alone with nothing released. The owner's post alone is removed, with one released id per media URL naming that URL's file, and the count 1 is returned |
| PostService.Share | src/service/post.service.ts:143-170 | 401, then 404. The caller is added to the original's `shares` only if absent, and `updatedAt` moves only then. A new post is created on every call: by the caller, with the original's content and media, pointing at the original, with the thoughts or `""`. It fails with 500 only for an original without content, and the `shares` update stays |
| PostService.Like | src/service/post.service.ts:172-200 | 401, then 404. A caller already in `likes` is removed entirely, the other ids staying in order, and gets Unliked. Anyone else is appended and gets Liked. Only `likes` and `updatedAt` of that post change |
| Feed.Insert | src/service/post.service.ts:93 | Inserting into a sorted list keeps it sorted and adds exactly that row |
| Feed.Sort | src/service/post.service.ts:93 | The result is sorted by the key (count descending, then `createdAt` descending) and is a permutation of the input |
| Feed.Keep | src/service/post.service.ts:92 | Keeps exactly the rows meeting the condition, without adding any, and preserves sortedness and insertion order |
| Feed.ScanFacts | src/service/post.service.ts:83-88 | Rows of all stored posts taken in ascending id order hold each post once, in insertion order |
| Feed.Scan | src/service/post.service.ts:83-88 | One row per stored post, in insertion order, with counts equal to the lengths of `likes` and `shares` |
| Feed.FollowingStage | src/service/post.service.ts:76-80 | With "true", only posts by followed authors remain, otherwise all. No duplicates are introduced and insertion order is kept |
| Feed.LikedStage | src/service/post.service.ts:91-94 | With "true", only liked posts remain and they are sorted by likes, otherwise the rows pass unchanged |
| Feed.SharedStage | src/service/post.service.ts:97-100 | With "true", only shared posts remain and they are sorted by shares, otherwise the rows pass unchanged |
| Feed.DefaultSortStage | src/service/post.service.ts:103-105 | Sorts newest first exactly when both flags are absent or empty, and otherwise leaves the rows alone |
| Feed.AuthorStage | src/service/post.service.ts:108-116 | Drops exactly the posts whose author is missing, keeping order |
| Feed.Enrich | src/service/post.service.ts:119-137 | The entry carries the author's user document. It carries the original post exactly when the post names one that still exists, and the original's author as a zero-or-one element array |
| Feed.PipelineRows | src/service/post.service.ts:73-116 | The rows after all stages are exactly the eligible posts' rows, none twice |
| Feed.PipelineOrder | src/service/post.service.ts:91-105 | The rows after all stages are sorted by the last sort that ran, or in insertion order when none ran |
| Feed.EnrichAll | src/service/post.service.ts:108-137 | Every row is looked up, position by position |
| Feed.EntriesMeetSpec | src/service/post.service.ts:119-139 | Looked-up eligible rows in key order make a feed that meets the feed specification |
| Feed.Pipeline | src/service/post.service.ts:73-139 | The feed holds every eligible post once, with its lookups, in the order of the last sort. It is in insertion order when no sort ran |
| Feed.GetPosts | src/service/post.service.ts:68-141 | 401 without a caller. Otherwise the feed for the caller's `following` list: filtered by each "true" flag, sorted by shares when that flag is "true", else by likes, else newest first when both flags are falsy, else left in insertion order. It never writes a store |
| FeedLaws.FeedCount | src/service/post.service.ts:68-141 | The feed has exactly as many entries as there are eligible posts |
| FeedLaws.FollowingNobody | src/service/post.service.ts:76-80 | Asking for followed authors while following nobody gives an empty feed |
| FeedLaws.TwoEntries | src/service/post.service.ts:139 | A feed with exactly two eligible posts, whatever their ids, lists both, once each |
| FeedLaws.NewerFirst | src/service/post.service.ts:104 | When exactly two posts are eligible, whatever their ids, a feed in creation order shows the newer first |
| FeedLaws.NoFlagsNewestFirst | src/service/post.service.ts:103-105 | Without parameters, two posts come back newest first |
| FeedLaws.InsertedFirst | src/service/post.service.ts:139 | When exactly two posts are eligible, whatever their ids, a feed left in insertion order shows the earlier-inserted (smaller id) first |
| FeedLaws.FalseFlagDropsDefaultSort | src/service/post.service.ts:103-105 | With `isMostLikedPosts=false`, the same two posts come back oldest first, because no sort runs |
| FeedLaws.OrphanedShare | src/service/post.service.ts:119-137 | A share whose original is gone shows no original and an empty original-author array |
| FeedLaws.DeletedOriginal | src/service/post.service.ts:119-137 | Deleting an original does not change whether its shares are in the feed, and those shares show no original and an empty original-author array |
| PostLaws.RemoveAllConcat | src/service/post.service.ts:189 | Removing from a concatenation removes from each part in turn, and a single id is dropped exactly when it is the removed one. This fixes the result on every list: the other ids, in their original order |
| PostLaws.RemoveAllAppended | src/service/post.service.ts:189-193 | Removing an id just appended to a list without it gives the list back |
| PostLaws.LikeThenUnlike | src/service/post.service.ts:187-197 | Liking then unliking restores the post exactly, apart from `updatedAt` |
| PostLaws.LikeTwice | src/service/post.service.ts:187-195 | Two likes restore the caller's membership and answer Liked and Unliked in some order |
| PostLaws.LikeKeepsDistinct | src/service/post.service.ts:187-195 | A duplicate-free `likes` list stays duplicate-free |
| PostLaws.ShareTwice | src/service/post.service.ts:155-167 | Sharing twice records the caller once in `shares` and creates two different posts, both pointing at the original |
| PostLaws.CreateThenDelete | src/service/post.service.ts:26-64 | Creating and deleting a post restores the store and releases nothing, because uploads never reach the post |
| PostLaws.DeleteIsFinal | src/service/post.service.ts:64 | After a delete, liking, sharing or deleting that post gives 404 |
| UserService.FindByEmail | src/service/user.service.ts:23 | Finds a user whose email equals the lower-cased query, and none exactly when no user has it |
| UserService.Register | src/service/user.service.ts:12-19 | 400 when the email is held. Otherwise exactly one user is added, with trimmed name, lower-cased email, the password, and both timestamps at the registration time. Registration fails with 500 and no change for a blank name, email or password. Store validity is kept |
| UserService.Login | src/service/user.service.ts:21-30 | Every failure is the same 400 "Invalid email or password". Success returns the user with that email whose password matches, and in a valid store it succeeds exactly when such a user exists |
| UserService.ResetTarget | src/service/user.service.ts:61-64 | Finds a user whose stored token is the hash of the given one and whose expiry is later than now, and none exactly when no user qualifies |
| UserService.Reset | src/service/user.service.ts:53-72 | Succeeds exactly when some user holds the token's hash unexpired. It then sets that user's password and clears the token and expiry. Otherwise it fails with 400 and changes nothing |
| UserService.PicturePublicId | src/service/user.service.ts:83-84 | `profile_pictures/` followed by the URL's file name up to its first dot, or nothing when that name is empty |
| UserService.PictureReleases | src/service/user.service.ts:81-85 | One asset is released exactly when a new picture arrives and the current URL is on the media host with a non-empty file name |
| UserService.EditProfile | src/service/user.service.ts:87-92 | The picture changes only when a file came, and name, email and bio only when given non-empty (through trim and lowercase). Every other field is untouched |
| UserService.UpdateProfile | src/service/user.service.ts:74-96 | 404 for a missing caller or user. Otherwise it releases the old picture as described, and saves the edited profile exactly when its email is not another user's, with `updatedAt` moved to now exactly when the profile changed. On failure the error is 500 and the store is unchanged. Store validity is kept |
| UserLaws.RegisterThenLogin | src/service/user.service.ts:12-30 | A new user can log in with the same email and password and gets the registered account back |
| UserLaws.LoginFailuresAlike | src/service/user.service.ts:23-27 | An unknown email and a wrong password give identical answers |
| UserLaws.ResetOnce | src/service/user.service.ts:61-70 | After a reset, the token no longer matches that user at any time, so reusing it fails unless another user holds it |
| UserLaws.ResetKeepsProfile | src/service/user.service.ts:67-70 | A reset leaves name, email, picture, bio, follow lists and creation time alone |
| UserLaws.EditProfileIdempotent | src/service/user.service.ts:90-92 | Applying the same update twice is applying it once |
| UserLaws.UpdateProfileCanBlankName | src/service/user.service.ts:90-94 | A blank name is trimmed to `""` and saved |
| UserLaws.FailedUpdateStillReleases | src/service/user.service.ts:81-94 | Taking another user's email fails with 500 and changes no user, but the old picture is still released |

## Left out

- Follow, unfollow and user search: they exist only as routes (src/routes/user.routes.ts:37-41); their controllers and services are not part of this model.
- `forgotPasswordService`: it generates the reset token through a model method that is not part of this model, and sends mail.
- Controllers, routes, the authentication and validation middleware, multer and the error envelope: they are HTTP plumbing. The status in a model's error is the status of the error the service throws: a `CustomError`'s own status, or 500 for any other error. How that error reaches the HTTP response is not modelled, and it differs between controllers: only some of them forward errors to the error middleware.
- Password comparison and token hashing are function parameters. `comparePassword` and `getResetPasswordToken` are not defined in src/schema/user.schema.ts, and issuing the session token (JWT) is not modelled.
- Media uploads and deletions are not modelled as calls. An upload is the URL the media host returned, a deletion is a public id in the reply's released list, and their failures are not modelled.
- Time is a natural-number parameter.
- The errors Mongoose raises are modelled only by their status (500) and a short message, not by their exact text.
- Ids are natural numbers. Malformed ObjectIds (a cast error) and ObjectId ordering are not modelled.
- The natural order of an aggregation without a sort is modelled as insertion order.
- Missing `likes` or `shares` lists are not modelled: Mongoose always stores these arrays, so `$ifNull` never fires.
- Query parameters that arrive as arrays or objects instead of strings are not modelled.
- Text.Lower: lower-cases ASCII letters only; `toLowerCase` also maps other Unicode capitals.
- UserService.Register: the email is a string. A request without an email, which would turn the existence query into an unfiltered one, is not modelled.
- UserService.Reset: the new password is a string. A request without one, which would remove the password field, is not modelled.
- UserService.Login: the exact success condition is stated for stores with unique emails, the only stores the unique index allows. Otherwise it states that success returns a matching user.
- Concurrency: `Promise.all` and the interleaving of concurrent requests are not modelled; every call runs alone.
