# Follow graph, profiles and the post view of a social application, in Dafny

This project models two parts of a small social network built on tRPC and
drizzle over PostgreSQL:

- The user router (`src/server/api/routers/user.ts`). Its procedures are
  `follow`, `unfollow`, `getFollowers`, `getFollowing`, `updateProfile`,
  `getProfileByUsername`, `search` and `getRandomSuggestions`. The model is
  a `Store` class whose fields are the `users`, `posts` and `follows` tables
  and the `follows.id` sequence. Mutations are methods with `modifies`
  clauses. The follower and following listings are methods, because the
  source pops the extra row off the fetched array. The other queries are
  functions that read the store. The zod input schemas are pure predicates
  and limit resolvers.
- The post schema (`src/lib/db/schema/post.ts`):
  - the `posts`, `likes`, `saves` and `reposts` tables, with their primary
    keys, unique (user, post) pairs and cascading foreign keys;
  - the `post_view` SELECT, as a pure function of the tables and the viewer.

Modules, one per file:

| file | module | contents |
|---|---|---|
| `wrappers.dfy` | `Wrappers` | `Option` and `Result` |
| `seqs.dfy` | `Seqs` | `Filter` (a `WHERE` that keeps row order), key uniqueness, and `COUNT(DISTINCT key)` under a primary key |
| `schema.dfy` | `Schema` | rows, the table constraints (`Wf`), insertion into a mark table, and deletion with every `ON DELETE CASCADE` applied |
| `post_view.dfy` | `PostView` | `post_view`: joins, grouping, `COUNT(DISTINCT …)` and `COALESCE(bool_or(…), false)` |
| `validators.dfy` | `Validators` | the zod schemas and the tRPC error codes |
| `follow_graph.dfy` | `FollowGraph` | the `follows` rows; the listing query as filter, join, sort and page; follower counts |
| `user_router.dfy` | `UserRouter` | the procedures, over the `Store` class |
| `cursor_paging.dfy` | `CursorPaging` | the follower listings paged one page after another: the code as written, and a corrected version |

### Modelling decisions

1. **Reposter columns of `post_view`.** The `first_repost` subquery is a
   plain `SELECT DISTINCT … ORDER BY created_at DESC` with no `LIMIT`
   (post.ts:102-113), and the outer query groups by its columns
   (post.ts:131-134). `post_view` therefore yields one row per repost of a
   post, or one row with null reposter columns when the post has none
   (`PostView.ViewRepostRows`). It does not pick a single, earliest repost.
2. **Listing cursor.** `nextCursor` is the popped row's `users.id`
   (user.ts:79, 98, 118, 136), while the next page filters on `follows.id`
   (user.ts:89, 127). The store models this as written; the consequences
   are under "## Findings".
3. **Duplicate follows.** The schema of `follows` is not among the modelled
   files. The model assumes a unique (follower, following) pair on it. An
   insert that violates it is a database error, which tRPC reports as
   INTERNAL_SERVER_ERROR, and nothing changes.

## Model

| member | source | states |
|---|---|---|
| Schema.UserById | src/lib/db/schema/post.ts:101 | a join on `users.id` finds a row exactly when the id is in the table, and the row it finds has that id |
| Schema.InsertMark | src/lib/db/schema/post.ts:36-73 | an insert into likes, saves or reposts fails with a unique violation on a duplicate (user, post) pair, and fails on a missing user or post; otherwise it appends a row with the next serial id, advances that serial by one, leaves every other table unchanged, and keeps the constraints |
| Schema.AppendMarkWf | src/lib/db/schema/post.ts:45-47 | a row with a fresh serial id, a new (user, post) pair and existing targets keeps the primary key, unique pair and foreign keys of a mark table |
| Schema.Cascade | src/lib/db/schema/post.ts:14-15 | deleting posts also deletes every reply of a deleted post, transitively; the deleted set contains the start set and is closed under replies |
| Schema.CascadeLeast | src/lib/db/schema/post.ts:14-15 | the cascade deletes nothing that is not forced: it lies inside every reply-closed set that contains the posts deleted first |
| Schema.DeletePost | src/lib/db/schema/post.ts:5-73 | deleting a post removes exactly the posts of its reply cascade and exactly the likes, saves and reposts on them; users stay, and the constraints still hold |
| Schema.DeleteUser | src/lib/db/schema/post.ts:5-73 | deleting a user removes that user, exactly the posts in the cascade of their posts, and exactly the marks owned by the user or on a removed post; no surviving post is theirs, and the constraints still hold |
| Schema.RemoveRows | src/lib/db/schema/post.ts:5-73 | a user or post survives removal exactly when its own id was not removed; a like, save or repost survives exactly when neither its user nor its post was removed (the post cascade itself comes from the closed set that `DeletePost` and `DeleteUser` pass) |
| Schema.RemoveIds | src/lib/db/schema/post.ts:5-16 | the user ids and post ids after removal are the ones before it minus the removed ones |
| Schema.PruneWf | src/lib/db/schema/post.ts:36-73 | dropping the marks of removed users and posts keeps a mark table well formed over the rows that remain |
| Schema.RemovePreservesWf | src/lib/db/schema/post.ts:5-73 | removing a reply-closed set of posts that includes every post of the removed users leaves every foreign key satisfied and every key unique |
| Seqs.DistinctKeysCount | src/lib/db/schema/post.ts:90-92 | `COUNT(DISTINCT id)` over rows whose id is a primary key equals the number of those rows |
| PostView.PadMember | src/lib/db/schema/post.ts:115-121 | a left join always contributes at least one row, possibly null |
| PostView.PadHas | src/lib/db/schema/post.ts:115-121 | every matching row of a left-joined table appears in the join |
| PostView.GroupWitness | src/lib/db/schema/post.ts:115-121 | every like, save or repost of the post appears in some joined row of each of its groups |
| PostView.GroupColumn | src/lib/db/schema/post.ts:115-121 | every non-null like, save, repost or reply in a group belongs to the group's post |
| PostView.KindIds | src/lib/db/schema/post.ts:90-92 | the non-null ids in a group's likes, saves or reposts column are exactly the ids of that table's rows on the post |
| PostView.KindCountIsRowCount | src/lib/db/schema/post.ts:90-92 | `reposts_count`, `likes_count` and `saves_count` equal the number of rows on the post, despite the join fan-out |
| PostView.KindFlagIsPair | src/lib/db/schema/post.ts:93-95 | `is_liked`, `is_saved` and `is_reposted` hold exactly when the viewer has such a row on the post, and are false rather than null when the post has none |
| PostView.ReplyCountIsRowCount | src/lib/db/schema/post.ts:98 | `replies_count` equals the number of posts whose `reply_to_id` is the post |
| PostView.RowAggregates | src/lib/db/schema/post.ts:90-98 | on well-formed tables, every count and flag of an output row has its intended value, and `is_owner` holds exactly when the viewer wrote the post |
| PostView.RowsForPostIds | src/lib/db/schema/post.ts:78 | projection of the select list: every row a post produces carries that post's id |
| PostView.ViewOfRowsOf | src/lib/db/schema/post.ts:75-137 | selecting one post's id out of the view gives exactly the rows that post produces, when post ids are unique |
| PostView.ViewOfNoRows | src/lib/db/schema/post.ts:75-137 | an id that no post has selects no row of the view |
| PostView.ViewOfMember | src/lib/db/schema/post.ts:75-137 | every view row comes from a post of the table |
| PostView.ViewInnerJoin | src/lib/db/schema/post.ts:78-101 | a view row exists only for a post whose author exists, and it carries that post's content, image and creation time and the author's username, address and image |
| PostView.ViewRowFacts | src/lib/db/schema/post.ts:90-98 | every view row of a post reports its true repost, like, save and reply counts and the viewer's flags |
| PostView.ViewRowsAgree | src/lib/db/schema/post.ts:122-136 | all rows with the same post id agree on every count and flag |
| PostView.KeyColumns | src/lib/db/schema/post.ts:86-89 | projection of the select list: a row's reposter id, repost id and repost time come from its `first_repost` row, and the reposter username from the user that repost names |
| PostView.ViewOf | src/lib/db/schema/post.ts:75-137 | the view rows of a list of posts, post by post; every row carries the id of a listed post whose author is in `users` |
| PostView.View | src/lib/db/schema/post.ts:75-137 | `post_view` for a viewer; every row belongs to a post of the table whose author exists (inner join on the author) |
| PostView.RowsForPostReposts | src/lib/db/schema/post.ts:102-114 | a post with an author gives one row with null reposter columns when it has no repost, else one row per repost carrying that repost and its user's name |
| PostView.ViewRepostRows | src/lib/db/schema/post.ts:102-114 | on well-formed tables, a post's rows in the view are one with null reposter columns when it has no repost, and otherwise one per repost, the i-th carrying the i-th repost |
| Validators.ResolveLimit | src/server/api/routers/user.ts:71 | an omitted page size takes the default; a given one is accepted exactly when it lies in the bounds, and is then kept; otherwise BAD_REQUEST |
| Validators.FollowListLimit | src/server/api/routers/user.ts:71 | a follower or following page size lies in 1..100 and defaults to 50 |
| Validators.SuggestionLimit | src/server/api/routers/user.ts:278 | a suggestion count lies in 1..10 and defaults to 3 |
| Validators.SearchLimit | src/server/api/routers/user.ts:257 | a search page size lies in 1..10 and defaults to 5 |
| Validators.WordCharsAll | src/server/api/routers/user.ts:151-154 | reading the string left to right against the class `[a-zA-Z0-9_]` accepts it exactly when every character is in the class |
| Validators.ValidUsernameIsRegex | src/server/api/routers/user.ts:148-154 | `ValidUsername` accepts a username exactly when it has 3 to 20 characters and matches `^[a-zA-Z0-9_]+$` |
| Validators.ValidProfileInputIff | src/server/api/routers/user.ts:146-160 | the `updateProfile` schema accepts exactly a 3-20 character username matching the regex and a null bio or one of at most 160 characters; image and cover are unconstrained |
| FollowGraph.JoinUsers | src/server/api/routers/user.ts:85 | the inner join keeps exactly the follow rows whose listed user exists, each paired with that user, and keeps follow ids unique |
| FollowGraph.InsertDesc | src/server/api/routers/user.ts:92 | inserting a row into a listing adds exactly that row |
| FollowGraph.InsertDescSorted | src/server/api/routers/user.ts:92 | inserting keeps a listing in descending follow-id order |
| FollowGraph.SortDesc | src/server/api/routers/user.ts:92 | `ORDER BY follows.id DESC` permutes the rows into descending follow-id order |
| FollowGraph.InsertDescStrict | src/server/api/routers/user.ts:92 | inserting a row with a new follow id keeps the order strict |
| FollowGraph.SortDescStrict | src/server/api/routers/user.ts:92 | with unique follow ids the sorted listing is strictly descending: no ties are left for the database to order |
| FollowGraph.ListingRows | src/server/api/routers/user.ts:84-92 | a listing holds exactly the follow rows that pass the `where` clause and whose listed user exists, each joined with that user |
| FollowGraph.ListingDescending | src/server/api/routers/user.ts:92 | a listing over a table with unique follow ids is in strictly descending follow-id order |
| FollowGraph.MatchingRows | src/server/api/routers/user.ts:86-91 | the rows a listing matches are those with the requested subject, below a truthy cursor by follow id, and with an existing listed user |
| FollowGraph.FalsyCursorIsFirstPage | src/server/api/routers/user.ts:89 | a null, absent or zero cursor lists from the top, exactly as no cursor does |
| FollowGraph.Matching | src/server/api/routers/user.ts:84-92 | every matched row is a follow row whose subject is `userId`, below a truthy cursor by follow id, joined with its existing listed user; with unique follow ids the rows are in strictly descending follow-id order |
| FollowGraph.Items | src/server/api/routers/user.ts:78-83 | projection of the select list: the listing returns one item per fetched row: the id, username and image of that row's user |
| FollowGraph.ItemsAppend | src/server/api/routers/user.ts:78-83 | the items of two runs of rows, one after the other, are the items of the joined run |
| FollowGraph.PageOf | src/server/api/routers/user.ts:93-104 | a page holds the first `limit` rows (or all of them) as items, in order; it has a cursor exactly when more than `limit` rows match, and that cursor is the user id of row `limit + 1` |
| FollowGraph.PageShape | src/server/api/routers/user.ts:93-99 | a page holds at most `limit` items, in listing order; it has a cursor exactly when more than `limit` rows match; that cursor is the user id of row `limit + 1`, a row below every item on the page |
| FollowGraph.RemoveEdge | src/server/api/routers/user.ts:53-58 | deleting the rows from a to b removes exactly those rows and keeps every other row |
| FollowGraph.RemovedCount | src/server/api/routers/user.ts:53-58 | the rows kept and the rows deleted add up to the table |
| FollowGraph.FollowEffect | src/server/api/routers/user.ts:34-37 | after a follow row is inserted the follower follows the followed user, whose follower count rises by one, and the follower's following count rises by one; every other count is unchanged |
| FollowGraph.UnfollowEffect | src/server/api/routers/user.ts:53-58 | after unfollowing, the follower no longer follows the user, and both counts drop by exactly the number of rows deleted |
| FollowGraph.UnfollowUndoesFollow | src/server/api/routers/user.ts:34-58 | following a user one did not follow and then unfollowing restores the table |
| UserRouter.FetchPage | src/server/api/routers/user.ts:93-104 | fetching `limit + 1` rows and popping the extra one yields `PageOf` of the listing, whose properties `PageShape` states |
| UserRouter.SetProfile | src/server/api/routers/user.ts:179-189 | the update changes only the rows with the session user's id, and in them only the username, bio, image, cover and update time; ids are unchanged |
| UserRouter.UserByUsername | src/server/api/routers/user.ts:214-216 | `findFirst` on a username fails exactly when no user has it, and otherwise gives a user that has it (the model picks the first in table order) |
| UserRouter.FindFollow | src/server/api/routers/user.ts:237-242 | the follow lookup finds a row exactly when the session user follows the profile's user, and the row it finds is one |
| UserRouter.Take | src/server/api/routers/user.ts:296 | `LIMIT n` keeps the first n rows, or all of them when there are fewer |
| UserRouter.PickedSuggestable | src/server/api/routers/user.ts:288-296 | every suggested user is another user whom the session user does not follow |
| UserRouter.PickedMatching | src/server/api/routers/user.ts:268-271 | every search hit is a user whose username matches the query |
| UserRouter.DistinctPicked | src/server/api/routers/user.ts:262-296 | the first n users a `WHERE … LIMIT n` over `users` selects have pairwise distinct ids when `users.id` is a primary key |
| UserRouter.Store.Follow | src/server/api/routers/user.ts:22-46 | following oneself is BAD_REQUEST and changes nothing; following again violates the unique pair and is INTERNAL_SERVER_ERROR with nothing changed; otherwise one row from the session user with the next follow id is appended; the store invariant is kept |
| UserRouter.Store.Unfollow | src/server/api/routers/user.ts:48-66 | unfollowing deletes exactly the session user's rows to the user (none is not an error), changes nothing else and keeps the store invariant |
| UserRouter.Store.ListFollows | src/server/api/routers/user.ts:74-104 | an out-of-range limit is BAD_REQUEST; otherwise the page is `PageOf` of the matching rows at the resolved limit |
| UserRouter.Store.GetFollowers | src/server/api/routers/user.ts:68-105 | the followers page: the users following `userId`, newest follow first, paged as written |
| UserRouter.Store.GetFollowing | src/server/api/routers/user.ts:107-143 | the following page: the users `userId` follows, newest follow first, paged as written |
| UserRouter.Store.UpdateProfile | src/server/api/routers/user.ts:145-207 | an invalid input is BAD_REQUEST; a username another user holds is CONFLICT, and only then; a store failure is INTERNAL_SERVER_ERROR; a missing session user is NOT_FOUND, and only then; a valid, fault-free update of an existing user with a free username succeeds; on success only the session user's profile fields change and the updated row is returned; an error changes nothing |
| UserRouter.Store.GetProfileByUsername | src/server/api/routers/user.ts:209-252 | NOT_FOUND exactly when no user has the username; otherwise that user, with their follower, following and post counts, `isCurrentUser` exactly when the wallet addresses agree, and `isFollowing` exactly when the session user follows them |
| UserRouter.Store.GetRandomSuggestions | src/server/api/routers/user.ts:276-299 | BAD_REQUEST exactly for an out-of-range limit; otherwise as many suggestions as there are candidates, up to the limit, each another user whom the session user does not follow; with `users.id` unique, no user is suggested twice |
| UserRouter.Store.Search | src/server/api/routers/user.ts:254-274 | BAD_REQUEST exactly for an invalid query or limit; otherwise as many hits as there are matching users, up to the limit, each the id and username of a matching user; with `users.id` unique, no user is returned twice |
| CursorPaging.MatchingIs | src/server/api/routers/user.ts:84-92 | a strictly descending run holding exactly the rows the query matches is the query's result |
| CursorPaging.FirstOfTwo | src/server/api/routers/user.ts:93-99 | a page of size one over two rows holds the first row and hands out the second row's user id |
| CursorPaging.RepeatRows | src/server/api/routers/user.ts:86-92 | on the example tables, the rows matching user 10's followers are exactly follow rows 2 and 1 with their users |
| CursorPaging.RepeatListing | src/server/api/routers/user.ts:86-92 | on the example tables, the listing is row 2 then row 1, and cursor 50 matches the same rows as no cursor |
| CursorPaging.Repeats | src/server/api/routers/user.ts:89-98 | as written, following `nextCursor` can return the same page again: the first page hands out cursor 50, and the page at 50 is the first page |
| CursorPaging.SkipRows | src/server/api/routers/user.ts:86-92 | on the second example's tables, the rows matching user 10's followers are exactly follow rows 6 and 5 with their users |
| CursorPaging.SkipListing | src/server/api/routers/user.ts:86-92 | on the second example's tables, the listing is row 6 then row 5 |
| CursorPaging.SkipBelowOne | src/server/api/routers/user.ts:89 | on the second example's tables, cursor 1 matches no row |
| CursorPaging.Skips | src/server/api/routers/user.ts:89-98 | as written, following `nextCursor` can end the listing early: user 1 follows user 10 but is on no page |
| CursorPaging.CorrectedPage | src/server/api/routers/user.ts:95-99 | the corrected page has a cursor exactly when more rows remain, and holds `limit` items or all the rows |
| CursorPaging.SameHead | src/server/api/routers/user.ts:92 | two strictly descending runs of the same rows start with the same row |
| CursorPaging.SameTail | src/server/api/routers/user.ts:92 | below a common first row, two strictly descending runs of the same rows still hold the same rows |
| CursorPaging.DescendingUnique | src/server/api/routers/user.ts:92 | `ORDER BY follows.id DESC` over unique ids fixes the result: two strictly descending runs of the same rows are equal |
| CursorPaging.WindowRows | src/server/api/routers/user.ts:89 | with the corrected clause, the rows at or below the follow id of row k are the rows from k on |
| CursorPaging.Window | src/server/api/routers/user.ts:89 | with the corrected clause, the listing at the follow id of row k is the full listing with its first k rows cut off |
| CursorPaging.CorrectedWindowed | src/server/api/routers/user.ts:89 | the corrected listing has that window property at every row |
| CursorPaging.Step | src/server/api/routers/user.ts:89-98 | the corrected `nextCursor` is the follow id of a row of the listing, and the page taken at it holds exactly the rows after the current page |
| CursorPaging.Drain | src/server/api/routers/user.ts:89-98 | taking the corrected pages one after another from a cursor yields the items of every row from that cursor on, in order |
| CursorPaging.DrainListsAll | src/server/api/routers/user.ts:89-98 | with the corrections, the pages from the first one list every matching follower or followed user exactly once, newest follow first; the corrected listing is strictly descending by follow id, so each row appears once |

## Left out

- UserRouter.Store.Follow, UserRouter.Store.Unfollow: the notification calls (`createNotification` at user.ts:39-45 and `deleteNotification` at user.ts:60-65) are not modelled; the notification module is not part of this model. Both calls are awaited with no `try`/`catch`, so a failing call makes `follow` or `unfollow` fail with INTERNAL_SERVER_ERROR after the follows row was already inserted or deleted. The model returns success in that case.
- The session and authentication layer (`protectedProcedure`): the signed-in user is a `Session` parameter.
- The schema of the `follows` table is not part of this model. The model assumes a unique (follower, following) pair on it, and does not model foreign keys or cascades on `follows`. `Store.Follow` does not check that the followed user exists.
- UserRouter.Store.GetRandomSuggestions: `ORDER BY RANDOM()` is not modelled. Suggestions come in table order, and the contract states only which users may appear and how many, not which ones are drawn.
- UserRouter.UserByUsername, UserRouter.Store.Search: `findFirst` (src/server/api/routers/user.ts:214-216) and the search query (user.ts:262-271) have no `ORDER BY`, so the database may return any matching row; the model's choice of the first match in table order is its own, and `Store.GetProfileByUsername`'s contract does not depend on it.
- UserRouter.Store.Search: the `ILIKE '%query%'` match is a parameter `matches`. Case folding and `%`/`_` escaping are not modelled.
- UserRouter.Store.UpdateProfile: failures of the two database calls are an input `Fault`, because no such failure is visible in the code. The two statements are not modelled as one transaction.
- UserRouter.Store.GetFollowers: the second copy of `username` that `getFollowers` selects under the alias `name` (user.ts:81) is left out of `Item`.
- Timestamps are opaque integers: `defaultNow()` and `new Date()` become a `now` or `at` parameter.
- zod's `z.number()` accepts non-integer and non-finite numbers. The model takes integer ids, limits and cursors.
- zod measures string lengths in UTF-16 code units; the model counts `char`s.
- A failed insert consumes a value of a PostgreSQL `serial` sequence. In the model a rejected insert leaves the sequence unchanged.
- The users table's own schema, and the posts router that reads `post_view`, are not part of this model. The session setting `app.user_id` behind `current_setting` is the `viewer` parameter.
- `post_view` has no `ORDER BY`. The model lists the rows post by post in table order, and states nothing about the order the database would choose.
- Tables that break their own constraints: the database enforces them, so the view lemmas assume `Schema.Wf`. Counts equal row counts only when ids are unique.

## Findings

| source | as written | input that shows it | evidently intended | confidence | as-written member | corrected member |
|---|---|---|---|---|---|---|
| src/server/api/routers/user.ts:89-98 (and 127-136) | `nextCursor` is the popped row's `users.id`, but the next page keeps `follows.id < cursor`, comparing two unrelated id spaces and excluding the boundary row | (a) users 10, 50, 51; follows (1: 50→10), (2: 51→10); `getFollowers(10, limit 1)` returns user 51 with cursor 50, and the page at cursor 50 is that same page again. (b) users 10, 1, 7; follows (5: 1→10), (6: 7→10); the first page returns user 7 with cursor 1, and the page at cursor 1 is empty, so user 1 is never listed | the cursor is the popped row's `follows.id` and the next page keeps `follows.id <= cursor`, so the pages list every matching row once, newest first | high (not executed) | CursorPaging.Repeats, CursorPaging.Skips | CursorPaging.DrainListsAll |
