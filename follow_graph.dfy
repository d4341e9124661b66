/** The `follows` table and the read-only queries the user router runs on
    it (src/server/api/routers/user.ts): the follower / following listings
    as filter, join, sort and page; the counts and the follow flag of a
    profile; and what inserting and deleting follow rows does to them. The
    schema of `follows` is declared in a file outside this model; only its
    `id`, `followerId` and `followingId` columns are read. */
module FollowGraph {
  import opened Wrappers
  import opened Seqs
  import opened Schema

  /** A row of `follows`: `followerId` follows `followingId`. */
  datatype Follow = Follow(id: int, followerId: int, followingId: int)

  function FollowId(f: Follow): int { f.id }

  /** Which listing: the users following `userId` (`getFollowers`) or the
      users `userId` follows (`getFollowing`). */
  datatype Direction = Followers | Following

  /** The column compared with the requested `userId`. */
  function Subject(dir: Direction, f: Follow): int
  {
    match dir
    case Followers => f.followingId
    case Following => f.followerId
  }

  /** The column joined to `users.id`: the user each row lists. */
  function Listed(dir: Direction, f: Follow): int
  {
    match dir
    case Followers => f.followerId
    case Following => f.followingId
  }

  /** JavaScript truthiness of a `z.number().nullish()` cursor: null,
      undefined and 0 are falsy. */
  predicate Truthy(cursor: Option<int>)
  {
    cursor.Some? && cursor.value != 0
  }

  /** The `where` clause: `eq(subject, userId)` and, for a truthy cursor,
      `lt(follows.id, cursor)`. */
  function Where(dir: Direction, userId: int, cursor: Option<int>): Follow -> bool
  {
    (f: Follow) => Subject(dir, f) == userId && (!Truthy(cursor) || f.id < cursor.value)
  }

  /** A follow row joined with the user row it lists. */
  datatype Joined = Joined(follow: Follow, user: User)

  /** `innerJoin(users, eq(users.id, listed column))`, row by row. */
  function JoinUsers(us: seq<User>, fs: seq<Follow>, dir: Direction): (r: seq<Joined>)
    ensures forall j :: j in r <==> j.follow in fs && UserById(us, Listed(dir, j.follow)) == Some(j.user)
    ensures Injective(fs, FollowId) ==> Injective(r, JoinedId)
  {
    if fs == [] then []
    else
      var rest := JoinUsers(us, fs[1..], dir);
      var head := match UserById(us, Listed(dir, fs[0]))
        case None => []
        case Some(u) => [Joined(fs[0], u)];
      assert fs == [fs[0]] + fs[1..];
      assert Injective(fs, FollowId) ==> Injective(head + rest, JoinedId) by {
        if Injective(fs, FollowId) {
          InjectiveTail(fs, FollowId);
          if head != [] {
            forall j | j in rest ensures JoinedId(j) != JoinedId(head[0]) {
              var k :| 0 <= k < |fs[1..]| && fs[1..][k] == j.follow;
              assert FollowId(fs[k + 1]) != FollowId(fs[0]);
            }
            PrependInjective(head[0], rest, JoinedId);
            assert head + rest == [head[0]] + rest;
          }
        }
      }
      head + rest
  }

  function JoinedId(j: Joined): int { j.follow.id }

  /** No row has a smaller `follows.id` than a row after it. */
  predicate NonIncreasing(s: seq<Joined>)
  {
    forall i, j | 0 <= i < j < |s| :: s[i].follow.id >= s[j].follow.id
  }

  /** Every row has a larger `follows.id` than every row after it. */
  predicate StrictlyDescending(s: seq<Joined>)
  {
    forall i, j | 0 <= i < j < |s| :: s[i].follow.id > s[j].follow.id
  }

  /** Inserts `x` into a listing ordered by `follows.id` descending. */
  function InsertDesc(x: Joined, s: seq<Joined>): (r: seq<Joined>)
    ensures multiset(r) == multiset(s) + multiset{x}
  {
    if s == [] || x.follow.id >= s[0].follow.id then [x] + s
    else
      assert s == [s[0]] + s[1..];
      [s[0]] + InsertDesc(x, s[1..])
  }

  /** Inserting keeps a listing in order. */
  lemma {:induction false} InsertDescSorted(x: Joined, s: seq<Joined>)
    requires NonIncreasing(s)
    ensures NonIncreasing(InsertDesc(x, s))
  {
    if s == [] || x.follow.id >= s[0].follow.id {
      var r := [x] + s;
      forall i, j | 0 <= i < j < |r| ensures r[i].follow.id >= r[j].follow.id {
        if i != 0 {
          assert r[i] == s[i - 1] && r[j] == s[j - 1];
        } else {
          assert r[j] == s[j - 1];
        }
      }
    } else {
      var rest := InsertDesc(x, s[1..]);
      InsertDescSorted(x, s[1..]);
      var r := [s[0]] + rest;
      forall i, j | 0 <= i < j < |r| ensures r[i].follow.id >= r[j].follow.id {
        if i == 0 {
          assert r[j] in multiset(rest);
          assert r[j] == x || r[j] in s[1..];
        }
      }
    }
  }

  /** `orderBy(desc(follows.id))`. */
  function SortDesc(s: seq<Joined>): (r: seq<Joined>)
    ensures multiset(r) == multiset(s)
    ensures NonIncreasing(r)
  {
    if s == [] then []
    else
      assert s == [s[0]] + s[1..];
      InsertDescSorted(s[0], SortDesc(s[1..]));
      InsertDesc(s[0], SortDesc(s[1..]))
  }

  /** Inserting a row whose `follows.id` is new keeps the order strict. */
  lemma {:induction false} InsertDescStrict(x: Joined, s: seq<Joined>)
    requires StrictlyDescending(s)
    requires forall y | y in s :: y.follow.id != x.follow.id
    ensures StrictlyDescending(InsertDesc(x, s))
  {
    if s == [] || x.follow.id >= s[0].follow.id {
      var r := [x] + s;
      forall i, j | 0 <= i < j < |r| ensures r[i].follow.id > r[j].follow.id {
        assert r[j] == s[j - 1];
        if i != 0 {
          assert r[i] == s[i - 1];
        } else {
          assert s[0] in s;
        }
      }
    } else {
      var rest := InsertDesc(x, s[1..]);
      InsertDescStrict(x, s[1..]);
      var r := [s[0]] + rest;
      forall i, j | 0 <= i < j < |r| ensures r[i].follow.id > r[j].follow.id {
        if i == 0 {
          assert r[j] in multiset(rest);
          assert r[j] == x || r[j] in s[1..];
        } else {
          assert r[i] == rest[i - 1] && r[j] == rest[j - 1];
        }
      }
    }
  }

  /** With `follows.id` a primary key the sorted listing is strictly
      descending: there are no ties for the database to order arbitrarily. */
  lemma {:induction false} SortDescStrict(s: seq<Joined>)
    requires Injective(s, JoinedId)
    ensures StrictlyDescending(SortDesc(s))
  {
    if s != [] {
      InjectiveTail(s, JoinedId);
      SortDescStrict(s[1..]);
      forall y | y in SortDesc(s[1..]) ensures y.follow.id != s[0].follow.id {
        assert y in multiset(SortDesc(s[1..]));
        var k :| 0 <= k < |s[1..]| && s[1..][k] == y;
        assert JoinedId(s[k + 1]) != JoinedId(s[0]);
      }
      InsertDescStrict(s[0], SortDesc(s[1..]));
    }
  }

  /** `from(follows).innerJoin(users, ...).where(clause).orderBy(desc(follows.id))`:
      the follow rows that pass `clause`, joined with the user they list,
      newest `follows.id` first. */
  function Listing(us: seq<User>, fs: seq<Follow>, dir: Direction, clause: Follow -> bool): seq<Joined>
  {
    SortDesc(JoinUsers(us, Filter(fs, clause), dir))
  }

  /** A listing contains exactly the follow rows that pass the clause and
      whose listed user exists, each joined with that user. */
  lemma ListingRows(us: seq<User>, fs: seq<Follow>, dir: Direction, clause: Follow -> bool, j: Joined)
    ensures j in Listing(us, fs, dir, clause) <==>
      j.follow in fs && clause(j.follow) && UserById(us, Listed(dir, j.follow)) == Some(j.user)
  {
    var joined := JoinUsers(us, Filter(fs, clause), dir);
    assert j in Listing(us, fs, dir, clause) <==> j in multiset(joined);
  }

  /** With `follows.id` a primary key a listing is in strictly descending
      `follows.id` order: there are no ties for the database to order
      arbitrarily. */
  lemma ListingDescending(us: seq<User>, fs: seq<Follow>, dir: Direction, clause: Follow -> bool)
    requires Injective(fs, FollowId)
    ensures StrictlyDescending(Listing(us, fs, dir, clause))
  {
    FilterInjective(fs, clause, FollowId);
    SortDescStrict(JoinUsers(us, Filter(fs, clause), dir));
  }

  /** Every row the listing procedures match, before the page limit. */
  function Matching(us: seq<User>, fs: seq<Follow>, dir: Direction, userId: int, cursor: Option<int>): (r: seq<Joined>)
    ensures forall j | j in r ::
      && j.follow in fs
      && Subject(dir, j.follow) == userId
      && (Truthy(cursor) ==> j.follow.id < cursor.value)
      && UserById(us, Listed(dir, j.follow)) == Some(j.user)
    ensures Injective(fs, FollowId) ==> StrictlyDescending(r)
  {
    var r := Listing(us, fs, dir, Where(dir, userId, cursor));
    assert forall j | j in r ::
      && j.follow in fs
      && Subject(dir, j.follow) == userId
      && (Truthy(cursor) ==> j.follow.id < cursor.value)
      && UserById(us, Listed(dir, j.follow)) == Some(j.user)
    by {
      forall j | j in r
        ensures && j.follow in fs
                && Subject(dir, j.follow) == userId
                && (Truthy(cursor) ==> j.follow.id < cursor.value)
                && UserById(us, Listed(dir, j.follow)) == Some(j.user)
      {
        ListingRows(us, fs, dir, Where(dir, userId, cursor), j);
      }
    }
    assert Injective(fs, FollowId) ==> StrictlyDescending(r) by {
      if Injective(fs, FollowId) {
        ListingDescending(us, fs, dir, Where(dir, userId, cursor));
      }
    }
    r
  }

  /** A listing page is drawn from exactly the follow rows whose subject is
      `userId`, that lie below a truthy cursor, and whose listed user
      exists. */
  lemma MatchingRows(us: seq<User>, fs: seq<Follow>, dir: Direction, userId: int, cursor: Option<int>, j: Joined)
    ensures j in Matching(us, fs, dir, userId, cursor) <==>
      && j.follow in fs
      && Subject(dir, j.follow) == userId
      && (Truthy(cursor) ==> j.follow.id < cursor.value)
      && UserById(us, Listed(dir, j.follow)) == Some(j.user)
  {
    ListingRows(us, fs, dir, Where(dir, userId, cursor), j);
  }

  /** A falsy cursor (null, undefined or 0) lists from the top, exactly as
      the first page does. */
  lemma FalsyCursorIsFirstPage(us: seq<User>, fs: seq<Follow>, dir: Direction, userId: int, cursor: Option<int>)
    requires !Truthy(cursor)
    ensures Matching(us, fs, dir, userId, cursor) == Matching(us, fs, dir, userId, None)
  {
    FilterExt(fs, Where(dir, userId, cursor), Where(dir, userId, None));
  }

  /** The columns a listing returns: `users.id`, `users.username` (which
      `getFollowers` also returns a second time as `name`) and `users.image`. */
  datatype Item = Item(id: int, username: string, image: Option<string>)

  function ItemOf(u: User): Item
  {
    Item(u.id, u.username, u.image)
  }

  function Items(rows: seq<Joined>): (r: seq<Item>)
    ensures |r| == |rows|
    ensures forall i | 0 <= i < |r| :: r[i] == ItemOf(rows[i].user)
  {
    seq(|rows|, i requires 0 <= i < |rows| => ItemOf(rows[i].user))
  }

  lemma ItemsAppend(a: seq<Joined>, b: seq<Joined>)
    ensures Items(a + b) == Items(a) + Items(b)
  {
  }

  /** What a listing procedure returns. */
  datatype Page = Page(items: seq<Item>, nextCursor: Option<int>)

  /** The page a listing procedure returns for the matching rows `rows`:
      the first `limit` rows, and as `nextCursor` the user id of the row
      after them, if there is one. */
  function PageOf(rows: seq<Joined>, limit: nat): (page: Page)
    ensures |page.items| == if |rows| > limit then limit else |rows|
    ensures forall i | 0 <= i < |page.items| :: page.items[i] == ItemOf(rows[i].user)
    ensures page.nextCursor.Some? <==> |rows| > limit
    ensures page.nextCursor.Some? ==> page.nextCursor.value == rows[limit].user.id
  {
    if |rows| > limit then Page(Items(rows[..limit]), Some(rows[limit].user.id))
    else Page(Items(rows), None)
  }

  /** A page holds at most `limit` items, in listing order; it has a
      `nextCursor` exactly when more than `limit` rows match, and then that
      cursor is the listed user id of row `limit + 1`, a row that is not
      among the items (its `follows.id` is below theirs). */
  lemma PageShape(rows: seq<Joined>, limit: nat)
    requires StrictlyDescending(rows)
    ensures var page := PageOf(rows, limit);
      && |page.items| <= limit
      && |page.items| <= |rows|
      && (forall i | 0 <= i < |page.items| :: page.items[i] == ItemOf(rows[i].user))
      && (page.nextCursor.Some? <==> |rows| > limit)
      && (page.nextCursor.Some? ==>
            && page.nextCursor == Some(rows[limit].user.id)
            && |page.items| == limit
            && forall i | 0 <= i < limit :: rows[i].follow.id > rows[limit].follow.id)
  {
  }

  /** The follow rows from `a` to `b`. */
  function Edge(a: int, b: int): Follow -> bool
  {
    (f: Follow) => f.followerId == a && f.followingId == b
  }

  function NotEdge(a: int, b: int): Follow -> bool
  {
    (f: Follow) => !(f.followerId == a && f.followingId == b)
  }

  /** `DELETE FROM follows WHERE follower_id = a AND following_id = b`. */
  function RemoveEdge(fs: seq<Follow>, a: int, b: int): (r: seq<Follow>)
    ensures forall f | f in r :: !(f.followerId == a && f.followingId == b)
    ensures forall f | f in fs && !(f.followerId == a && f.followingId == b) :: f in r
    ensures forall f | f in r :: f in fs
    ensures |r| == |fs| - |Filter(fs, Edge(a, b))|
  {
    RemovedCount(fs, a, b);
    Filter(fs, NotEdge(a, b))
  }

  lemma {:induction false} RemovedCount(fs: seq<Follow>, a: int, b: int)
    ensures |Filter(fs, NotEdge(a, b))| + |Filter(fs, Edge(a, b))| == |fs|
  {
    if fs != [] {
      RemovedCount(fs[1..], a, b);
    }
  }

  /** Some follow row from `a` to `b` exists. */
  predicate IsFollowing(fs: seq<Follow>, a: int, b: int)
  {
    exists f | f in fs :: f.followerId == a && f.followingId == b
  }

  function FollowersOf(userId: int): Follow -> bool
  {
    (f: Follow) => f.followingId == userId
  }

  function FollowedBy(userId: int): Follow -> bool
  {
    (f: Follow) => f.followerId == userId
  }

  /** `SELECT count() FROM follows WHERE following_id = userId`. */
  function FollowersCount(fs: seq<Follow>, userId: int): nat
  {
    |Filter(fs, FollowersOf(userId))|
  }

  /** `SELECT count() FROM follows WHERE follower_id = userId`. */
  function FollowingCount(fs: seq<Follow>, userId: int): nat
  {
    |Filter(fs, FollowedBy(userId))|
  }

  /** After a follow row from `a` to `b` is inserted, `a` follows `b`, `b`
      has one more follower, `a` follows one more user, and every other
      user's counts are as before. */
  lemma FollowEffect(fs: seq<Follow>, f: Follow, u: int)
    ensures IsFollowing(fs + [f], f.followerId, f.followingId)
    ensures FollowersCount(fs + [f], u) == FollowersCount(fs, u) + (if u == f.followingId then 1 else 0)
    ensures FollowingCount(fs + [f], u) == FollowingCount(fs, u) + (if u == f.followerId then 1 else 0)
  {
    FilterAppend(fs, f, FollowersOf(u));
    FilterAppend(fs, f, FollowedBy(u));
    assert f in fs + [f];
  }

  /** After the rows from `a` to `b` are deleted, `a` no longer follows
      `b`, and `b` has lost exactly the deleted rows as followers. */
  lemma {:induction false} UnfollowEffect(fs: seq<Follow>, a: int, b: int)
    ensures !IsFollowing(RemoveEdge(fs, a, b), a, b)
    ensures FollowersCount(RemoveEdge(fs, a, b), b) + |Filter(fs, Edge(a, b))| == FollowersCount(fs, b)
    ensures FollowingCount(RemoveEdge(fs, a, b), a) + |Filter(fs, Edge(a, b))| == FollowingCount(fs, a)
  {
    if fs != [] {
      UnfollowEffect(fs[1..], a, b);
      assert RemoveEdge(fs, a, b) == (if NotEdge(a, b)(fs[0]) then [fs[0]] else []) + RemoveEdge(fs[1..], a, b);
      var rest := RemoveEdge(fs[1..], a, b);
      FilterConcat(if NotEdge(a, b)(fs[0]) then [fs[0]] else [], rest, FollowersOf(b));
      FilterConcat(if NotEdge(a, b)(fs[0]) then [fs[0]] else [], rest, FollowedBy(a));
    }
  }

  /** Unfollowing undoes following: inserting a row from `a` to `b` when
      there was none and then deleting the rows from `a` to `b` gives back
      the original table. */
  lemma UnfollowUndoesFollow(fs: seq<Follow>, f: Follow)
    requires !IsFollowing(fs, f.followerId, f.followingId)
    ensures RemoveEdge(fs + [f], f.followerId, f.followingId) == fs
  {
    FilterAppend(fs, f, NotEdge(f.followerId, f.followingId));
    FilterIdentity(fs, NotEdge(f.followerId, f.followingId));
  }
}
