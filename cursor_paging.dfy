/** Cursor paging of `getFollowers` / `getFollowing`
    (src/server/api/routers/user.ts:86-99, 124-137) taken page after page.

    As written, the cursor handed out is the popped row's `users.id`, but the
    next page compares it with `follows.id` and excludes it strictly. The two
    id spaces are unrelated, so following `nextCursor` can hand out the same
    page forever or stop before every follower was listed. `Repeats` and
    `Skips` exhibit both on concrete tables.

    The corrected paging hands out the popped row's `follows.id` and keeps
    the rows at or below it. Taking its pages one after another lists every
    matching row exactly once, in order (`DrainListsAll`). */
module CursorPaging {
  import opened Wrappers
  import opened Seqs
  import opened Schema
  import opened FollowGraph

  /** A user row with nothing but an id. */
  function Member(id: int): User
  {
    User(id, [], [], None, None, None, 0)
  }

  /** A listing in strictly descending `follows.id` order with exactly the
      rows the query matches is the query's result. */
  lemma MatchingIs(us: seq<User>, fs: seq<Follow>, dir: Direction, userId: int, cursor: Option<int>, rows: seq<Joined>)
    requires Injective(fs, FollowId)
    requires StrictlyDescending(rows)
    requires forall j :: j in rows <==>
      && j.follow in fs
      && Subject(dir, j.follow) == userId
      && (Truthy(cursor) ==> j.follow.id < cursor.value)
      && UserById(us, Listed(dir, j.follow)) == Some(j.user)
    ensures Matching(us, fs, dir, userId, cursor) == rows
  {
    ListingDescending(us, fs, dir, Where(dir, userId, cursor));
    forall j {
      MatchingRows(us, fs, dir, userId, cursor, j);
    }
    DescendingUnique(Matching(us, fs, dir, userId, cursor), rows);
  }

  /** The first page of size one of a two-row listing: the first row, and
      the second row's user id as cursor. */
  lemma FirstOfTwo(a: Joined, b: Joined)
    ensures PageOf([a, b], 1) == Page([ItemOf(a.user)], Some(b.user.id))
  {
    assert [a, b][..1] == [a];
    assert Items([a]) == [ItemOf(a.user)];
  }

  /** User 10's followers 50 and 51 (follow rows 1 and 2), newest follow
      first. */
  lemma RepeatRows(us: seq<User>, fs: seq<Follow>)
    requires us == [Member(10), Member(50), Member(51)]
    requires fs == [Follow(1, 50, 10), Follow(2, 51, 10)]
    ensures forall j :: j in [Joined(fs[1], us[2]), Joined(fs[0], us[1])] <==>
      && j.follow in fs
      && Subject(Followers, j.follow) == 10
      && UserById(us, Listed(Followers, j.follow)) == Some(j.user)
  {
    assert UserById(us, 50) == Some(us[1]);
    assert UserById(us, 51) == Some(us[2]);
    forall f | f in fs ensures f == fs[0] || f == fs[1] { }
  }

  /** Every follow row of user 10 lies below cursor 50, so the page at that
      cursor is the first page. */
  lemma RepeatListing(us: seq<User>, fs: seq<Follow>)
    requires us == [Member(10), Member(50), Member(51)]
    requires fs == [Follow(1, 50, 10), Follow(2, 51, 10)]
    ensures Matching(us, fs, Followers, 10, None) == [Joined(fs[1], us[2]), Joined(fs[0], us[1])]
    ensures Matching(us, fs, Followers, 10, Some(50)) == Matching(us, fs, Followers, 10, None)
  {
    RepeatRows(us, fs);
    MatchingIs(us, fs, Followers, 10, None, [Joined(fs[1], us[2]), Joined(fs[0], us[1])]);
    FilterExt(fs, Where(Followers, 10, Some(50)), Where(Followers, 10, None));
  }

  /** As written, the cursor can hand out the same page forever. With a page
      size of one the first page of user 10's followers lists user 51 and
      hands out cursor 50, the user id of the popped row; both follow rows
      have ids below 50, so the page at that cursor is the first page again,
      cursor included. */
  lemma Repeats(us: seq<User>, fs: seq<Follow>)
    requires us == [Member(10), Member(50), Member(51)]
    requires fs == [Follow(1, 50, 10), Follow(2, 51, 10)]
    ensures var first := PageOf(Matching(us, fs, Followers, 10, None), 1);
      && first == Page([ItemOf(us[2])], Some(50))
      && PageOf(Matching(us, fs, Followers, 10, first.nextCursor), 1) == first
  {
    RepeatListing(us, fs);
    FirstOfTwo(Joined(fs[1], us[2]), Joined(fs[0], us[1]));
  }

  /** User 10's followers 1 and 7 (follow rows 5 and 6), newest follow
      first. */
  lemma SkipRows(us: seq<User>, fs: seq<Follow>)
    requires us == [Member(10), Member(1), Member(7)]
    requires fs == [Follow(5, 1, 10), Follow(6, 7, 10)]
    ensures forall j :: j in [Joined(fs[1], us[2]), Joined(fs[0], us[1])] <==>
      && j.follow in fs
      && Subject(Followers, j.follow) == 10
      && UserById(us, Listed(Followers, j.follow)) == Some(j.user)
  {
    assert UserById(us, 1) == Some(us[1]);
    assert UserById(us, 7) == Some(us[2]);
    forall f | f in fs ensures f == fs[0] || f == fs[1] { }
  }

  /** From the top, the listing of user 10's followers 1 and 7 has both
      rows. */
  lemma SkipListing(us: seq<User>, fs: seq<Follow>)
    requires us == [Member(10), Member(1), Member(7)]
    requires fs == [Follow(5, 1, 10), Follow(6, 7, 10)]
    ensures Matching(us, fs, Followers, 10, None) == [Joined(fs[1], us[2]), Joined(fs[0], us[1])]
  {
    SkipRows(us, fs);
    MatchingIs(us, fs, Followers, 10, None, [Joined(fs[1], us[2]), Joined(fs[0], us[1])]);
  }

  /** Below follow id 1 the listing of user 10's followers is empty. */
  lemma SkipBelowOne(us: seq<User>, fs: seq<Follow>)
    requires us == [Member(10), Member(1), Member(7)]
    requires fs == [Follow(5, 1, 10), Follow(6, 7, 10)]
    ensures Matching(us, fs, Followers, 10, Some(1)) == []
  {
    var p := Where(Followers, 10, Some(1));
    assert !p(fs[0]) && !p(fs[1]);
    FilterNone(fs, p);
  }

  /** As written, the cursor can end the listing early. With a page size of
      one the first page of user 10's followers lists user 7 and hands out
      cursor 1, the user id of the popped row; no follow row has an id below
      1, so the next page is empty and has no cursor. User 1 follows user 10
      and is on no page. */
  lemma Skips(us: seq<User>, fs: seq<Follow>)
    requires us == [Member(10), Member(1), Member(7)]
    requires fs == [Follow(5, 1, 10), Follow(6, 7, 10)]
    ensures IsFollowing(fs, 1, 10)
    ensures var first := PageOf(Matching(us, fs, Followers, 10, None), 1);
      && first == Page([ItemOf(us[2])], Some(1))
      && PageOf(Matching(us, fs, Followers, 10, first.nextCursor), 1) == Page([], None)
  {
    SkipListing(us, fs);
    SkipBelowOne(us, fs);
    assert fs[0] in fs;
    FirstOfTwo(Joined(fs[1], us[2]), Joined(fs[0], us[1]));
    assert Items([]) == [];
  }

  /** The corrected `where` clause: `lte(follows.id, cursor)` for a truthy
      cursor. */
  function CorrectedWhere(dir: Direction, userId: int, cursor: Option<int>): Follow -> bool
  {
    (f: Follow) => Subject(dir, f) == userId && (!Truthy(cursor) || f.id <= cursor.value)
  }

  function CorrectedMatching(us: seq<User>, fs: seq<Follow>, dir: Direction, userId: int, cursor: Option<int>): seq<Joined>
  {
    Listing(us, fs, dir, CorrectedWhere(dir, userId, cursor))
  }

  /** The corrected page: the first `limit` rows, and as `nextCursor` the
      `follows.id` of the row after them, if there is one. */
  function CorrectedPage(rows: seq<Joined>, limit: nat): (page: Page)
    ensures page.nextCursor.Some? <==> |rows| > limit
    ensures |page.items| == if |rows| > limit then limit else |rows|
  {
    if |rows| > limit then Page(Items(rows[..limit]), Some(rows[limit].follow.id))
    else Page(Items(rows), None)
  }

  /** Of two strictly descending listings with the same rows, the first
      rows agree. */
  lemma SameHead(a: seq<Joined>, b: seq<Joined>)
    requires StrictlyDescending(a) && StrictlyDescending(b)
    requires forall j :: j in a <==> j in b
    requires a != [] && b != []
    ensures a[0] == b[0]
  {
    assert a[0] in b && b[0] in a;
    var i :| 0 <= i < |b| && b[i] == a[0];
    var k :| 0 <= k < |a| && a[k] == b[0];
    assert a[0].follow.id >= a[k].follow.id;
    assert b[0].follow.id >= b[i].follow.id;
    assert i == 0;
  }

  /** Below a common first row, two strictly descending listings with the
      same rows still have the same rows. */
  lemma SameTail(a: seq<Joined>, b: seq<Joined>)
    requires StrictlyDescending(a) && StrictlyDescending(b)
    requires forall j :: j in a <==> j in b
    requires a != [] && b != [] && a[0] == b[0]
    ensures forall j :: j in a[1..] <==> j in b[1..]
  {
    forall j | j in a[1..] ensures j in b[1..] {
      var i :| 1 <= i < |a| && a[i] == j;
      assert j.follow.id < a[0].follow.id;
      assert j in b;
      var k :| 0 <= k < |b| && b[k] == j;
      assert b[1..][k - 1] == j;
    }
    forall j | j in b[1..] ensures j in a[1..] {
      var i :| 1 <= i < |b| && b[i] == j;
      assert j.follow.id < b[0].follow.id;
      assert j in a;
      var k :| 0 <= k < |a| && a[k] == j;
      assert a[1..][k - 1] == j;
    }
  }

  /** Two listings in strictly descending `follows.id` order with the same
      rows are the same listing. */
  lemma {:induction false} DescendingUnique(a: seq<Joined>, b: seq<Joined>)
    requires StrictlyDescending(a) && StrictlyDescending(b)
    requires forall j :: j in a <==> j in b
    ensures a == b
  {
    assert a != [] ==> a[0] in b;
    assert b != [] ==> b[0] in a;
    if a != [] && b != [] {
      SameHead(a, b);
      SameTail(a, b);
      DescendingUnique(a[1..], b[1..]);
      assert a == [a[0]] + a[1..] && b == [b[0]] + b[1..];
    }
  }

  /** The rows at or below the `follows.id` of row `k` of a strictly
      descending listing are the rows from `k` on. */
  lemma WindowRows(us: seq<User>, fs: seq<Follow>, dir: Direction, userId: int, rows: seq<Joined>, k: nat)
    requires forall f | f in fs :: f.id >= 1
    requires StrictlyDescending(rows)
    requires rows == CorrectedMatching(us, fs, dir, userId, None)
    requires k < |rows|
    ensures forall j :: j in CorrectedMatching(us, fs, dir, userId, Some(rows[k].follow.id)) <==> j in rows[k..]
  {
    var c := rows[k].follow.id;
    ListingRows(us, fs, dir, CorrectedWhere(dir, userId, None), rows[k]);
    assert Truthy(Some(c));
    forall j ensures j in CorrectedMatching(us, fs, dir, userId, Some(c)) <==> j in rows[k..] {
      ListingRows(us, fs, dir, CorrectedWhere(dir, userId, Some(c)), j);
      ListingRows(us, fs, dir, CorrectedWhere(dir, userId, None), j);
      if j in rows {
        var i :| 0 <= i < |rows| && rows[i] == j;
        if i >= k {
          assert rows[k..][i - k] == j;
        }
      }
    }
  }

  /** The rows at or below cursor `c` are the listing from the top with the
      rows above `c` cut off. */
  lemma Window(us: seq<User>, fs: seq<Follow>, dir: Direction, userId: int, rows: seq<Joined>, k: nat)
    requires Injective(fs, FollowId)
    requires forall f | f in fs :: f.id >= 1
    requires rows == CorrectedMatching(us, fs, dir, userId, None)
    requires k < |rows|
    ensures CorrectedMatching(us, fs, dir, userId, Some(rows[k].follow.id)) == rows[k..]
  {
    var next := CorrectedMatching(us, fs, dir, userId, Some(rows[k].follow.id));
    ListingDescending(us, fs, dir, CorrectedWhere(dir, userId, None));
    ListingDescending(us, fs, dir, CorrectedWhere(dir, userId, Some(rows[k].follow.id)));
    WindowRows(us, fs, dir, userId, rows, k);
    DescendingUnique(next, rows[k..]);
  }

  /** The corrected listing as a function of the cursor. */
  function CorrectedAt(us: seq<User>, fs: seq<Follow>, dir: Direction, userId: int): Option<int> -> seq<Joined>
  {
    (cursor: Option<int>) => CorrectedMatching(us, fs, dir, userId, cursor)
  }

  /** A listing `at` whose page at the `follows.id` of its `k`-th row (from
      the top) is the listing with the first `k` rows cut off. */
  predicate Windowed(at: Option<int> -> seq<Joined>)
  {
    forall k | 0 <= k < |at(None)| :: at(Some(at(None)[k].follow.id)) == at(None)[k..]
  }

  /** The corrected listing is windowed. */
  lemma CorrectedWindowed(us: seq<User>, fs: seq<Follow>, dir: Direction, userId: int)
    requires Injective(fs, FollowId)
    requires forall f | f in fs :: f.id >= 1
    ensures Windowed(CorrectedAt(us, fs, dir, userId))
  {
    var at := CorrectedAt(us, fs, dir, userId);
    forall k | 0 <= k < |at(None)| ensures at(Some(at(None)[k].follow.id)) == at(None)[k..] {
      Window(us, fs, dir, userId, at(None), k);
    }
  }

  /** `cursor` is absent or the `follows.id` of a row of the full listing:
      a cursor the paging itself handed out. */
  predicate FromListing(at: Option<int> -> seq<Joined>, cursor: Option<int>)
  {
    cursor.Some? ==> exists k | 0 <= k < |at(None)| :: at(None)[k].follow.id == cursor.value
  }

  /** The `nextCursor` of a corrected page is one of the listing's own, and
      the page taken at it holds exactly the rows after the current page. */
  lemma Step(at: Option<int> -> seq<Joined>, limit: nat, cursor: Option<int>)
    requires Windowed(at)
    requires FromListing(at, cursor)
    requires |at(cursor)| > limit
    ensures FromListing(at, Some(at(cursor)[limit].follow.id))
    ensures at(Some(at(cursor)[limit].follow.id)) == at(cursor)[limit..]
  {
    var all := at(None);
    var rows := at(cursor);
    var k0: nat := 0;
    if cursor.Some? {
      k0 :| 0 <= k0 < |all| && all[k0].follow.id == cursor.value;
    }
    assert rows == all[k0..];
    var k := k0 + limit;
    assert rows[limit] == all[k];
    assert rows[limit..] == all[k..];
  }

  /** The items of the corrected pages that start at `cursor`, taken one
      after another by following `nextCursor` until it is absent. */
  function Drain(at: Option<int> -> seq<Joined>, limit: nat, cursor: Option<int>): (r: seq<Item>)
    requires Windowed(at)
    requires limit >= 1
    requires FromListing(at, cursor)
    ensures r == Items(at(cursor))
    decreases |at(cursor)|
  {
    var rows := at(cursor);
    var page := CorrectedPage(rows, limit);
    match page.nextCursor
    case None => page.items
    case Some(c) =>
      Step(at, limit, cursor);
      var rest := Drain(at, limit, Some(c));
      ItemsAppend(rows[..limit], rows[limit..]);
      assert rows == rows[..limit] + rows[limit..];
      page.items + rest
  }

  /** Taking the corrected pages from the first one lists every matching
      row, once, newest follow first. */
  lemma DrainListsAll(us: seq<User>, fs: seq<Follow>, dir: Direction, userId: int, limit: nat)
    requires Injective(fs, FollowId)
    requires forall f | f in fs :: f.id >= 1
    requires limit >= 1
    ensures Windowed(CorrectedAt(us, fs, dir, userId))
    ensures Drain(CorrectedAt(us, fs, dir, userId), limit, None) == Items(CorrectedMatching(us, fs, dir, userId, None))
    ensures StrictlyDescending(CorrectedMatching(us, fs, dir, userId, None))
    ensures forall j :: j in CorrectedMatching(us, fs, dir, userId, None) <==>
      && j.follow in fs
      && Subject(dir, j.follow) == userId
      && UserById(us, Listed(dir, j.follow)) == Some(j.user)
  {
    CorrectedWindowed(us, fs, dir, userId);
    ListingDescending(us, fs, dir, CorrectedWhere(dir, userId, None));
    forall j {
      ListingRows(us, fs, dir, CorrectedWhere(dir, userId, None), j);
    }
  }
}
