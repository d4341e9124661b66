/** The user router (src/server/api/routers/user.ts) over a store that holds
    the `users`, `posts` and `follows` tables. Each procedure first checks its
    zod input schema (an input that fails it is answered with BAD_REQUEST
    before the procedure runs), then runs its queries on the tables. The
    signed-in user of a protected procedure is the `Session` parameter. */
module UserRouter {
  import opened Wrappers
  import opened Seqs
  import opened Schema
  import opened Validators
  import opened FollowGraph

  /** `ctx.session.user`: the signed-in user's id and wallet address. */
  datatype Session = Session(userId: int, address: string)

  function FollowPair(f: Follow): (int, int) { (f.followerId, f.followingId) }

  /** `.limit(limit + 1)` on the ordered listing, then the `pop()` of the
      extra row into `nextCursor` (the listed user's id). */
  method FetchPage(rows: seq<Joined>, limit: nat) returns (page: Page)
    ensures page == PageOf(rows, limit)
  {
    var items := if |rows| > limit + 1 then rows[..limit + 1] else rows;
    var nextCursor: Option<int> := None;
    if |items| > limit {
      var nextItem := items[|items| - 1];
      items := items[..|items| - 1];
      nextCursor := Some(nextItem.user.id);
    }
    page := Page(Items(items), nextCursor);
  }

  /** How the two queries of `updateProfile` may fail inside the store (a
      lost connection, a violated constraint the router does not check).
      No such failure is visible in the code; it is an input here. */
  datatype Fault = NoFault | LookupFails | UpdateFails

  /** Some user other than `id` already has `username`. */
  predicate UsernameTaken(us: seq<User>, username: string, id: int)
  {
    exists u | u in us :: u.username == username && u.id != id
  }

  /** `UPDATE users SET username, bio, image, cover, updated_at WHERE id = id`. */
  function SetProfile(us: seq<User>, id: int, input: ProfileInput, now: Timestamp): (r: seq<User>)
    ensures |r| == |us|
    ensures forall i | 0 <= i < |us| && us[i].id != id :: r[i] == us[i]
    ensures forall i | 0 <= i < |us| && us[i].id == id ::
      && r[i].id == us[i].id && r[i].address == us[i].address
      && r[i].username == input.username && r[i].bio == input.bio
      && r[i].image == input.image && r[i].cover == input.cover
      && r[i].updatedAt == now
    ensures UserIds(r) == UserIds(us)
  {
    var r := seq(|us|, i requires 0 <= i < |us| =>
      if us[i].id == id
      then us[i].(username := input.username, bio := input.bio, image := input.image,
                  cover := input.cover, updatedAt := now)
      else us[i]);
    assert UserIds(r) == UserIds(us) by {
      forall x | x in UserIds(us) ensures x in UserIds(r) {
        var u :| u in us && u.id == x;
        var i :| 0 <= i < |us| && us[i] == u;
        assert r[i].id == x;
      }
      forall x | x in UserIds(r) ensures x in UserIds(us) {
        var u :| u in r && u.id == x;
        var i :| 0 <= i < |r| && r[i] == u;
        assert us[i].id == x;
      }
    }
    r
  }

  /** The first users row (in table order) with this username:
      `findFirst({ where: eq(users.username, username) })`. */
  function UserByUsername(us: seq<User>, username: string): (r: Option<User>)
    ensures r.None? <==> forall u | u in us :: u.username != username
    ensures r.Some? ==> exists i | 0 <= i < |us| ::
      && us[i] == r.value
      && r.value.username == username
      && forall j | 0 <= j < i :: us[j].username != username
  {
    if us == [] then None
    else if us[0].username == username then Some(us[0])
    else
      var rest := UserByUsername(us[1..], username);
      assert us == [us[0]] + us[1..];
      assert rest.Some? ==> exists i | 0 <= i < |us| ::
        && us[i] == rest.value
        && rest.value.username == username
        && forall j | 0 <= j < i :: us[j].username != username
      by {
        if rest.Some? {
          var k :| 0 <= k < |us[1..]| && us[1..][k] == rest.value && rest.value.username == username
            && forall j | 0 <= j < k :: us[1..][j].username != username;
          assert us[k + 1] == rest.value;
          forall j | 0 <= j < k + 1 ensures us[j].username != username {
            if j > 0 {
              assert us[j] == us[1..][j - 1];
            }
          }
        }
      }
      rest
  }

  /** The first follows row from `a` to `b`, if any: the `findFirst` whose
      truthiness is `isFollowing`. */
  function FindFollow(fs: seq<Follow>, a: int, b: int): (r: Option<Follow>)
    ensures r.Some? ==> r.value in fs && r.value.followerId == a && r.value.followingId == b
    ensures r.None? <==> !IsFollowing(fs, a, b)
  {
    if fs == [] then None
    else if fs[0].followerId == a && fs[0].followingId == b then Some(fs[0])
    else
      assert fs == [fs[0]] + fs[1..];
      FindFollow(fs[1..], a, b)
  }

  function ByAuthor(userId: int): Post -> bool
  {
    (p: Post) => p.authorId == userId
  }

  /** What `getProfileByUsername` returns: the user row and its counts and
      flags (`ProfileResponse`). */
  datatype Profile = Profile(
    user: User,
    followersCount: nat,
    followingCount: nat,
    postsCount: nat,
    isCurrentUser: bool,
    isFollowing: bool)

  /** The exclusion filter of `getRandomSuggestions`: a user other than `me`
      whom `me` does not follow yet. */
  function Suggestable(fs: seq<Follow>, me: int): User -> bool
  {
    (u: User) => u.id != me && !IsFollowing(fs, me, u.id)
  }

  /** What `search` selects: `users.id` and `users.username`. */
  datatype Hit = Hit(id: int, username: string)

  function Matches(query: string, matches: (string, string) -> bool): User -> bool
  {
    (u: User) => matches(u.username, query)
  }

  function Take<T>(s: seq<T>, n: nat): (r: seq<T>)
    ensures |r| == if |s| < n then |s| else n
    ensures forall i | 0 <= i < |r| :: r[i] == s[i]
  {
    if |s| <= n then s else s[..n]
  }

  /** Every user among the first `n` suggestable ones is another user whom
      `me` does not follow. */
  lemma PickedSuggestable(us: seq<User>, fs: seq<Follow>, me: int, picked: seq<User>, n: nat)
    requires picked == Take(Filter(us, Suggestable(fs, me)), n)
    ensures forall i | 0 <= i < |picked| :: picked[i] in us && picked[i].id != me && !IsFollowing(fs, me, picked[i].id)
  {
    var candidates := Filter(us, Suggestable(fs, me));
    forall i | 0 <= i < |picked| ensures picked[i] in us && picked[i].id != me && !IsFollowing(fs, me, picked[i].id) {
      assert picked[i] == candidates[i] && candidates[i] in candidates;
    }
  }

  /** Every user among the first `n` matching ones is a user whose username
      matches. */
  lemma PickedMatching(us: seq<User>, query: string, matches: (string, string) -> bool, found: seq<User>, n: nat)
    requires found == Take(Filter(us, Matches(query, matches)), n)
    ensures forall i | 0 <= i < |found| :: found[i] in us && matches(found[i].username, query)
  {
    var selected := Filter(us, Matches(query, matches));
    forall i | 0 <= i < |found| ensures found[i] in us && matches(found[i].username, query) {
      assert found[i] == selected[i] && selected[i] in selected;
    }
  }

  /** `SELECT … FROM users WHERE … LIMIT n` returns each user at most once:
      with `users.id` a primary key, the first `n` selected users have
      pairwise distinct ids. */
  lemma DistinctPicked(us: seq<User>, p: User -> bool, picked: seq<User>, n: nat)
    requires picked == Take(Filter(us, p), n)
    ensures Injective(us, UserId) ==>
      forall i, j | 0 <= i < j < |picked| :: picked[i].id != picked[j].id
  {
    if Injective(us, UserId) {
      var selected := Filter(us, p);
      FilterInjective(us, p, UserId);
      forall i, j | 0 <= i < j < |picked| ensures picked[i].id != picked[j].id {
        assert picked[i] == selected[i] && picked[j] == selected[j];
        assert UserId(selected[i]) != UserId(selected[j]);
      }
    }
  }

  class Store {
    var users: seq<User>
    var posts: seq<Post>
    var follows: seq<Follow>
    /** The next value of the `follows.id` sequence. */
    var followSerial: int

    /** Ids are primary keys, every follow id was drawn from the sequence,
        and at most one follows row exists per (follower, following) pair. */
    ghost predicate Valid()
      reads this
    {
      && Injective(users, UserId)
      && Injective(follows, FollowId)
      && Injective(follows, FollowPair)
      && 1 <= followSerial
      && (forall f | f in follows :: 1 <= f.id < followSerial)
    }

    constructor()
      ensures Valid()
      ensures users == [] && posts == [] && follows == [] && followSerial == 1
    {
      users := [];
      posts := [];
      follows := [];
      followSerial := 1;
    }

    /** `follow`: a user cannot follow themself; otherwise one follows row
        from the session user to `userId` is inserted. A second row for the
        same pair violates the unique constraint, which tRPC reports as an
        internal error. */
    method Follow(session: Session, userId: int) returns (r: Result<(), ErrorCode>)
      requires Valid()
      modifies this
      ensures Valid()
      ensures users == old(users) && posts == old(posts)
      ensures userId == session.userId ==>
        r == Err(BadRequest) && follows == old(follows) && followSerial == old(followSerial)
      ensures userId != session.userId && IsFollowing(old(follows), session.userId, userId) ==>
        r == Err(InternalServerError) && follows == old(follows) && followSerial == old(followSerial)
      ensures userId != session.userId && !IsFollowing(old(follows), session.userId, userId) ==>
        && r == Ok(())
        && follows == old(follows) + [FollowGraph.Follow(old(followSerial), session.userId, userId)]
        && followSerial == old(followSerial) + 1
    {
      if userId == session.userId {
        return Err(BadRequest);
      }
      if FindFollow(follows, session.userId, userId).Some? {
        return Err(InternalServerError);
      }
      var row := FollowGraph.Follow(followSerial, session.userId, userId);
      AppendInjective(follows, row, FollowId);
      AppendInjective(follows, row, FollowPair);
      follows := follows + [row];
      followSerial := followSerial + 1;
      r := Ok(());
    }

    /** `unfollow`: deletes every follows row from the session user to
        `userId`; no row means nothing to delete. */
    method Unfollow(session: Session, userId: int)
      requires Valid()
      modifies this
      ensures Valid()
      ensures follows == RemoveEdge(old(follows), session.userId, userId)
      ensures users == old(users) && posts == old(posts) && followSerial == old(followSerial)
    {
      FilterInjective(follows, NotEdge(session.userId, userId), FollowId);
      FilterInjective(follows, NotEdge(session.userId, userId), FollowPair);
      follows := RemoveEdge(follows, session.userId, userId);
    }

    /** The follows listing shared by `getFollowers` and `getFollowing`. */
    method ListFollows(dir: Direction, userId: int, limit: Option<int>, cursor: Option<int>)
      returns (r: Result<Page, ErrorCode>)
      ensures FollowListLimit(limit).Err? ==> r == Err(BadRequest)
      ensures FollowListLimit(limit).Ok? ==>
        r == Ok(PageOf(Matching(users, follows, dir, userId, cursor), FollowListLimit(limit).value))
    {
      var n := FollowListLimit(limit);
      if n.Err? {
        return Err(BadRequest);
      }
      var page := FetchPage(Matching(users, follows, dir, userId, cursor), n.value);
      r := Ok(page);
    }

    /** `getFollowers`: the users following `userId`, newest follow first. */
    method GetFollowers(userId: int, limit: Option<int>, cursor: Option<int>) returns (r: Result<Page, ErrorCode>)
      ensures FollowListLimit(limit).Err? ==> r == Err(BadRequest)
      ensures FollowListLimit(limit).Ok? ==>
        r == Ok(PageOf(Matching(users, follows, Followers, userId, cursor), FollowListLimit(limit).value))
    {
      r := ListFollows(Followers, userId, limit, cursor);
    }

    /** `getFollowing`: the users `userId` follows, newest follow first. */
    method GetFollowing(userId: int, limit: Option<int>, cursor: Option<int>) returns (r: Result<Page, ErrorCode>)
      ensures FollowListLimit(limit).Err? ==> r == Err(BadRequest)
      ensures FollowListLimit(limit).Ok? ==>
        r == Ok(PageOf(Matching(users, follows, Following, userId, cursor), FollowListLimit(limit).value))
    {
      r := ListFollows(Following, userId, limit, cursor);
    }

    /** `updateProfile`: an input that fails its schema is a BAD_REQUEST; a
        username held by another user is a CONFLICT; an update that matches
        no row is NOT_FOUND; these tRPC errors pass through the `catch`
        unchanged, and any other failure becomes INTERNAL_SERVER_ERROR. On
        success only the session user's row changes, and only in its
        username, bio, image, cover and update time. */
    method UpdateProfile(session: Session, input: ProfileInput, fault: Fault, now: Timestamp)
      returns (r: Result<User, ErrorCode>)
      requires Valid()
      modifies this
      ensures Valid()
      ensures posts == old(posts) && follows == old(follows) && followSerial == old(followSerial)
      ensures r.Err? ==> users == old(users)
      ensures !ValidProfileInput(input) ==> r == Err(BadRequest)
      ensures ValidProfileInput(input) && fault == LookupFails ==> r == Err(InternalServerError)
      ensures ValidProfileInput(input) && fault != LookupFails ==>
        (r == Err(Conflict) <==> UsernameTaken(old(users), input.username, session.userId))
      ensures (ValidProfileInput(input) && fault == UpdateFails
               && !UsernameTaken(old(users), input.username, session.userId)) ==> r == Err(InternalServerError)
      ensures (ValidProfileInput(input) && fault == NoFault
               && !UsernameTaken(old(users), input.username, session.userId)) ==>
        && (r == Err(NotFound) <==> session.userId !in UserIds(old(users)))
        && (r.Ok? ==>
              && users == SetProfile(old(users), session.userId, input, now)
              && r.value in users && r.value.id == session.userId)
      ensures (ValidProfileInput(input) && fault == NoFault
               && !UsernameTaken(old(users), input.username, session.userId)
               && session.userId in UserIds(old(users))) ==> r.Ok?
    {
      if !ValidProfileInput(input) {
        return Err(BadRequest);
      }
      if fault == LookupFails {
        return Err(InternalServerError);
      }
      if UsernameTaken(users, input.username, session.userId) {
        return Err(Conflict);
      }
      if fault == UpdateFails {
        return Err(InternalServerError);
      }
      var updated := SetProfile(users, session.userId, input, now);
      var row := UserById(updated, session.userId);
      if row.None? {
        return Err(NotFound);
      }
      assert Injective(updated, UserId) by {
        forall i, j | 0 <= i < |updated| && 0 <= j < |updated| && UserId(updated[i]) == UserId(updated[j])
          ensures i == j
        {
          assert UserId(users[i]) == UserId(users[j]);
        }
      }
      users := updated;
      r := Ok(row.value);
    }

    /** `getProfileByUsername`: NOT_FOUND for an unknown username; else the
        first user with that username, how many follow them, how many they
        follow, how many posts they wrote, whether it is the signed-in
        wallet's account and whether the signed-in user follows them. */
    function GetProfileByUsername(session: Session, username: string): (r: Result<Profile, ErrorCode>)
      reads this
      ensures r.Err? <==> forall u | u in users :: u.username != username
      ensures r.Err? ==> r.error == NotFound
      ensures r.Ok? ==>
        && r.value.user in users
        && r.value.user.username == username
        && r.value.followersCount == FollowersCount(follows, r.value.user.id)
        && r.value.followingCount == FollowingCount(follows, r.value.user.id)
        && r.value.postsCount == |Filter(posts, ByAuthor(r.value.user.id))|
        && (r.value.isCurrentUser <==> r.value.user.address == session.address)
        && (r.value.isFollowing <==> IsFollowing(follows, session.userId, r.value.user.id))
    {
      match UserByUsername(users, username)
      case None => Err(NotFound)
      case Some(u) =>
        Ok(Profile(
          u,
          FollowersCount(follows, u.id),
          FollowingCount(follows, u.id),
          |Filter(posts, ByAuthor(u.id))|,
          u.address == session.address,
          FindFollow(follows, session.userId, u.id).Some?))
    }

    /** `getRandomSuggestions`: up to `limit` users other than the signed-in
        user whom they do not follow yet; as many as there are, up to the
        limit. The random order is not modelled: they come in table order. */
    function GetRandomSuggestions(session: Session, limit: Option<int>): (r: Result<seq<Item>, ErrorCode>)
      reads this
      ensures r.Err? <==> SuggestionLimit(limit).Err?
      ensures r.Err? ==> r.error == BadRequest
      ensures r.Ok? ==>
        var candidates := Filter(users, Suggestable(follows, session.userId));
        && |r.value| == (if |candidates| < SuggestionLimit(limit).value then |candidates| else SuggestionLimit(limit).value)
        && forall i | 0 <= i < |r.value| :: exists u | u in users ::
             && r.value[i] == ItemOf(u)
             && u.id != session.userId
             && !IsFollowing(follows, session.userId, u.id)
      ensures r.Ok? && Injective(users, UserId) ==>
        forall i, j | 0 <= i < j < |r.value| :: r.value[i].id != r.value[j].id
    {
      match SuggestionLimit(limit)
      case Err(e) => Err(e)
      case Ok(n) =>
        var picked := Take(Filter(users, Suggestable(follows, session.userId)), n);
        PickedSuggestable(users, follows, session.userId, picked, n);
        DistinctPicked(users, Suggestable(follows, session.userId), picked, n);
        var items := seq(|picked|, i requires 0 <= i < |picked| => ItemOf(picked[i]));
        assert forall i | 0 <= i < |items| :: items[i] == ItemOf(picked[i]) && picked[i] in users;
        Ok(items)
    }

    /** `search`: up to `limit` users whose username matches the query
        (`ILIKE '%query%'`, an input predicate here). */
    function Search(query: string, limit: Option<int>, matches: (string, string) -> bool): (r: Result<seq<Hit>, ErrorCode>)
      reads this
      ensures r.Err? <==> !ValidSearchQuery(query) || SearchLimit(limit).Err?
      ensures r.Err? ==> r.error == BadRequest
      ensures r.Ok? ==>
        var selected := Filter(users, Matches(query, matches));
        && |r.value| == (if |selected| < SearchLimit(limit).value then |selected| else SearchLimit(limit).value)
        && forall i | 0 <= i < |r.value| :: exists u | u in users ::
             r.value[i] == Hit(u.id, u.username) && matches(u.username, query)
      ensures r.Ok? && Injective(users, UserId) ==>
        forall i, j | 0 <= i < j < |r.value| :: r.value[i].id != r.value[j].id
    {
      if !ValidSearchQuery(query) then Err(BadRequest)
      else match SearchLimit(limit)
        case Err(e) => Err(e)
        case Ok(n) =>
          var found := Take(Filter(users, Matches(query, matches)), n);
          PickedMatching(users, query, matches, found, n);
          DistinctPicked(users, Matches(query, matches), found, n);
          var hits := seq(|found|, i requires 0 <= i < |found| => Hit(found[i].id, found[i].username));
          assert forall i | 0 <= i < |hits| :: hits[i] == Hit(found[i].id, found[i].username) && found[i] in users;
          Ok(hits)
    }
  }
}
