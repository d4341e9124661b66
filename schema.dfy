/** The tables of the post schema (src/lib/db/schema/post.ts) as rows in
    sequences, with the constraints the schema declares: primary keys, the
    one-row-per-(user, post) unique constraints of likes, saves and reposts,
    and foreign keys that cascade on delete. The users table itself is
    declared in another schema file; only the columns that the router and the
    view read are kept. */
module Schema {
  import opened Wrappers
  import opened Seqs

  /** A point in time, compared only for equality. */
  type Timestamp = int

  datatype User = User(
    id: int,
    username: string,
    address: string,
    image: Option<string>,
    bio: Option<string>,
    cover: Option<string>,
    updatedAt: Timestamp)

  datatype Post = Post(
    id: int,
    content: string,
    image: Option<string>,
    createdAt: Timestamp,
    updatedAt: Timestamp,
    authorId: int,
    replyToId: Option<int>)

  /** A row of `likes`, `saves` or `reposts`: the three tables share one shape. */
  datatype Mark = Mark(id: int, userId: int, postId: int, createdAt: Timestamp)

  /** A table of marks with the next value of its `serial` id sequence. */
  datatype MarkTable = MarkTable(rows: seq<Mark>, serial: int)

  datatype Kind = Likes | Saves | Reposts

  datatype Tables = Tables(
    users: seq<User>,
    posts: seq<Post>,
    likes: MarkTable,
    saves: MarkTable,
    reposts: MarkTable)
  {
    function Marks(k: Kind): MarkTable
    {
      match k
      case Likes => likes
      case Saves => saves
      case Reposts => reposts
    }

    function WithMarks(k: Kind, m: MarkTable): Tables
    {
      match k
      case Likes => this.(likes := m)
      case Saves => this.(saves := m)
      case Reposts => this.(reposts := m)
    }
  }

  datatype DbError = UniqueViolation | ForeignKeyViolation

  function UserId(u: User): int { u.id }
  function PostId(p: Post): int { p.id }
  function MarkId(m: Mark): int { m.id }
  function MarkPair(m: Mark): (int, int) { (m.userId, m.postId) }

  function UserIds(us: seq<User>): set<int> { set u | u in us :: u.id }
  function PostIds(ps: seq<Post>): set<int> { set p | p in ps :: p.id }

  /** The users row whose primary key is `id`, if any (a join on `users.id`). */
  function UserById(us: seq<User>, id: int): (r: Option<User>)
    ensures r.Some? ==> r.value in us && r.value.id == id
    ensures r.None? <==> id !in UserIds(us)
  {
    if us == [] then None
    else if us[0].id == id then Some(us[0])
    else
      assert UserIds(us) == {us[0].id} + UserIds(us[1..]) by { assert us == [us[0]] + us[1..]; }
      UserById(us[1..], id)
  }

  /** Constraints of one mark table: `id` is a primary key drawn from the
      table's sequence, (userId, postId) is unique, and both columns
      reference existing rows. */
  predicate MarkTableWf(m: MarkTable, users: set<int>, posts: set<int>)
  {
    && Injective(m.rows, MarkId)
    && Injective(m.rows, MarkPair)
    && (forall r | r in m.rows :: r.id < m.serial && r.userId in users && r.postId in posts)
  }

  /** Every constraint the schema declares holds of the stored rows. */
  predicate Wf(t: Tables)
  {
    && Injective(t.users, UserId)
    && Injective(t.posts, PostId)
    && (forall p | p in t.posts :: p.authorId in UserIds(t.users))
    && (forall p | p in t.posts && p.replyToId.Some? :: p.replyToId.value in PostIds(t.posts))
    && MarkTableWf(t.likes, UserIds(t.users), PostIds(t.posts))
    && MarkTableWf(t.saves, UserIds(t.users), PostIds(t.posts))
    && MarkTableWf(t.reposts, UserIds(t.users), PostIds(t.posts))
  }

  /** Some row of the table already pairs this user with this post. */
  predicate HasPair(rows: seq<Mark>, userId: int, postId: int)
  {
    exists r | r in rows :: r.userId == userId && r.postId == postId
  }

  /** `INSERT INTO likes|saves|reposts (user_id, post_id)`: the unique
      constraint is checked as the row is written and the foreign keys at the
      end of the statement, so a duplicate pair reports the unique violation
      first. A rejected insert yields no new tables: the table is unchanged. */
  function InsertMark(t: Tables, k: Kind, userId: int, postId: int, at: Timestamp): (r: Result<Tables, DbError>)
    ensures HasPair(t.Marks(k).rows, userId, postId) ==> r == Err(UniqueViolation)
    ensures r.Err? <==>
      HasPair(t.Marks(k).rows, userId, postId) || userId !in UserIds(t.users) || postId !in PostIds(t.posts)
    ensures r.Ok? ==>
      && r.value.Marks(k).rows == t.Marks(k).rows + [Mark(t.Marks(k).serial, userId, postId, at)]
      && r.value.Marks(k).serial == t.Marks(k).serial + 1
      && r.value.users == t.users && r.value.posts == t.posts
      && (forall k' | k' != k :: r.value.Marks(k') == t.Marks(k'))
    ensures r.Ok? && Wf(t) ==> Wf(r.value)
  {
    var m := t.Marks(k);
    if HasPair(m.rows, userId, postId) then Err(UniqueViolation)
    else if userId !in UserIds(t.users) || postId !in PostIds(t.posts) then Err(ForeignKeyViolation)
    else
      var row := Mark(m.serial, userId, postId, at);
      var t' := t.WithMarks(k, MarkTable(m.rows + [row], m.serial + 1));
      assert Wf(t) ==> Wf(t') by {
        if Wf(t) {
          AppendMarkWf(m, row, UserIds(t.users), PostIds(t.posts));
        }
      }
      Ok(t')
  }

  /** A row with the next serial id, a new (user, post) pair and existing
      targets keeps a mark table well formed. */
  lemma AppendMarkWf(m: MarkTable, row: Mark, users: set<int>, posts: set<int>)
    requires MarkTableWf(m, users, posts)
    requires row.id == m.serial && row.userId in users && row.postId in posts
    requires !HasPair(m.rows, row.userId, row.postId)
    ensures MarkTableWf(MarkTable(m.rows + [row], m.serial + 1), users, posts)
  {
    AppendInjective(m.rows, row, MarkId);
    AppendInjective(m.rows, row, MarkPair);
  }

  /** The posts that reply directly to a post in `s`. */
  function Replies(ps: seq<Post>, s: set<int>): set<int>
  {
    set q | q in ps && q.replyToId.Some? && q.replyToId.value in s :: q.id
  }

  /** `d` contains every reply to a post in `d`: nothing in `d` is left with
      a surviving reply once `d` is deleted. */
  ghost predicate Closed(ps: seq<Post>, d: set<int>)
  {
    forall q | q in ps && q.replyToId.Some? && q.replyToId.value in d :: q.id in d
  }

  /** The ids that `ON DELETE CASCADE` through `reply_to_id` removes when the
      posts in `s` are deleted: `s` and, transitively, every reply to a
      removed post. */
  function Cascade(ps: seq<Post>, s: set<int>): (d: set<int>)
    ensures s <= d
    ensures Closed(ps, d)
    decreases PostIds(ps) - s
  {
    if Replies(ps, s) <= s then
      assert forall q | q in ps && q.replyToId.Some? && q.replyToId.value in s :: q.id in Replies(ps, s);
      s
    else
      assert Replies(ps, s) <= PostIds(ps);
      Cascade(ps, s + Replies(ps, s))
  }

  /** The cascade removes nothing that is not forced: it is contained in
      every reply-closed set that contains the posts deleted first. */
  lemma {:induction false} CascadeLeast(ps: seq<Post>, s: set<int>, bound: set<int>)
    requires s <= bound && Closed(ps, bound)
    ensures Cascade(ps, s) <= bound
    decreases PostIds(ps) - s
  {
    if !(Replies(ps, s) <= s) {
      assert Replies(ps, s) <= PostIds(ps);
      assert Replies(ps, s) <= bound;
      CascadeLeast(ps, s + Replies(ps, s), bound);
    }
  }

  /** Keeps the users outside `gone`. */
  function KeepUser(gone: set<int>): User -> bool
  {
    (u: User) => u.id !in gone
  }

  /** Keeps the posts outside `d`. */
  function KeepPost(d: set<int>): Post -> bool
  {
    (p: Post) => p.id !in d
  }

  /** Keeps the marks that neither a deleted user nor a deleted post owns. */
  function KeepMark(users: set<int>, posts: set<int>): Mark -> bool
  {
    (r: Mark) => r.userId !in users && r.postId !in posts
  }

  function Prune(m: MarkTable, users: set<int>, posts: set<int>): MarkTable
  {
    MarkTable(Filter(m.rows, KeepMark(users, posts)), m.serial)
  }

  /** The tables after the rows listed in `goneUsers` and `gonePosts` are
      removed, with every cascade the schema declares already applied. */
  function Remove(t: Tables, goneUsers: set<int>, gonePosts: set<int>): Tables
  {
    Tables(
      Filter(t.users, KeepUser(goneUsers)),
      Filter(t.posts, KeepPost(gonePosts)),
      Prune(t.likes, goneUsers, gonePosts),
      Prune(t.saves, goneUsers, gonePosts),
      Prune(t.reposts, goneUsers, gonePosts))
  }

  /** `DELETE FROM posts WHERE id = postId`: the post, every post whose
      reply chain leads to it, and every like, save and repost of any of
      them disappear; users are untouched. */
  function DeletePost(t: Tables, postId: int): (r: Tables)
    ensures postId !in PostIds(r.posts)
    ensures r.users == t.users
    ensures forall p | p in t.posts :: p in r.posts <==> p.id !in Cascade(t.posts, {postId})
    ensures forall p | p in r.posts :: p in t.posts
    ensures forall k: Kind, x | x in t.Marks(k).rows ::
      x in r.Marks(k).rows <==> x.postId !in Cascade(t.posts, {postId})
    ensures forall k: Kind, x | x in r.Marks(k).rows :: x in t.Marks(k).rows
    ensures Wf(t) ==> Wf(r)
  {
    var d := Cascade(t.posts, {postId});
    var r := Remove(t, {}, d);
    RemoveRows(t, {}, d);
    assert r.users == t.users by {
      forall u | u in t.users ensures u in r.users { }
      FilterIdentity(t.users, KeepUser({}));
    }
    assert Wf(t) ==> Wf(r) by {
      if Wf(t) { RemovePreservesWf(t, {}, d); }
    }
    r
  }

  /** The ids of the posts `userId` wrote. */
  function AuthoredBy(ps: seq<Post>, userId: int): set<int>
  {
    set p | p in ps && p.authorId == userId :: p.id
  }

  /** `DELETE FROM users WHERE id = userId`: the user, their posts with
      every reply chain below them, and the likes, saves and reposts of the
      user or of any removed post disappear. */
  function DeleteUser(t: Tables, userId: int): (r: Tables)
    ensures userId !in UserIds(r.users)
    ensures forall u | u in t.users :: u in r.users <==> u.id != userId
    ensures forall u | u in r.users :: u in t.users
    ensures forall p | p in r.posts :: p in t.posts && p.authorId != userId
    ensures forall p | p in t.posts ::
      p in r.posts <==> p.id !in Cascade(t.posts, AuthoredBy(t.posts, userId))
    ensures forall k: Kind, x | x in t.Marks(k).rows ::
      x in r.Marks(k).rows <==>
        x.userId != userId && x.postId !in Cascade(t.posts, AuthoredBy(t.posts, userId))
    ensures forall k: Kind, x | x in r.Marks(k).rows :: x in t.Marks(k).rows
    ensures Wf(t) ==> Wf(r)
  {
    var d := Cascade(t.posts, AuthoredBy(t.posts, userId));
    var r := Remove(t, {userId}, d);
    RemoveRows(t, {userId}, d);
    forall p | p in r.posts ensures p.authorId != userId {
      assert p.authorId == userId ==> p.id in AuthoredBy(t.posts, userId);
    }
    assert Wf(t) ==> Wf(r) by {
      if Wf(t) {
        forall p | p in t.posts && p.id !in d ensures p.authorId !in {userId} {
          assert p.authorId == userId ==> p.id in AuthoredBy(t.posts, userId);
        }
        RemovePreservesWf(t, {userId}, d);
      }
    }
    r
  }

  /** Which rows survive `Remove`. */
  lemma RemoveRows(t: Tables, goneUsers: set<int>, gonePosts: set<int>)
    ensures forall u :: u in Remove(t, goneUsers, gonePosts).users <==> u in t.users && u.id !in goneUsers
    ensures forall p :: p in Remove(t, goneUsers, gonePosts).posts <==> p in t.posts && p.id !in gonePosts
    ensures forall k: Kind, x ::
      x in Remove(t, goneUsers, gonePosts).Marks(k).rows <==>
        x in t.Marks(k).rows && x.userId !in goneUsers && x.postId !in gonePosts
  {
    var r := Remove(t, goneUsers, gonePosts);
    forall k: Kind ensures r.Marks(k) == Prune(t.Marks(k), goneUsers, gonePosts) { }
  }

  /** The ids left after `Remove` are the ids before it minus the removed ones. */
  lemma RemoveIds(t: Tables, goneUsers: set<int>, gonePosts: set<int>)
    ensures UserIds(Remove(t, goneUsers, gonePosts).users) == UserIds(t.users) - goneUsers
    ensures PostIds(Remove(t, goneUsers, gonePosts).posts) == PostIds(t.posts) - gonePosts
  {
    var r := Remove(t, goneUsers, gonePosts);
    forall x | x in UserIds(t.users) && x !in goneUsers ensures x in UserIds(r.users) {
      var u :| u in t.users && u.id == x;
      assert u in r.users;
    }
    forall x | x in PostIds(t.posts) && x !in gonePosts ensures x in PostIds(r.posts) {
      var p :| p in t.posts && p.id == x;
      assert p in r.posts;
    }
  }

  /** Pruning a well-formed mark table of the rows that reference removed
      users or posts leaves it well formed over the remaining ones. */
  lemma PruneWf(m: MarkTable, users: set<int>, posts: set<int>, goneUsers: set<int>, gonePosts: set<int>)
    requires MarkTableWf(m, users, posts)
    ensures MarkTableWf(Prune(m, goneUsers, gonePosts), users - goneUsers, posts - gonePosts)
  {
    FilterInjective(m.rows, KeepMark(goneUsers, gonePosts), MarkId);
    FilterInjective(m.rows, KeepMark(goneUsers, gonePosts), MarkPair);
  }

  /** Removing a reply-closed set of posts, the posts of the removed users
      among them, leaves no row that references a missing user or post. */
  lemma RemovePreservesWf(t: Tables, goneUsers: set<int>, gonePosts: set<int>)
    requires Wf(t)
    requires Closed(t.posts, gonePosts)
    requires forall p | p in t.posts && p.id !in gonePosts :: p.authorId !in goneUsers
    ensures Wf(Remove(t, goneUsers, gonePosts))
  {
    var r := Remove(t, goneUsers, gonePosts);
    var users := UserIds(t.users);
    var posts := PostIds(t.posts);
    RemoveIds(t, goneUsers, gonePosts);
    FilterInjective(t.users, KeepUser(goneUsers), UserId);
    FilterInjective(t.posts, KeepPost(gonePosts), PostId);
    forall p | p in r.posts && p.replyToId.Some? ensures p.replyToId.value in PostIds(r.posts) {
      assert p.replyToId.value in posts;
    }
    PruneWf(t.likes, users, posts, goneUsers, gonePosts);
    PruneWf(t.saves, users, posts, goneUsers, gonePosts);
    PruneWf(t.reposts, users, posts, goneUsers, gonePosts);
  }
}
