/** The `post_view` SELECT of src/lib/db/schema/post.ts, given its meaning
    as a function of the tables and the viewer (the session setting
    `app.user_id`).

    The query joins each post to its author (inner join), to every repost of
    it through the `first_repost` subquery (left join), to the reposter's
    user row, and then, again by left joins, to its reposts, likes, saves and
    replies; it groups by the post, the author and the `first_repost` row. A
    `Group` below is the set of joined rows one group gathers: the
    `first_repost` row fixed, times the post's reposts, likes, saves and
    replies, each padded with a single null when there are none. The
    aggregates are evaluated on that set, as `COUNT(DISTINCT …)` and
    `COALESCE(bool_or(…), false)` evaluate them. */
module PostView {
  import opened Wrappers
  import opened Seqs
  import opened Schema

  datatype ViewRow = ViewRow(
    id: int,
    content: string,
    image: Option<string>,
    createdAt: Timestamp,
    authorId: int,
    authorUsername: string,
    authorAddress: string,
    authorImage: Option<string>,
    reposterId: Option<int>,
    reposterUsername: Option<string>,
    repostId: Option<int>,
    repostCreatedAt: Option<Timestamp>,
    repostsCount: nat,
    likesCount: nat,
    savesCount: nat,
    isLiked: bool,
    isSaved: bool,
    isReposted: bool,
    isOwner: bool,
    replyToId: Option<int>,
    repliesCount: nat)

  /** One row of the join before grouping: the `first_repost` row and one
      row (or null) from each of `reposts`, `likes`, `saves` and the replies. */
  datatype JoinRow = JoinRow(
    first: Option<Mark>,
    repost: Option<Mark>,
    like: Option<Mark>,
    save: Option<Mark>,
    reply: Option<Post>)

  function OnPost(postId: int): Mark -> bool
  {
    (r: Mark) => r.postId == postId
  }

  function ReplyOf(postId: int): Post -> bool
  {
    (q: Post) => q.replyToId == Some(postId)
  }

  function MarksOn(rows: seq<Mark>, postId: int): set<Mark>
  {
    set r | r in rows && r.postId == postId
  }

  function RepliesTo(ps: seq<Post>, postId: int): set<Post>
  {
    set q | q in ps && q.replyToId == Some(postId)
  }

  /** What a LEFT JOIN contributes: the matching rows, or one null row. */
  function Pad<T>(xs: set<T>): set<Option<T>>
  {
    if xs == {} then {None} else set x | x in xs :: Some(x)
  }

  /** The joined rows that `GROUP BY` gathers for post `p` and the
      `first_repost` row `key`. */
  function Group(t: Tables, p: Post, key: Option<Mark>): set<JoinRow>
  {
    set a, b, c, d |
      && a in Pad(MarksOn(t.reposts.rows, p.id))
      && b in Pad(MarksOn(t.likes.rows, p.id))
      && c in Pad(MarksOn(t.saves.rows, p.id))
      && d in Pad(RepliesTo(t.posts, p.id))
      :: JoinRow(key, a, b, c, d)
  }

  /** The column of a joined row that comes from the table of kind `k`. */
  function MarkOf(j: JoinRow, k: Kind): Option<Mark>
  {
    match k
    case Likes => j.like
    case Saves => j.save
    case Reposts => j.repost
  }

  function IdOf(m: Option<Mark>): Option<int>
  {
    if m.Some? then Some(m.value.id) else None
  }

  /** `x.userId = viewer`, which is null when `x` is null. */
  function ByViewer(m: Option<Mark>, viewer: int): Option<bool>
  {
    if m.Some? then Some(m.value.userId == viewer) else None
  }

  /** The non-null values of a column. */
  function NonNull(col: set<Option<int>>): set<int>
  {
    set v | v in col && v.Some? :: v.value
  }

  /** `COUNT(DISTINCT col)`: the number of distinct non-null values. */
  function CountDistinct(col: set<Option<int>>): nat
  {
    |NonNull(col)|
  }

  /** `bool_or(col)`: null when every value is null. */
  function BoolOr(col: set<Option<bool>>): Option<bool>
  {
    if Some(true) in col then Some(true)
    else if Some(false) in col then Some(false)
    else None
  }

  function Coalesce(v: Option<bool>, default: bool): bool
  {
    if v.Some? then v.value else default
  }

  /** `COUNT(DISTINCT reposts.id)` and its likes and saves counterparts. */
  function KindCount(g: set<JoinRow>, k: Kind): nat
  {
    CountDistinct(KindColumn(g, k))
  }

  /** The `id` column that the table of kind `k` contributes to a group. */
  function KindColumn(g: set<JoinRow>, k: Kind): set<Option<int>>
  {
    set j | j in g :: IdOf(MarkOf(j, k))
  }

  /** The `id` column that the replies contribute to a group. */
  function ReplyColumn(g: set<JoinRow>): set<Option<int>>
  {
    set j | j in g :: if j.reply.Some? then Some(j.reply.value.id) else None
  }

  /** `COALESCE(bool_or(likes.user_id = viewer), false)` and its counterparts. */
  function KindFlag(g: set<JoinRow>, k: Kind, viewer: int): bool
  {
    Coalesce(BoolOr(set j | j in g :: ByViewer(MarkOf(j, k), viewer)), false)
  }

  /** `COUNT(DISTINCT replies.id)`. */
  function ReplyCount(g: set<JoinRow>): nat
  {
    CountDistinct(ReplyColumn(g))
  }

  /** The output row of the group of post `p` (written by `author`) under the
      `first_repost` row `key`. */
  function MakeRow(t: Tables, p: Post, author: User, key: Option<Mark>, viewer: int): ViewRow
  {
    var g := Group(t, p, key);
    var reposter := if key.Some? then UserById(t.users, key.value.userId) else None;
    ViewRow(
      id := p.id,
      content := p.content,
      image := p.image,
      createdAt := p.createdAt,
      authorId := p.authorId,
      authorUsername := author.username,
      authorAddress := author.address,
      authorImage := author.image,
      reposterId := if key.Some? then Some(key.value.userId) else None,
      reposterUsername := if reposter.Some? then Some(reposter.value.username) else None,
      repostId := if key.Some? then Some(key.value.id) else None,
      repostCreatedAt := if key.Some? then Some(key.value.createdAt) else None,
      repostsCount := KindCount(g, Reposts),
      likesCount := KindCount(g, Likes),
      savesCount := KindCount(g, Saves),
      isLiked := KindFlag(g, Likes, viewer),
      isSaved := KindFlag(g, Saves, viewer),
      isReposted := KindFlag(g, Reposts, viewer),
      isOwner := p.authorId == viewer,
      replyToId := p.replyToId,
      repliesCount := ReplyCount(g))
  }

  /** The `first_repost` rows that join post `p`: each of its reposts, or a
      single null when it has none. The subquery is not limited to one row. */
  function FirstRepostKeys(t: Tables, p: Post): seq<Option<Mark>>
  {
    var rs := Filter(t.reposts.rows, OnPost(p.id));
    if rs == [] then [None] else seq(|rs|, i requires 0 <= i < |rs| => Some(rs[i]))
  }

  /** The view rows of one post: none when its author is missing (inner
      join), otherwise one per `first_repost` key. */
  function RowsForPost(t: Tables, p: Post, viewer: int): seq<ViewRow>
  {
    match UserById(t.users, p.authorId)
    case None => []
    case Some(u) =>
      var keys := FirstRepostKeys(t, p);
      seq(|keys|, i requires 0 <= i < |keys| => MakeRow(t, p, u, keys[i], viewer))
  }

  /** The view rows of the posts `ps`, post by post. Each row carries the
      id of a listed post whose author exists. */
  function ViewOf(t: Tables, ps: seq<Post>, viewer: int): (v: seq<ViewRow>)
    ensures forall r | r in v :: exists p | p in ps :: p.id == r.id && p.authorId in UserIds(t.users)
  {
    if ps == [] then []
    else
      var head := RowsForPost(t, ps[0], viewer);
      var rest := ViewOf(t, ps[1..], viewer);
      assert forall r | r in head :: r.id == ps[0].id && ps[0].authorId in UserIds(t.users);
      assert forall r | r in rest :: exists p | p in ps :: p.id == r.id && p.authorId in UserIds(t.users) by {
        forall r | r in rest ensures exists p | p in ps :: p.id == r.id && p.authorId in UserIds(t.users) {
          var p :| p in ps[1..] && p.id == r.id && p.authorId in UserIds(t.users);
          assert p in ps;
        }
      }
      head + rest
  }

  /** `SELECT * FROM post_view` for `viewer`. The view has no `ORDER BY`;
      rows come post by post in table order. Every row belongs to a post of
      the table whose author is in `users` (the inner join). */
  function View(t: Tables, viewer: int): (v: seq<ViewRow>)
    ensures forall r | r in v :: exists p | p in t.posts :: p.id == r.id && p.authorId in UserIds(t.users)
  {
    ViewOf(t, t.posts, viewer)
  }

  function RowHasId(id: int): ViewRow -> bool
  {
    (r: ViewRow) => r.id == id
  }

  /** A left join never contributes zero rows. */
  lemma PadMember<T>(xs: set<T>) returns (o: Option<T>)
    ensures o in Pad(xs)
  {
    if xs == {} {
      o := None;
    } else {
      var x :| x in xs;
      o := Some(x);
    }
  }

  lemma PadHas<T>(xs: set<T>, x: T)
    requires x in xs
    ensures Some(x) in Pad(xs)
  {
  }

  /** Every row of a group takes its `k` column from the post's rows of kind
      `k`, and every such row shows up in the group. */
  lemma GroupWitness(t: Tables, p: Post, key: Option<Mark>, k: Kind, x: Mark) returns (j: JoinRow)
    requires x in MarksOn(t.Marks(k).rows, p.id)
    ensures j in Group(t, p, key) && MarkOf(j, k) == Some(x)
  {
    var a := PadMember(MarksOn(t.reposts.rows, p.id));
    var b := PadMember(MarksOn(t.likes.rows, p.id));
    var c := PadMember(MarksOn(t.saves.rows, p.id));
    var d := PadMember(RepliesTo(t.posts, p.id));
    PadHas(MarksOn(t.Marks(k).rows, p.id), x);
    match k
    case Likes => j := JoinRow(key, a, Some(x), c, d);
    case Saves => j := JoinRow(key, a, b, Some(x), d);
    case Reposts => j := JoinRow(key, Some(x), b, c, d);
  }

  lemma GroupColumn(t: Tables, p: Post, key: Option<Mark>, k: Kind, j: JoinRow)
    requires j in Group(t, p, key)
    ensures MarkOf(j, k).Some? ==> MarkOf(j, k).value in MarksOn(t.Marks(k).rows, p.id)
    ensures j.reply.Some? ==> j.reply.value in RepliesTo(t.posts, p.id)
  {
  }

  /** `COUNT(DISTINCT likes.id)` (and the reposts and saves counts) over a
      group is the number of rows of that table on the post. */
  lemma KindCountIsRowCount(t: Tables, p: Post, key: Option<Mark>, k: Kind)
    requires Injective(t.Marks(k).rows, MarkId)
    ensures KindCount(Group(t, p, key), k) == |Filter(t.Marks(k).rows, OnPost(p.id))|
  {
    KindIds(t, p, key, k);
    DistinctKeysCount(t.Marks(k).rows, OnPost(p.id), MarkId);
  }

  /** The non-null ids in a group's `k` column are the ids of the post's
      rows of kind `k`. */
  lemma KindIds(t: Tables, p: Post, key: Option<Mark>, k: Kind)
    ensures NonNull(KindColumn(Group(t, p, key), k)) == Keys(t.Marks(k).rows, OnPost(p.id), MarkId)
  {
    var rows := t.Marks(k).rows;
    var g := Group(t, p, key);
    var col := KindColumn(g, k);
    var ids := NonNull(col);
    var ref := Keys(rows, OnPost(p.id), MarkId);
    forall v | v in ids ensures v in ref {
      var j :| j in g && IdOf(MarkOf(j, k)) == Some(v);
      GroupColumn(t, p, key, k, j);
      var x := MarkOf(j, k).value;
      assert x in rows && OnPost(p.id)(x) && MarkId(x) == v;
    }
    forall v | v in ref ensures v in ids {
      var x :| x in rows && OnPost(p.id)(x) && MarkId(x) == v;
      var j := GroupWitness(t, p, key, k, x);
      assert IdOf(MarkOf(j, k)) in col;
    }
  }

  /** `COALESCE(bool_or(likes.user_id = viewer), false)` (and the saved and
      reposted flags) holds exactly when the viewer has such a row on the
      post; it is false, not null, when the post has none. */
  lemma KindFlagIsPair(t: Tables, p: Post, key: Option<Mark>, k: Kind, viewer: int)
    ensures KindFlag(Group(t, p, key), k, viewer) <==> HasPair(t.Marks(k).rows, viewer, p.id)
  {
    var g := Group(t, p, key);
    var col := set j | j in g :: ByViewer(MarkOf(j, k), viewer);
    if HasPair(t.Marks(k).rows, viewer, p.id) {
      var x :| x in t.Marks(k).rows && x.userId == viewer && x.postId == p.id;
      var j := GroupWitness(t, p, key, k, x);
      assert ByViewer(MarkOf(j, k), viewer) in col;
    }
    if KindFlag(g, k, viewer) {
      assert Some(true) in col;
      var j :| j in g && ByViewer(MarkOf(j, k), viewer) == Some(true);
      GroupColumn(t, p, key, k, j);
    }
  }

  /** `COUNT(DISTINCT replies.id)` over a group is the number of posts whose
      `replyToId` is the post. */
  lemma ReplyCountIsRowCount(t: Tables, p: Post, key: Option<Mark>)
    requires Injective(t.posts, PostId)
    ensures ReplyCount(Group(t, p, key)) == |Filter(t.posts, ReplyOf(p.id))|
  {
    var g := Group(t, p, key);
    var col := ReplyColumn(g);
    var ids := NonNull(col);
    var ref := Keys(t.posts, ReplyOf(p.id), PostId);
    forall v | v in ids ensures v in ref {
      var j :| j in g && (if j.reply.Some? then Some(j.reply.value.id) else None) == Some(v);
      GroupColumn(t, p, key, Likes, j);
    }
    forall v | v in ref ensures v in ids {
      var q :| q in t.posts && ReplyOf(p.id)(q) && PostId(q) == v;
      var a := PadMember(MarksOn(t.reposts.rows, p.id));
      var b := PadMember(MarksOn(t.likes.rows, p.id));
      var c := PadMember(MarksOn(t.saves.rows, p.id));
      PadHas(RepliesTo(t.posts, p.id), q);
      var j := JoinRow(key, a, b, c, Some(q));
      assert j in g;
      assert Some(v) in col;
    }
    assert ids == ref;
    DistinctKeysCount(t.posts, ReplyOf(p.id), PostId);
  }

  /** The counts, flags and owner mark of one output row, against the tables. */
  lemma RowAggregates(t: Tables, p: Post, author: User, key: Option<Mark>, viewer: int)
    requires Wf(t)
    ensures var r := MakeRow(t, p, author, key, viewer);
      && r.repostsCount == |Filter(t.reposts.rows, OnPost(p.id))|
      && r.likesCount == |Filter(t.likes.rows, OnPost(p.id))|
      && r.savesCount == |Filter(t.saves.rows, OnPost(p.id))|
      && r.repliesCount == |Filter(t.posts, ReplyOf(p.id))|
      && (r.isLiked <==> HasPair(t.likes.rows, viewer, p.id))
      && (r.isSaved <==> HasPair(t.saves.rows, viewer, p.id))
      && (r.isReposted <==> HasPair(t.reposts.rows, viewer, p.id))
      && (r.isOwner <==> p.authorId == viewer)
  {
    KindCountIsRowCount(t, p, key, Reposts);
    KindCountIsRowCount(t, p, key, Likes);
    KindCountIsRowCount(t, p, key, Saves);
    ReplyCountIsRowCount(t, p, key);
    KindFlagIsPair(t, p, key, Likes, viewer);
    KindFlagIsPair(t, p, key, Saves, viewer);
    KindFlagIsPair(t, p, key, Reposts, viewer);
  }

  lemma RowsForPostIds(t: Tables, p: Post, viewer: int)
    ensures forall r | r in RowsForPost(t, p, viewer) :: r.id == p.id
  {
  }

  /** Selecting one post's rows out of the view gives exactly the rows that
      post produces: no other post contributes a row with its id. */
  lemma {:induction false} ViewOfRowsOf(t: Tables, ps: seq<Post>, viewer: int, p: Post)
    requires Injective(ps, PostId) && p in ps
    ensures Filter(ViewOf(t, ps, viewer), RowHasId(p.id)) == RowsForPost(t, p, viewer)
  {
    var head := RowsForPost(t, ps[0], viewer);
    FilterConcat(head, ViewOf(t, ps[1..], viewer), RowHasId(p.id));
    RowsForPostIds(t, ps[0], viewer);
    if ps[0] == p {
      FilterIdentity(head, RowHasId(p.id));
      ViewOfNoRows(t, ps[1..], viewer, p.id);
    } else {
      assert p.id != ps[0].id by {
        var k :| 0 <= k < |ps| && ps[k] == p;
        assert PostId(ps[k]) != PostId(ps[0]);
      }
      FilterNone(head, RowHasId(p.id));
      InjectiveTail(ps, PostId);
      ViewOfRowsOf(t, ps[1..], viewer, p);
    }
  }

  /** A post id that no listed post has selects no view row. */
  lemma {:induction false} ViewOfNoRows(t: Tables, ps: seq<Post>, viewer: int, id: int)
    requires Injective(ps, PostId)
    requires forall q | q in ps :: q.id != id
    ensures Filter(ViewOf(t, ps, viewer), RowHasId(id)) == []
  {
    if ps != [] {
      RowsForPostIds(t, ps[0], viewer);
      FilterConcat(RowsForPost(t, ps[0], viewer), ViewOf(t, ps[1..], viewer), RowHasId(id));
      FilterNone(RowsForPost(t, ps[0], viewer), RowHasId(id));
      InjectiveTail(ps, PostId);
      ViewOfNoRows(t, ps[1..], viewer, id);
    }
  }

  /** Every view row comes from one listed post. */
  lemma {:induction false} ViewOfMember(t: Tables, ps: seq<Post>, viewer: int, r: ViewRow) returns (p: Post)
    requires r in ViewOf(t, ps, viewer)
    ensures p in ps && r in RowsForPost(t, p, viewer)
  {
    if r in RowsForPost(t, ps[0], viewer) {
      p := ps[0];
    } else {
      p := ViewOfMember(t, ps[1..], viewer, r);
    }
  }

  /** The author join is an inner join: a row exists only for a post whose
      author is present in `users`, and it carries that author's columns and
      the post's own columns. */
  lemma ViewInnerJoin(t: Tables, viewer: int, r: ViewRow)
    requires r in View(t, viewer)
    ensures exists p, u ::
      && p in t.posts && u in t.users && p.id == r.id && p.authorId == u.id
      && r.authorId == u.id && r.authorUsername == u.username
      && r.authorAddress == u.address && r.authorImage == u.image
      && r.content == p.content && r.replyToId == p.replyToId
      && r.image == p.image && r.createdAt == p.createdAt
  {
    var p := ViewOfMember(t, t.posts, viewer, r);
    var u := UserById(t.users, p.authorId).value;
    assert p in t.posts && u in t.users;
  }

  /** Every row of a post reports its true repost, like, save and reply
      counts, the viewer's liked / saved / reposted flags, and whether the
      viewer wrote the post. */
  lemma ViewRowFacts(t: Tables, viewer: int, p: Post, r: ViewRow)
    requires Wf(t) && p in t.posts && r in View(t, viewer) && r.id == p.id
    ensures r.repostsCount == |Filter(t.reposts.rows, OnPost(p.id))|
    ensures r.likesCount == |Filter(t.likes.rows, OnPost(p.id))|
    ensures r.savesCount == |Filter(t.saves.rows, OnPost(p.id))|
    ensures r.repliesCount == |Filter(t.posts, ReplyOf(p.id))|
    ensures r.isLiked <==> HasPair(t.likes.rows, viewer, p.id)
    ensures r.isSaved <==> HasPair(t.saves.rows, viewer, p.id)
    ensures r.isReposted <==> HasPair(t.reposts.rows, viewer, p.id)
    ensures r.isOwner <==> p.authorId == viewer
  {
    ViewOfRowsOf(t, t.posts, viewer, p);
    assert r in Filter(View(t, viewer), RowHasId(p.id));
    var u := UserById(t.users, p.authorId).value;
    var keys := FirstRepostKeys(t, p);
    var i :| 0 <= i < |keys| && r == MakeRow(t, p, u, keys[i], viewer);
    RowAggregates(t, p, u, keys[i], viewer);
  }

  /** All rows of one post agree on every count and flag. */
  lemma ViewRowsAgree(t: Tables, viewer: int, r1: ViewRow, r2: ViewRow)
    requires Wf(t) && r1 in View(t, viewer) && r2 in View(t, viewer) && r1.id == r2.id
    ensures r1.repostsCount == r2.repostsCount && r1.likesCount == r2.likesCount
    ensures r1.savesCount == r2.savesCount && r1.repliesCount == r2.repliesCount
    ensures r1.isLiked == r2.isLiked && r1.isSaved == r2.isSaved
    ensures r1.isReposted == r2.isReposted && r1.isOwner == r2.isOwner
  {
    var p := ViewOfMember(t, t.posts, viewer, r1);
    RowsForPostIds(t, p, viewer);
    ViewRowFacts(t, viewer, p, r1);
    ViewRowFacts(t, viewer, p, r2);
  }

  /** The reposter columns of a row come from its `first_repost` key and
      the user that key's repost names. */
  lemma KeyColumns(t: Tables, p: Post, author: User, key: Option<Mark>, viewer: int)
    ensures var r := MakeRow(t, p, author, key, viewer);
      && r.id == p.id
      && r.reposterId == (if key.Some? then Some(key.value.userId) else None)
      && r.repostId == (if key.Some? then Some(key.value.id) else None)
      && r.repostCreatedAt == (if key.Some? then Some(key.value.createdAt) else None)
      && r.reposterUsername ==
           (if key.Some? && UserById(t.users, key.value.userId).Some?
            then Some(UserById(t.users, key.value.userId).value.username) else None)
  {
  }

  /** The rows of one post whose author exists: one with null reposter
      columns when it has no repost, else one per repost carrying it. */
  lemma RowsForPostReposts(t: Tables, viewer: int, p: Post)
    requires UserById(t.users, p.authorId).Some?
    requires forall x | x in t.reposts.rows :: x.userId in UserIds(t.users)
    ensures var rows := RowsForPost(t, p, viewer);
      var rs := Filter(t.reposts.rows, OnPost(p.id));
      && (rs == [] ==>
            && |rows| == 1
            && rows[0].reposterId == None && rows[0].reposterUsername == None
            && rows[0].repostId == None && rows[0].repostCreatedAt == None)
      && (rs != [] ==>
            && |rows| == |rs|
            && forall i | 0 <= i < |rs| ::
                 && rows[i].repostId == Some(rs[i].id)
                 && rows[i].reposterId == Some(rs[i].userId)
                 && rows[i].repostCreatedAt == Some(rs[i].createdAt)
                 && exists u | u in t.users :: u.id == rs[i].userId && rows[i].reposterUsername == Some(u.username))
  {
    var author := UserById(t.users, p.authorId).value;
    var rows := RowsForPost(t, p, viewer);
    var keys := FirstRepostKeys(t, p);
    var rs := Filter(t.reposts.rows, OnPost(p.id));
    assert |rows| == |keys|;
    if rs == [] {
      KeyColumns(t, p, author, None, viewer);
      assert rows[0] == MakeRow(t, p, author, None, viewer);
    } else {
      forall i | 0 <= i < |rs|
        ensures rows[i].repostId == Some(rs[i].id)
        ensures rows[i].reposterId == Some(rs[i].userId)
        ensures rows[i].repostCreatedAt == Some(rs[i].createdAt)
        ensures exists u | u in t.users :: u.id == rs[i].userId && rows[i].reposterUsername == Some(u.username)
      {
        assert keys[i] == Some(rs[i]);
        assert rows[i] == MakeRow(t, p, author, keys[i], viewer);
        KeyColumns(t, p, author, keys[i], viewer);
        assert rs[i] in t.reposts.rows;
        var u := UserById(t.users, rs[i].userId).value;
        assert u in t.users && u.id == rs[i].userId;
      }
    }
  }

  /** The `first_repost` join is not limited to one row: a post with no
      repost has exactly one row, whose reposter columns are all null; a
      post with k reposts has k rows, the i-th carrying the i-th repost's id,
      user, time and the reposter's username. */
  lemma ViewRepostRows(t: Tables, viewer: int, p: Post)
    requires Wf(t) && p in t.posts
    ensures var rows := Filter(View(t, viewer), RowHasId(p.id));
      var rs := Filter(t.reposts.rows, OnPost(p.id));
      && (rs == [] ==>
            && |rows| == 1
            && rows[0].reposterId == None && rows[0].reposterUsername == None
            && rows[0].repostId == None && rows[0].repostCreatedAt == None)
      && (rs != [] ==>
            && |rows| == |rs|
            && forall i | 0 <= i < |rs| ::
                 && rows[i].repostId == Some(rs[i].id)
                 && rows[i].reposterId == Some(rs[i].userId)
                 && rows[i].repostCreatedAt == Some(rs[i].createdAt)
                 && exists u | u in t.users :: u.id == rs[i].userId && rows[i].reposterUsername == Some(u.username))
  {
    ViewOfRowsOf(t, t.posts, viewer, p);
    assert UserById(t.users, p.authorId).Some?;
    RowsForPostReposts(t, viewer, p);
  }
}
