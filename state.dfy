/**
 * The consistency conditions the engine's tables keep between calls, stated
 * on plain values, with one small lemma per kind of table update showing
 * the update keeps them; and the vote ledger's balance, which `VotePost`
 * keeps.
 */
module EngineState {
  import opened Forum
  import opened Ledger

  /** Every subreddit lists only handles of posts in an arena of `arenaSize` posts. */
  ghost predicate SubredditsClosed(subs: map<string, Subreddit>, arenaSize: int) {
    forall n | n in subs :: Between(subs[n].posts, -1, arenaSize)
  }

  /** Every indexed post id lies between 0 and `top`. */
  ghost predicate IdsUpTo(posts: map<int, Handle>, top: int) {
    forall id | id in posts :: 0 <= id <= top
  }

  /** Each indexed post id names a post in `pa` carrying that id, so distinct ids name distinct posts. */
  ghost predicate Indexed(pa: seq<Post>, posts: map<int, Handle>) {
    forall id | id in posts :: posts[id] < |pa| && pa[posts[id]].id == id
  }

  /** The post tables are consistent: arenas and lists closed, ids bounded by `top`, the index exact. */
  ghost predicate PostsConsistent(pa: seq<Post>, ca: seq<Comment>, subs: map<string, Subreddit>, ps: map<int, Handle>, top: int) {
    ArenasClosed(pa, ca) && SubredditsClosed(subs, |pa|) && IdsUpTo(ps, top) && Indexed(pa, ps)
  }

  /**
   * The comment index is a bijection between the ids 1..`top` and the
   * comment arena: the comment created n-th sits in slot n - 1 and carries
   * id n, and every id up to `top` is indexed. Comment votes are never
   * changed from 0.
   */
  ghost predicate CommentsIndexed(ca: seq<Comment>, comments: map<int, Handle>, top: int) {
    && |ca| == top
    && (forall id :: id in comments <==> 1 <= id <= top)
    && (forall id | id in comments :: comments[id] == id - 1)
    && (forall h | 0 <= h < |ca| :: ca[h].id == h + 1 && ca[h].votes == 0)
  }

  /** Where a comment hangs: in the top-level list of a post, or among the replies of a comment. */
  datatype Parent = OnPost(post: Handle) | UnderComment(comment: Handle)

  /** Comment `c` occurs in the list of `parent`, which is a post or an earlier comment. */
  ghost predicate HangsUnder(pa: seq<Post>, ca: seq<Comment>, c: Handle, parent: Parent) {
    match parent
    case OnPost(p) => p < |pa| && c in pa[p].comments
    case UnderComment(q) => q < c && q < |ca| && c in ca[q].replies
  }

  /**
   * `owner` gives every comment of the arena its parent. The comment occurs
   * in its parent's list, and that parent is a post or an earlier comment.
   * Every handle in a post's or a comment's list names a comment whose
   * parent is that post or comment. No list holds a handle twice.
   */
  ghost predicate OwnedBy(pa: seq<Post>, ca: seq<Comment>, owner: seq<Parent>) {
    && |owner| == |ca|
    && (forall c | 0 <= c < |ca| :: HangsUnder(pa, ca, c, owner[c]))
    && (forall p, i | 0 <= p < |pa| && 0 <= i < |pa[p].comments| ::
          pa[p].comments[i] < |ca| && owner[pa[p].comments[i]] == OnPost(p))
    && (forall q, i | 0 <= q < |ca| && 0 <= i < |ca[q].replies| ::
          ca[q].replies[i] < |ca| && owner[ca[q].replies[i]] == UnderComment(q))
    && (forall p | 0 <= p < |pa| :: Increasing(pa[p].comments))
    && (forall q | 0 <= q < |ca| :: Increasing(ca[q].replies))
  }

  /** Every comment occurs exactly once in exactly one list: a post's comments or a comment's replies. */
  ghost predicate CommentsOwned(pa: seq<Post>, ca: seq<Comment>) {
    exists owner :: OwnedBy(pa, ca, owner)
  }

  /**
   * `path` leads from post `p` down the comment tree: its first handle is a
   * top-level comment of `p`, and each later one is a reply of the one
   * before it.
   */
  ghost predicate PathFrom(pa: seq<Post>, ca: seq<Comment>, p: Handle, path: seq<Handle>) {
    && p < |pa| && |path| >= 1 && path[0] in pa[p].comments
    && (forall k | 0 <= k < |path| :: path[k] < |ca|)
    && (forall k | 1 <= k < |path| :: path[k] in ca[path[k - 1]].replies)
  }

  /** The comment `c` can be reached from some post by following comment lists. */
  ghost predicate Reachable(pa: seq<Post>, ca: seq<Comment>, c: Handle) {
    exists p, path :: PathFrom(pa, ca, p, path) && path[|path| - 1] == c
  }

  // ---------------------------------------------------------------------
  // Posts

  lemma SubredditsWiden(subs: map<string, Subreddit>, n: int, m: int)
    requires SubredditsClosed(subs, n) && n <= m
    ensures SubredditsClosed(subs, m)
  {
  }

  /** Appending an existing post to one subreddit's list, or creating that subreddit, keeps the lists closed. */
  lemma SubredditAppend(subs: map<string, Subreddit>, n: int, name: string, s: Subreddit, h: Handle)
    requires SubredditsClosed(subs, n) && Between(s.posts, -1, n) && h < n
    ensures SubredditsClosed(subs[name := s.(posts := s.posts + [h])], n)
  {
    var subs' := subs[name := s.(posts := s.posts + [h])];
    forall x | x in subs' ensures Between(subs'[x].posts, -1, n) {
      if x == name {
        assert forall k | 0 <= k < |s.posts| :: (s.posts + [h])[k] == s.posts[k];
      }
    }
  }

  /** A new post without comments keeps the arenas closed. */
  lemma PostArenaGrows(pa: seq<Post>, ca: seq<Comment>, p: Post)
    requires ArenasClosed(pa, ca) && p.comments == []
    ensures ArenasClosed(pa + [p], ca)
  {
    var pa' := pa + [p];
    forall h | 0 <= h < |pa'| ensures Between(pa'[h].comments, -1, |ca|) {
      if h < |pa| {
        assert pa'[h] == pa[h];
      }
    }
  }

  /** Indexing a new post (at the end of the arena) under its id keeps the index exact; the id may replace an old entry. */
  lemma IndexPost(pa: seq<Post>, posts: map<int, Handle>, p: Post)
    requires Indexed(pa, posts)
    ensures Indexed(pa + [p], posts[p.id := |pa|])
  {
    var pa', posts' := pa + [p], posts[p.id := |pa|];
    forall id | id in posts' ensures posts'[id] < |pa'| && pa'[posts'[id]].id == id {
      if id != p.id {
        assert pa'[posts[id]] == pa[posts[id]];
      }
    }
  }

  /** Changing a post's vote counter touches neither its id nor its comments. */
  lemma RecountKeeps(pa: seq<Post>, ca: seq<Comment>, posts: map<int, Handle>, h: Handle, votes: int)
    requires ArenasClosed(pa, ca) && Indexed(pa, posts) && h < |pa|
    ensures ArenasClosed(pa[h := pa[h].(votes := votes)], ca)
    ensures Indexed(pa[h := pa[h].(votes := votes)], posts)
  {
    var pa' := pa[h := pa[h].(votes := votes)];
    forall k | 0 <= k < |pa'| ensures pa'[k].id == pa[k].id && pa'[k].comments == pa[k].comments {
    }
  }

  /**
   * Appending a new post without comments to the arena, to the list of the
   * subreddit `name` and to the id index keeps the post-side invariants,
   * with the id bound raised to `top'`.
   */
  lemma PostAdded(pa: seq<Post>, ca: seq<Comment>, subs: map<string, Subreddit>, posts: map<int, Handle>,
                  top: int, top': int, name: string, p: Post)
    requires ArenasClosed(pa, ca) && SubredditsClosed(subs, |pa|) && IdsUpTo(posts, top) && Indexed(pa, posts)
    requires name in subs && p.comments == [] && top <= top' && 0 <= p.id <= top'
    ensures ArenasClosed(pa + [p], ca)
    ensures SubredditsClosed(subs[name := subs[name].(posts := subs[name].posts + [|pa|])], |pa| + 1)
    ensures IdsUpTo(posts[p.id := |pa|], top')
    ensures Indexed(pa + [p], posts[p.id := |pa|])
  {
    PostArenaGrows(pa, ca, p);
    IndexPost(pa, posts, p);
    SubredditsWiden(subs, |pa|, |pa| + 1);
    SubredditAppend(subs, |pa| + 1, name, subs[name], |pa|);
  }

  /** Changing only a subreddit's members keeps its post list closed. */
  lemma MembersOnly(subs: map<string, Subreddit>, n: int, name: string, members: set<string>)
    requires SubredditsClosed(subs, n) && name in subs
    ensures SubredditsClosed(subs[name := subs[name].(members := members)], n)
  {
    var subs' := subs[name := subs[name].(members := members)];
    forall x | x in subs' ensures Between(subs'[x].posts, -1, n) {
      assert subs'[x].posts == subs[x].posts;
    }
  }

  // ---------------------------------------------------------------------
  // Comments

  /** A new comment (handle `c`, the end of the arena) attached to post `p` keeps the arenas closed. */
  lemma CommentOnPost(pa: seq<Post>, ca: seq<Comment>, p: Handle, c: Comment)
    requires ArenasClosed(pa, ca) && p < |pa| && c.replies == []
    ensures ArenasClosed(pa[p := pa[p].(comments := pa[p].comments + [|ca|])], ca + [c])
  {
    var pa', ca' := pa[p := pa[p].(comments := pa[p].comments + [|ca|])], ca + [c];
    forall k | 0 <= k < |ca'| ensures Between(ca'[k].replies, k, |ca'|) {
      if k < |ca| {
        assert ca'[k] == ca[k];
      }
    }
    forall k | 0 <= k < |pa'| ensures Between(pa'[k].comments, -1, |ca'|) {
      assert Between(pa[k].comments, -1, |ca|);
    }
  }

  /** A new reply (handle `|ca|`) attached to the comment `parent` keeps the arenas closed and the replies forward. */
  lemma ReplyUnder(pa: seq<Post>, ca: seq<Comment>, parent: Handle, c: Comment)
    requires ArenasClosed(pa, ca) && parent < |ca| && c.replies == []
    ensures ArenasClosed(pa, ca[parent := ca[parent].(replies := ca[parent].replies + [|ca|])] + [c])
  {
    var ca' := ca[parent := ca[parent].(replies := ca[parent].replies + [|ca|])] + [c];
    forall k | 0 <= k < |ca'| ensures Between(ca'[k].replies, k, |ca'|) {
      if k < |ca| {
        assert Between(ca[k].replies, k, |ca|);
      }
    }
    forall k | 0 <= k < |pa| ensures Between(pa[k].comments, -1, |ca'|) {
      assert Between(pa[k].comments, -1, |ca|);
    }
  }

  /**
   * The comment index stays a bijection when one comment is appended under
   * the next id, whatever else changes in the existing comments besides
   * their ids and votes.
   */
  lemma CommentAppended(ca: seq<Comment>, comments: map<int, Handle>, top: int, ca': seq<Comment>)
    requires CommentsIndexed(ca, comments, top)
    requires |ca'| == |ca| + 1 && ca'[|ca|].id == top + 1 && ca'[|ca|].votes == 0
    requires forall k | 0 <= k < |ca| :: ca'[k].id == ca[k].id && ca'[k].votes == ca[k].votes
    ensures CommentsIndexed(ca', comments[top + 1 := |ca|], top + 1)
  {
    forall h | 0 <= h < |ca'| ensures ca'[h].id == h + 1 && ca'[h].votes == 0 {
      if h < |ca| {
        assert ca[h].id == h + 1;
      }
    }
  }

  /** Posts whose comment lists stay as they were, and new posts without comments, keep every comment owned. */
  lemma OwnedPosts(pa: seq<Post>, pa': seq<Post>, ca: seq<Comment>)
    requires CommentsOwned(pa, ca) && |pa| <= |pa'|
    requires forall p | 0 <= p < |pa| :: pa'[p].comments == pa[p].comments
    requires forall p | |pa| <= p < |pa'| :: pa'[p].comments == []
    ensures CommentsOwned(pa', ca)
  {
    var owner :| OwnedBy(pa, ca, owner);
    forall c | 0 <= c < |ca| ensures HangsUnder(pa', ca, c, owner[c]) {
      assert HangsUnder(pa, ca, c, owner[c]);
    }
    forall p | 0 <= p < |pa'| ensures Increasing(pa'[p].comments) {
      if p < |pa| {
        assert Increasing(pa[p].comments);
      }
    }
    assert OwnedBy(pa', ca, owner);
  }

  /** A new comment appended to the arena and to the end of post `p`'s list is owned by `p`. */
  lemma OwnedComment(pa: seq<Post>, ca: seq<Comment>, p: Handle, c: Comment)
    requires ArenasClosed(pa, ca) && CommentsOwned(pa, ca) && p < |pa| && c.replies == []
    ensures CommentsOwned(pa[p := pa[p].(comments := pa[p].comments + [|ca|])], ca + [c])
  {
    var owner :| OwnedBy(pa, ca, owner);
    var pa', ca', owner' := pa[p := pa[p].(comments := pa[p].comments + [|ca|])], ca + [c], owner + [OnPost(p)];
    CommentHangs(pa, ca, owner, p, c, pa', ca', owner');
    CommentListed(pa, ca, owner, p, c, pa', ca', owner');
    assert OwnedBy(pa', ca', owner');
  }

  /** After a comment is added to post `p`, every comment still hangs under the parent `owner'` names. */
  lemma CommentHangs(pa: seq<Post>, ca: seq<Comment>, owner: seq<Parent>, p: Handle, c: Comment,
                     pa': seq<Post>, ca': seq<Comment>, owner': seq<Parent>)
    requires OwnedBy(pa, ca, owner) && p < |pa|
    requires pa' == pa[p := pa[p].(comments := pa[p].comments + [|ca|])] && ca' == ca + [c] && owner' == owner + [OnPost(p)]
    ensures |owner'| == |ca'| && forall x | 0 <= x < |ca'| :: HangsUnder(pa', ca', x, owner'[x])
  {
    forall x | 0 <= x < |ca'| ensures HangsUnder(pa', ca', x, owner'[x]) {
      if x < |ca| {
        assert HangsUnder(pa, ca, x, owner[x]);
        assert owner'[x] == owner[x] && ca'[x] == ca[x];
        if owner[x].UnderComment? {
          assert ca'[owner[x].comment] == ca[owner[x].comment];
        }
      } else {
        assert pa'[p].comments[|pa[p].comments|] == x;
      }
    }
  }

  /** After a comment is added to post `p`, every list names its members' owner and stays increasing. */
  lemma CommentListed(pa: seq<Post>, ca: seq<Comment>, owner: seq<Parent>, p: Handle, c: Comment,
                      pa': seq<Post>, ca': seq<Comment>, owner': seq<Parent>)
    requires ArenasClosed(pa, ca) && OwnedBy(pa, ca, owner) && p < |pa| && c.replies == []
    requires pa' == pa[p := pa[p].(comments := pa[p].comments + [|ca|])] && ca' == ca + [c] && owner' == owner + [OnPost(p)]
    ensures forall y, i | 0 <= y < |pa'| && 0 <= i < |pa'[y].comments| ::
      pa'[y].comments[i] < |ca'| && owner'[pa'[y].comments[i]] == OnPost(y)
    ensures forall q, i | 0 <= q < |ca'| && 0 <= i < |ca'[q].replies| ::
      ca'[q].replies[i] < |ca'| && owner'[ca'[q].replies[i]] == UnderComment(q)
    ensures forall y | 0 <= y < |pa'| :: Increasing(pa'[y].comments)
    ensures forall q | 0 <= q < |ca'| :: Increasing(ca'[q].replies)
  {
    forall y, i | 0 <= y < |pa'| && 0 <= i < |pa'[y].comments|
      ensures pa'[y].comments[i] < |ca'| && owner'[pa'[y].comments[i]] == OnPost(y)
    {
      if y != p || i < |pa[p].comments| {
        assert pa'[y].comments[i] == pa[y].comments[i];
      }
    }
    forall q, i | 0 <= q < |ca'| && 0 <= i < |ca'[q].replies|
      ensures ca'[q].replies[i] < |ca'| && owner'[ca'[q].replies[i]] == UnderComment(q)
    {
      assert ca'[q] == ca[q];
    }
    forall y | 0 <= y < |pa'| ensures Increasing(pa'[y].comments) {
      assert Increasing(pa[y].comments) && Between(pa[y].comments, -1, |ca|);
    }
    forall q | 0 <= q < |ca'| ensures Increasing(ca'[q].replies) {
      if q < |ca| {
        assert ca'[q] == ca[q];
      }
    }
  }

  /** A new reply appended to the arena and to the end of comment `parent`'s replies is owned by `parent`. */
  lemma OwnedReply(pa: seq<Post>, ca: seq<Comment>, parent: Handle, c: Comment)
    requires ArenasClosed(pa, ca) && CommentsOwned(pa, ca) && parent < |ca| && c.replies == []
    ensures CommentsOwned(pa, ca[parent := ca[parent].(replies := ca[parent].replies + [|ca|])] + [c])
  {
    var owner :| OwnedBy(pa, ca, owner);
    var ca', owner' := ca[parent := ca[parent].(replies := ca[parent].replies + [|ca|])] + [c], owner + [UnderComment(parent)];
    ReplyHangs(pa, ca, owner, parent, c, ca', owner');
    ReplyListed(pa, ca, owner, parent, c, ca', owner');
    assert OwnedBy(pa, ca', owner');
  }

  /** After a reply is added under comment `parent`, every comment still hangs under the parent `owner'` names. */
  lemma ReplyHangs(pa: seq<Post>, ca: seq<Comment>, owner: seq<Parent>, parent: Handle, c: Comment,
                   ca': seq<Comment>, owner': seq<Parent>)
    requires OwnedBy(pa, ca, owner) && parent < |ca|
    requires ca' == ca[parent := ca[parent].(replies := ca[parent].replies + [|ca|])] + [c]
    requires owner' == owner + [UnderComment(parent)]
    ensures |owner'| == |ca'| && forall x | 0 <= x < |ca'| :: HangsUnder(pa, ca', x, owner'[x])
  {
    forall x | 0 <= x < |ca'| ensures HangsUnder(pa, ca', x, owner'[x]) {
      if x < |ca| {
        assert HangsUnder(pa, ca, x, owner[x]);
        assert owner'[x] == owner[x];
        if owner[x].UnderComment? {
          var q := owner[x].comment;
          assert x in ca[q].replies;
          assert forall i | 0 <= i < |ca[q].replies| :: ca'[q].replies[i] == ca[q].replies[i];
        }
      } else {
        assert ca'[parent].replies[|ca[parent].replies|] == x;
      }
    }
  }

  /** After a reply is added under comment `parent`, every list names its members' owner and stays increasing. */
  lemma ReplyListed(pa: seq<Post>, ca: seq<Comment>, owner: seq<Parent>, parent: Handle, c: Comment,
                    ca': seq<Comment>, owner': seq<Parent>)
    requires ArenasClosed(pa, ca) && OwnedBy(pa, ca, owner) && parent < |ca| && c.replies == []
    requires ca' == ca[parent := ca[parent].(replies := ca[parent].replies + [|ca|])] + [c]
    requires owner' == owner + [UnderComment(parent)]
    ensures forall y, i | 0 <= y < |pa| && 0 <= i < |pa[y].comments| ::
      pa[y].comments[i] < |ca'| && owner'[pa[y].comments[i]] == OnPost(y)
    ensures forall q, i | 0 <= q < |ca'| && 0 <= i < |ca'[q].replies| ::
      ca'[q].replies[i] < |ca'| && owner'[ca'[q].replies[i]] == UnderComment(q)
    ensures forall y | 0 <= y < |pa| :: Increasing(pa[y].comments)
    ensures forall q | 0 <= q < |ca'| :: Increasing(ca'[q].replies)
  {
    forall y, i | 0 <= y < |pa| && 0 <= i < |pa[y].comments|
      ensures pa[y].comments[i] < |ca'| && owner'[pa[y].comments[i]] == OnPost(y)
    {
      assert owner'[pa[y].comments[i]] == owner[pa[y].comments[i]];
    }
    RepliesOwned(pa, ca, owner, parent, c, ca', owner');
    RepliesIncreasing(pa, ca, owner, parent, c, ca');
  }

  /** After a reply is added under comment `parent`, every reply list names its members' owner. */
  lemma RepliesOwned(pa: seq<Post>, ca: seq<Comment>, owner: seq<Parent>, parent: Handle, c: Comment,
                     ca': seq<Comment>, owner': seq<Parent>)
    requires OwnedBy(pa, ca, owner) && parent < |ca| && c.replies == []
    requires ca' == ca[parent := ca[parent].(replies := ca[parent].replies + [|ca|])] + [c]
    requires owner' == owner + [UnderComment(parent)]
    ensures forall q, i | 0 <= q < |ca'| && 0 <= i < |ca'[q].replies| ::
      ca'[q].replies[i] < |ca'| && owner'[ca'[q].replies[i]] == UnderComment(q)
  {
    forall q, i | 0 <= q < |ca'| && 0 <= i < |ca'[q].replies|
      ensures ca'[q].replies[i] < |ca'| && owner'[ca'[q].replies[i]] == UnderComment(q)
    {
      if q != parent || i < |ca[parent].replies| {
        assert ca'[q].replies[i] == ca[q].replies[i];
        assert owner'[ca[q].replies[i]] == owner[ca[q].replies[i]];
      }
    }
  }

  /** After a reply is added under comment `parent`, every reply list is still increasing. */
  lemma RepliesIncreasing(pa: seq<Post>, ca: seq<Comment>, owner: seq<Parent>, parent: Handle, c: Comment,
                          ca': seq<Comment>)
    requires ArenasClosed(pa, ca) && OwnedBy(pa, ca, owner) && parent < |ca| && c.replies == []
    requires ca' == ca[parent := ca[parent].(replies := ca[parent].replies + [|ca|])] + [c]
    ensures forall q | 0 <= q < |ca'| :: Increasing(ca'[q].replies)
  {
    forall q | 0 <= q < |ca'| ensures Increasing(ca'[q].replies) {
      if q < |ca| {
        assert Increasing(ca[q].replies) && Between(ca[q].replies, q, |ca|);
      }
    }
  }

  /**
   * Every comment hangs under exactly one parent: it occurs in the lists of
   * no two posts, of no two comments, and of no post and comment at once.
   * (Within one list it occurs at most once, since lists are `Increasing`.)
   */
  lemma OneParent(pa: seq<Post>, ca: seq<Comment>, c: Handle)
    requires CommentsOwned(pa, ca)
    ensures forall p1, p2 | 0 <= p1 < |pa| && 0 <= p2 < |pa| && c in pa[p1].comments && c in pa[p2].comments :: p1 == p2
    ensures forall q1, q2 | 0 <= q1 < |ca| && 0 <= q2 < |ca| && c in ca[q1].replies && c in ca[q2].replies :: q1 == q2
    ensures forall p, q | 0 <= p < |pa| && 0 <= q < |ca| :: !(c in pa[p].comments && c in ca[q].replies)
  {
    var owner :| OwnedBy(pa, ca, owner);
    forall p1, p2 | 0 <= p1 < |pa| && 0 <= p2 < |pa| && c in pa[p1].comments && c in pa[p2].comments
      ensures p1 == p2
    {
      var i1, i2 :| 0 <= i1 < |pa[p1].comments| && pa[p1].comments[i1] == c && 0 <= i2 < |pa[p2].comments| && pa[p2].comments[i2] == c;
      assert owner[c] == OnPost(p1) && owner[c] == OnPost(p2);
    }
    forall q1, q2 | 0 <= q1 < |ca| && 0 <= q2 < |ca| && c in ca[q1].replies && c in ca[q2].replies
      ensures q1 == q2
    {
      var i1, i2 :| 0 <= i1 < |ca[q1].replies| && ca[q1].replies[i1] == c && 0 <= i2 < |ca[q2].replies| && ca[q2].replies[i2] == c;
      assert owner[c] == UnderComment(q1) && owner[c] == UnderComment(q2);
    }
    forall p, q | 0 <= p < |pa| && 0 <= q < |ca| && c in pa[p].comments ensures c !in ca[q].replies {
      var i :| 0 <= i < |pa[p].comments| && pa[p].comments[i] == c;
      assert owner[c] == OnPost(p);
    }
  }

  /** Every comment of the arena is reached from some post through its chain of parents. */
  lemma {:induction false} CommentReachable(pa: seq<Post>, ca: seq<Comment>, c: Handle)
    requires CommentsOwned(pa, ca) && c < |ca|
    ensures Reachable(pa, ca, c)
    decreases c
  {
    var owner :| OwnedBy(pa, ca, owner);
    assert HangsUnder(pa, ca, c, owner[c]);
    match owner[c]
    case OnPost(p) =>
      assert PathFrom(pa, ca, p, [c]);
    case UnderComment(q) =>
      CommentReachable(pa, ca, q);
      var p, path :| PathFrom(pa, ca, p, path) && path[|path| - 1] == q;
      var path' := path + [c];
      assert forall k | 0 <= k < |path| :: path'[k] == path[k];
      assert PathFrom(pa, ca, p, path');
  }

  /**
   * The comment index and the comment trees hold the same comments: every
   * indexed comment is reached from some post, and every comment on a path
   * from a post is indexed under its own id.
   */
  lemma TreeIntegrity(pa: seq<Post>, ca: seq<Comment>, comments: map<int, Handle>, top: int)
    requires CommentsOwned(pa, ca) && CommentsIndexed(ca, comments, top)
    ensures forall id | id in comments :: comments[id] < |ca| && Reachable(pa, ca, comments[id])
    ensures forall p, path | PathFrom(pa, ca, p, path) ::
      ca[path[|path| - 1]].id in comments && comments[ca[path[|path| - 1]].id] == path[|path| - 1]
  {
    forall id | id in comments ensures comments[id] < |ca| && Reachable(pa, ca, comments[id]) {
      CommentReachable(pa, ca, comments[id]);
    }
  }

  // ---------------------------------------------------------------------
  // The whole engine state

  /**
   * The engine's invariant on its tables: both counters are non-negative,
   * the post tables and the comment index are consistent, and every comment
   * hangs in exactly one list.
   */
  ghost predicate Consistent(pa: seq<Post>, ca: seq<Comment>, subs: map<string, Subreddit>, posts: map<int, Handle>,
                             comments: map<int, Handle>, postTop: int, commentTop: int)
  {
    && 0 <= postTop && 0 <= commentTop
    && PostsConsistent(pa, ca, subs, posts, postTop)
    && CommentsIndexed(ca, comments, commentTop)
    && CommentsOwned(pa, ca)
  }

  /** Changing what posts hold, but not their number, ids or comment lists, keeps the post tables consistent. */
  lemma PostsReshaped(pa: seq<Post>, pa': seq<Post>, ca: seq<Comment>, ca': seq<Comment>, subs: map<string, Subreddit>,
                      posts: map<int, Handle>, top: int)
    requires PostsConsistent(pa, ca, subs, posts, top) && ArenasClosed(pa', ca') && |pa'| == |pa|
    requires forall k | 0 <= k < |pa| :: pa'[k].id == pa[k].id
    ensures PostsConsistent(pa', ca', subs, posts, top)
  {
  }

  /**
   * A new comment under id `commentTop + 1`, appended to the arena and to
   * the end of post `p`'s list, keeps the invariant; the id was not in use
   * and the comment is reached from post `p`.
   */
  lemma CommentAdded(pa: seq<Post>, ca: seq<Comment>, subs: map<string, Subreddit>, posts: map<int, Handle>,
                     comments: map<int, Handle>, postTop: int, commentTop: int, p: Handle, c: Comment)
    requires Consistent(pa, ca, subs, posts, comments, postTop, commentTop) && p < |pa|
    requires c.id == commentTop + 1 && c.votes == 0 && c.replies == []
    ensures commentTop + 1 !in comments
    ensures var pa' := pa[p := pa[p].(comments := pa[p].comments + [|ca|])];
      && Consistent(pa', ca + [c], subs, posts, comments[commentTop + 1 := |ca|], postTop, commentTop + 1)
      && Reachable(pa', ca + [c], |ca|)
  {
    var pa' := pa[p := pa[p].(comments := pa[p].comments + [|ca|])];
    CommentOnPost(pa, ca, p, c);
    PostsReshaped(pa, pa', ca, ca + [c], subs, posts, postTop);
    OwnedComment(pa, ca, p, c);
    CommentReachable(pa', ca + [c], |ca|);
    CommentAppended(ca, comments, commentTop, ca + [c]);
  }

  /**
   * A new reply under id `commentTop + 1`, appended to the arena and to the
   * end of comment `parent`'s replies, keeps the invariant; the id was not
   * in use and the reply is reached from a post.
   */
  lemma ReplyAdded(pa: seq<Post>, ca: seq<Comment>, subs: map<string, Subreddit>, posts: map<int, Handle>,
                   comments: map<int, Handle>, postTop: int, commentTop: int, parent: Handle, c: Comment)
    requires Consistent(pa, ca, subs, posts, comments, postTop, commentTop) && parent < |ca|
    requires c.id == commentTop + 1 && c.votes == 0 && c.replies == []
    ensures commentTop + 1 !in comments
    ensures var ca' := ca[parent := ca[parent].(replies := ca[parent].replies + [|ca|])] + [c];
      && Consistent(pa, ca', subs, posts, comments[commentTop + 1 := |ca|], postTop, commentTop + 1)
      && Reachable(pa, ca', |ca|)
  {
    var ca' := ca[parent := ca[parent].(replies := ca[parent].replies + [|ca|])] + [c];
    ReplyUnder(pa, ca, parent, c);
    PostsReshaped(pa, pa, ca, ca', subs, posts, postTop);
    OwnedReply(pa, ca, parent, c);
    CommentReachable(pa, ca', |ca|);
    forall k | 0 <= k < |ca| ensures ca'[k].id == ca[k].id && ca'[k].votes == ca[k].votes {
    }
    CommentAppended(ca, comments, commentTop, ca');
  }

  /**
   * A new post under id `postTop + 1`, without comments, appended to the
   * arena, to the list of subreddit `name` and to the index, keeps the
   * invariant; the id was not in use.
   */
  lemma PostCreated(pa: seq<Post>, ca: seq<Comment>, subs: map<string, Subreddit>, posts: map<int, Handle>,
                    comments: map<int, Handle>, postTop: int, commentTop: int, name: string, p: Post)
    requires Consistent(pa, ca, subs, posts, comments, postTop, commentTop) && name in subs
    requires p.id == postTop + 1 && p.comments == []
    ensures postTop + 1 !in posts
    ensures Consistent(pa + [p], ca, subs[name := subs[name].(posts := subs[name].posts + [|pa|])],
                       posts[postTop + 1 := |pa|], comments, postTop + 1, commentTop)
  {
    PostAdded(pa, ca, subs, posts, postTop, postTop + 1, name, p);
    OwnedPosts(pa, pa + [p], ca);
  }

  /** Setting the vote count of the post in slot `h` keeps the invariant. */
  lemma VotesRecounted(pa: seq<Post>, ca: seq<Comment>, subs: map<string, Subreddit>, posts: map<int, Handle>,
                       comments: map<int, Handle>, postTop: int, commentTop: int, h: Handle, votes: int)
    requires Consistent(pa, ca, subs, posts, comments, postTop, commentTop) && h < |pa|
    ensures Consistent(pa[h := pa[h].(votes := votes)], ca, subs, posts, comments, postTop, commentTop)
  {
    RecountKeeps(pa, ca, posts, h, votes);
    OwnedPosts(pa, pa[h := pa[h].(votes := votes)], ca);
  }

  // ---------------------------------------------------------------------
  // The vote ledger

  /** The author of every indexed post. */
  ghost function OwnersOf(pa: seq<Post>, posts: map<int, Handle>): map<int, string> {
    map id | id in posts && posts[id] < |pa| :: pa[posts[id]].author
  }

  /** A post's vote counter net of the votes the ledger records for it. */
  ghost function PostBalance(pa: seq<Post>, posts: map<int, Handle>, ledger: VoteLedger, id: int): int
    requires id in posts && posts[id] < |pa|
  {
    pa[posts[id]].votes - Tally(ledger, id)
  }

  /** A user's karma net of the votes the ledger records for that user's posts. */
  ghost function KarmaBalance(users: map<string, User>, pa: seq<Post>, posts: map<int, Handle>, ledger: VoteLedger, a: string): int
    requires a in users
  {
    users[a].karma - AuthorTally(ledger, OwnersOf(pa, posts), a)
  }

  /**
   * Going from (pa, users, ledger) to (pa', users', ledger') leaves every
   * post's and every user's balance as it was: counters and karma moved by
   * exactly what the ledger moved.
   */
  ghost predicate BalancesKept(pa: seq<Post>, users: map<string, User>, posts: map<int, Handle>, ledger: VoteLedger,
                               pa': seq<Post>, users': map<string, User>, ledger': VoteLedger)
  {
    && (forall id {:trigger PostBalance(pa', posts, ledger', id)} | id in posts && posts[id] < |pa| && posts[id] < |pa'| ::
          PostBalance(pa', posts, ledger', id) == PostBalance(pa, posts, ledger, id))
    && (forall a {:trigger KarmaBalance(users', pa', posts, ledger', a)} | a in users && a in users' ::
          KarmaBalance(users', pa', posts, ledger', a) == KarmaBalance(users, pa, posts, ledger, a))
  }

  /**
   * A vote moves the post's counter and its author's karma by the vote
   * minus the voter's previous vote on that post, and records the vote in
   * the ledger: every balance is kept.
   */
  lemma VoteKeepsBalances(pa: seq<Post>, users: map<string, User>, posts: map<int, Handle>, ledger: VoteLedger,
                          user: string, postId: int, vote: int,
                          pa': seq<Post>, users': map<string, User>, ledger': VoteLedger)
    requires Indexed(pa, posts) && postId in posts && pa[posts[postId]].author in users
    requires ledger' == Recast(ledger, user, postId, vote)
    requires var h, delta := posts[postId], vote - PreviousVote(ledger, user, postId);
      && pa' == pa[h := pa[h].(votes := pa[h].votes + delta)]
      && users' == users[pa[h].author := users[pa[h].author].(karma := users[pa[h].author].karma + delta)]
    ensures BalancesKept(pa, users, posts, ledger, pa', users', ledger')
  {
    assert OwnersOf(pa', posts) == OwnersOf(pa, posts);
    forall id | id in posts && posts[id] < |pa| && posts[id] < |pa'|
      ensures PostBalance(pa', posts, ledger', id) == PostBalance(pa, posts, ledger, id)
    {
      RecastTally(ledger, user, postId, vote, id);
    }
    forall a | a in users && a in users'
      ensures KarmaBalance(users', pa', posts, ledger', a) == KarmaBalance(users, pa, posts, ledger, a)
    {
      RecastAuthorTally(ledger, OwnersOf(pa, posts), user, postId, vote, a);
    }
  }

  /** The tables a vote changes: the post arena, the users and the vote ledger. */
  datatype Ballots = Ballots(pa: seq<Post>, users: map<string, User>, ledger: VoteLedger)

  /**
   * `user` votes `vote` on post `postId`: the post's counter and its
   * author's karma move by the vote minus the user's previous vote on it,
   * and the ledger records the vote. A post id that is not indexed changes
   * nothing.
   */
  function CastVote(s: Ballots, posts: map<int, Handle>, user: string, postId: int, vote: int): (s': Ballots)
    requires postId in posts ==> posts[postId] < |s.pa| && s.pa[posts[postId]].author in s.users
    ensures |s'.pa| == |s.pa| && s'.users.Keys == s.users.Keys
    ensures forall k | 0 <= k < |s.pa| :: s'.pa[k].author == s.pa[k].author && s'.pa[k].id == s.pa[k].id
    ensures postId !in posts ==> s' == s
    ensures postId in posts ==> PreviousVote(s'.ledger, user, postId) == vote
  {
    if postId !in posts then s
    else
      var h, delta := posts[postId], vote - PreviousVote(s.ledger, user, postId);
      var author := s.pa[h].author;
      Ballots(s.pa[h := s.pa[h].(votes := s.pa[h].votes + delta)],
              s.users[author := s.users[author].(karma := s.users[author].karma + delta)],
              Recast(s.ledger, user, postId, vote))
  }

  /**
   * Voting again replaces the earlier vote: voting `v1` and then `v2` on
   * the same post leaves the counters, the karma and the ledger exactly as
   * voting `v2` alone would.
   */
  lemma RevoteReplaces(s: Ballots, posts: map<int, Handle>, user: string, postId: int, v1: int, v2: int)
    requires postId in posts ==> posts[postId] < |s.pa| && s.pa[posts[postId]].author in s.users
    ensures CastVote(CastVote(s, posts, user, postId, v1), posts, user, postId, v2) == CastVote(s, posts, user, postId, v2)
  {
    if postId in posts {
      RecastOverwrites(s.ledger, user, postId, v1, v2);
      var h, author := posts[postId], s.pa[posts[postId]].author;
      var s1 := CastVote(s, posts, user, postId, v1);
      var s2 := CastVote(s1, posts, user, postId, v2);
      var s3 := CastVote(s, posts, user, postId, v2);
      assert s2.pa == s3.pa;
      assert s2.users == s3.users;
    }
  }

  /**
   * A vote keeps the engine invariant (only a counter changes) and every
   * post's and user's balance against the ledger.
   */
  lemma VoteCast(s: Ballots, ca: seq<Comment>, subs: map<string, Subreddit>, posts: map<int, Handle>,
                 comments: map<int, Handle>, postTop: int, commentTop: int, user: string, postId: int, vote: int)
    requires Consistent(s.pa, ca, subs, posts, comments, postTop, commentTop)
    requires postId in posts ==> s.pa[posts[postId]].author in s.users
    ensures var s' := CastVote(s, posts, user, postId, vote);
      && Consistent(s'.pa, ca, subs, posts, comments, postTop, commentTop)
      && BalancesKept(s.pa, s.users, posts, s.ledger, s'.pa, s'.users, s'.ledger)
  {
    if postId in posts {
      var s' := CastVote(s, posts, user, postId, vote);
      var h := posts[postId];
      VotesRecounted(s.pa, ca, subs, posts, comments, postTop, commentTop, h, s'.pa[h].votes);
      assert s'.pa == s.pa[h := s.pa[h].(votes := s'.pa[h].votes)];
      VoteKeepsBalances(s.pa, s.users, posts, s.ledger, user, postId, vote, s'.pa, s'.users, s'.ledger);
    }
  }
}
