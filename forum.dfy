/**
 * The records the engine stores. Go shares each post and comment object
 * between a parent list and a global index by pointer; here posts and
 * comments live in two arenas (sequences of records) and every list holds
 * handles, which are indices into an arena.
 */
module Forum {

  /** An index into the post arena or the comment arena. */
  type Handle = nat

  datatype Message = Message(sender: string, content: string)

  /** A registered user. The map key is the user's name. */
  datatype User = User(password: string, karma: int, inbox: seq<Message>)

  /** A community. The map key is its name; the posts are handles in display order. */
  datatype Subreddit = Subreddit(members: set<string>, posts: seq<Handle>)

  /** A post; `comments` are the handles of its top-level comments in arrival order. */
  datatype Post = Post(id: int, author: string, content: string, votes: int, comments: seq<Handle>)

  /** A comment or reply; `replies` are the handles of its direct replies in arrival order. */
  datatype Comment = Comment(id: int, author: string, content: string, votes: int, replies: seq<Handle>)

  /**
   * Every reply was created after its parent, so its handle is larger. This
   * rules out cycles of replies and makes the rendering terminate; that
   * every comment has exactly one parent is `CommentsOwned`.
   */
  ghost predicate RepliesForward(ca: seq<Comment>) {
    forall h | 0 <= h < |ca| :: Between(ca[h].replies, h, |ca|)
  }

  /** Every handle in `hs` lies strictly between `lo` and `hi`. */
  ghost predicate Between(hs: seq<Handle>, lo: int, hi: int) {
    forall k | 0 <= k < |hs| :: lo < hs[k] < hi
  }

  /** The handles in `hs` are strictly increasing, so none occurs twice. */
  ghost predicate Increasing(hs: seq<Handle>) {
    forall i, j | 0 <= i < j < |hs| :: hs[i] < hs[j]
  }

  /** Both arenas are closed: every handle a record holds points into its arena. */
  ghost predicate ArenasClosed(pa: seq<Post>, ca: seq<Comment>) {
    && RepliesForward(ca)
    && (forall h | 0 <= h < |pa| :: Between(pa[h].comments, -1, |ca|))
  }
}
