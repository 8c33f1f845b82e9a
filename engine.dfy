/**
 * The in-memory forum engine: its tables and the operations that read and
 * update them. Each method is one atomic step (the Go engine holds one
 * mutex for the whole call) and returns the status string the Go method
 * returns.
 */
module ForumEngine {
  import opened Decimal
  import opened Sequences
  import opened Forum
  import opened Ledger
  import opened Feed
  import opened Inbox
  import opened Zipf
  import opened EngineState
  import opened Reposts
  import opened Workload

  class Engine {
    var users: map<string, User>
    var subreddits: map<string, Subreddit>
    /** Displayed post id -> handle of the post in `postArena`. */
    var posts: map<int, Handle>
    /** Displayed comment id -> handle of the comment in `commentArena`. */
    var comments: map<int, Handle>
    var voteHistory: VoteLedger
    var postID: int
    var commentID: int
    var disconnected: map<string, bool>
    /** Every post object ever created; a handle is an index here. */
    var postArena: seq<Post>
    /** Every comment object ever created; a handle is an index here. */
    var commentArena: seq<Comment>

    /**
     * The engine invariant: handles point into the arenas, replies come
     * after their parents, every indexed post id is at most `postID`, both
     * id indexes are exact, and every comment hangs in exactly one list,
     * so that the comments form one tree under each post.
     */
    ghost predicate Valid()
      reads this
    {
      Consistent(postArena, commentArena, subreddits, posts, comments, postID, commentID)
    }

    constructor ()
      ensures Valid()
      ensures users == map[] && subreddits == map[] && posts == map[] && comments == map[]
      ensures voteHistory == map[] && disconnected == map[] && postID == 0 && commentID == 0
      ensures postArena == [] && commentArena == []
    {
      users, subreddits, posts, comments := map[], map[], map[], map[];
      voteHistory, disconnected := map[], map[];
      postID, commentID := 0, 0;
      postArena, commentArena := [], [];
      assert OwnedBy([], [], []);
    }

    method RegisterUser(username: string, password: string) returns (r: string)
      requires Valid()
      modifies this`users
      ensures Valid()
      ensures username in old(users) ==> r == "Username already exists." && users == old(users)
      ensures username !in old(users) ==>
        r == "User registered successfully." && users == old(users)[username := User(password, 0, [])]
    {
      if username in users {
        return "Username already exists.";
      }
      users := users[username := User(password, 0, [])];
      r := "User registered successfully.";
    }

    method CreateSubreddit(name: string, creator: string) returns (r: string)
      requires Valid()
      modifies this`subreddits
      ensures Valid()
      ensures name in old(subreddits) ==> r == "Subreddit already exists." && subreddits == old(subreddits)
      ensures name !in old(subreddits) ==>
        r == "Subreddit created successfully." && subreddits == old(subreddits)[name := Subreddit({creator}, [])]
    {
      if name in subreddits {
        return "Subreddit already exists.";
      }
      subreddits := subreddits[name := Subreddit({creator}, [])];
      r := "Subreddit created successfully.";
    }

    method CreatePost(subreddit: string, author: string, content: string) returns (r: string)
      requires Valid()
      modifies this`postID, this`postArena, this`subreddits, this`posts
      ensures Valid()
      ensures subreddit !in old(subreddits) ==>
        && r == "Subreddit does not exist."
        && postID == old(postID) && postArena == old(postArena)
        && subreddits == old(subreddits) && posts == old(posts)
      ensures subreddit in old(subreddits) ==>
        var h, s := |old(postArena)|, old(subreddits)[subreddit];
        && postID == old(postID) + 1
        && postID !in old(posts)
        && postArena == old(postArena) + [Post(postID, author, content, 0, [])]
        && subreddits == old(subreddits)[subreddit := s.(posts := s.posts + [h])]
        && posts == old(posts)[postID := h]
        && r == "Post created successfully with ID " + IntToDecimal(postID) + "."
    {
      if subreddit !in subreddits {
        return "Subreddit does not exist.";
      }
      postID := postID + 1;
      var h := |postArena|;
      postArena := postArena + [Post(postID, author, content, 0, [])];
      var s := subreddits[subreddit];
      subreddits := subreddits[subreddit := s.(posts := s.posts + [h])];
      posts := posts[postID := h];
      r := "Post created successfully with ID " + IntToDecimal(postID) + ".";
      PostCreated(old(postArena), commentArena, old(subreddits), old(posts), comments, old(postID), commentID,
                  subreddit, postArena[h]);
    }

    method AddComment(postId: int, author: string, content: string) returns (r: string)
      requires Valid()
      modifies this`commentID, this`commentArena, this`postArena, this`comments
      ensures Valid()
      ensures postId !in posts ==>
        && r == "Post does not exist."
        && commentID == old(commentID) && commentArena == old(commentArena)
        && postArena == old(postArena) && comments == old(comments)
      ensures postId in posts ==>
        var p, c := posts[postId], |old(commentArena)|;
        && commentID == old(commentID) + 1
        && commentID !in old(comments)
        && commentArena == old(commentArena) + [Comment(commentID, author, content, 0, [])]
        && postArena == old(postArena)[p := old(postArena)[p].(comments := old(postArena)[p].comments + [c])]
        && comments == old(comments)[commentID := c]
        && r == "Comment added successfully with ID " + IntToDecimal(commentID) + "."
        && Reachable(postArena, commentArena, c)
    {
      if postId !in posts {
        return "Post does not exist.";
      }
      commentID := commentID + 1;
      var c := |commentArena|;
      commentArena := commentArena + [Comment(commentID, author, content, 0, [])];
      var p := posts[postId];
      postArena := postArena[p := postArena[p].(comments := postArena[p].comments + [c])];
      comments := comments[commentID := c];
      r := "Comment added successfully with ID " + IntToDecimal(commentID) + ".";
      CommentAdded(old(postArena), old(commentArena), subreddits, posts, old(comments), postID, old(commentID),
                   p, commentArena[c]);
    }

    method ReplyToComment(commentId: int, author: string, content: string) returns (r: string)
      requires Valid()
      modifies this`commentID, this`commentArena, this`comments
      ensures Valid()
      ensures commentId !in old(comments) ==>
        && r == "Comment does not exist."
        && commentID == old(commentID) && commentArena == old(commentArena) && comments == old(comments)
      ensures commentId in old(comments) ==>
        var parent, c := old(comments)[commentId], |old(commentArena)|;
        && commentID == old(commentID) + 1
        && commentID !in old(comments)
        && commentArena
           == old(commentArena)[parent := old(commentArena)[parent].(replies := old(commentArena)[parent].replies + [c])]
              + [Comment(commentID, author, content, 0, [])]
        && comments == old(comments)[commentID := c]
        && r == "Reply added successfully with ID " + IntToDecimal(commentID) + "."
        && Reachable(postArena, commentArena, c)
    {
      if commentId !in comments {
        return "Comment does not exist.";
      }
      commentID := commentID + 1;
      var c := |commentArena|;
      var parent := comments[commentId];
      commentArena := commentArena[parent := commentArena[parent].(replies := commentArena[parent].replies + [c])];
      commentArena := commentArena + [Comment(commentID, author, content, 0, [])];
      comments := comments[commentID := c];
      r := "Reply added successfully with ID " + IntToDecimal(commentID) + ".";
      ReplyAdded(postArena, old(commentArena), subreddits, posts, old(comments), postID, old(commentID),
                 parent, commentArena[c]);
    }

    /** The comment at handle `h` rendered at `depth`, followed by its replies one level deeper. */
    method DisplayComment(h: Handle, depth: nat) returns (result: string)
      requires RepliesForward(commentArena) && h < |commentArena|
      ensures result == CommentText(commentArena, h, depth)
      decreases |commentArena| - h
    {
      var comment := commentArena[h];
      var replies := comment.replies;
      assert Between(replies, h, |commentArena|);
      var below := "";
      for i := 0 to |replies|
        invariant Between(replies[..i], h, |commentArena|)
        invariant below == RepliesText(commentArena, replies[..i], depth + 1, h)
      {
        RepliesTextStep(commentArena, replies, depth + 1, h, i);
        var text := DisplayComment(replies[i], depth + 1);
        below := below + text;
      }
      assert replies[..|replies|] == replies;
      result := CommentLine(comment, depth) + below;
    }

    method GetFeed(subreddit: string) returns (feed: string)
      requires Valid()
      ensures subreddit !in subreddits ==> feed == "Subreddit does not exist."
      ensures subreddit in subreddits ==>
        feed == FeedText(subreddit, postArena, commentArena, subreddits[subreddit].posts)
    {
      if subreddit !in subreddits {
        return "Subreddit does not exist.";
      }
      var ps := subreddits[subreddit].posts;
      assert Between(ps, -1, |postArena|);
      var body := "";
      for i := 0 to |ps|
        invariant Between(ps[..i], -1, |postArena|)
        invariant body == PostsText(postArena, commentArena, ps[..i])
      {
        PostsTextStep(postArena, commentArena, ps, i);
        var post := postArena[ps[i]];
        var cs := post.comments;
        assert Between(cs, -1, |commentArena|);
        var below := "";
        for j := 0 to |cs|
          invariant Between(cs[..j], -1, |commentArena|)
          invariant below == RepliesText(commentArena, cs[..j], 1, -1)
        {
          RepliesTextStep(commentArena, cs, 1, -1, j);
          var text := DisplayComment(cs[j], 1);
          below := below + text;
        }
        assert cs[..|cs|] == cs;
        body := body + (PostLine(post) + below);
      }
      assert ps[..|ps|] == ps;
      feed := FeedHeader(subreddit) + body;
    }

    method VotePost(username: string, postId: int, vote: int) returns (r: string)
      requires Valid()
      requires postId in posts ==> postArena[posts[postId]].author in users
      modifies this`postArena, this`users, this`voteHistory
      ensures Valid()
      ensures postId !in posts ==>
        && r == "Post does not exist."
        && postArena == old(postArena) && users == old(users) && voteHistory == old(voteHistory)
      ensures postId in posts ==> r == "Vote registered successfully."
      ensures Ballots(postArena, users, voteHistory)
           == CastVote(Ballots(old(postArena), old(users), old(voteHistory)), posts, username, postId, vote)
      ensures BalancesKept(old(postArena), old(users), posts, old(voteHistory), postArena, users, voteHistory)
    {
      if postId !in posts {
        return "Post does not exist.";
      }
      var mine: map<int, int> := map[];
      if username in voteHistory {
        mine := voteHistory[username];
      }
      ghost var before := Ballots(postArena, users, voteHistory);
      var h := posts[postId];
      var author := postArena[h].author;
      var votes, karma := postArena[h].votes, users[author].karma;
      ghost var delta := vote - PreviousVote(voteHistory, username, postId);
      if postId in mine {
        var previousVote := mine[postId];
        votes, karma := votes - previousVote, karma - previousVote;
      }
      votes, karma := votes + vote, karma + vote;
      assert votes == postArena[h].votes + delta && karma == users[author].karma + delta;
      var postArena', users', voteHistory' :=
        postArena[h := postArena[h].(votes := votes)],
        users[author := users[author].(karma := karma)],
        voteHistory[username := mine[postId := vote]];
      assert Ballots(postArena', users', voteHistory') == CastVote(before, posts, username, postId, vote);
      VoteCast(before, commentArena, subreddits, posts, comments, postID, commentID, username, postId, vote);
      postArena, users, voteHistory := postArena', users', voteHistory';
      r := "Vote registered successfully.";
    }

    method SendMessage(sender: string, recipient: string, content: string) returns (r: string)
      requires Valid()
      modifies this`users
      ensures Valid()
      ensures recipient !in old(users) ==> r == "Recipient does not exist." && users == old(users)
      ensures recipient in old(users) ==>
        var u := old(users)[recipient];
        && r == "Message sent successfully."
        && users == old(users)[recipient := u.(inbox := u.inbox + [Message(sender, content)])]
    {
      if recipient !in users {
        return "Recipient does not exist.";
      }
      var message := Message(sender, content);
      users := users[recipient := users[recipient].(inbox := users[recipient].inbox + [message])];
      r := "Message sent successfully.";
    }

    method ListMessages(username: string) returns (result: string)
      ensures username !in users ==> result == "User does not exist."
      ensures username in users ==> result == Listing(username, users[username].inbox)
    {
      if username !in users {
        return "User does not exist.";
      }
      var messages := users[username].inbox;
      if |messages| == 0 {
        return NoMessages;
      }
      result := ListingHeader(username);
      for i := 0 to |messages|
        invariant result == ListingHeader(username) + Numbered(messages[..i], 1)
      {
        assert messages[..i + 1] == messages[..i] + [messages[i]];
        NumberedAppend(messages[..i], messages[i], 1);
        Reassociate(ListingHeader(username), Numbered(messages[..i], 1), MessageLine(i + 1, messages[i]));
        result := result + MessageLine(i + 1, messages[i]);
      }
      assert messages[..|messages|] == messages;
    }

    method SimulateConnection(username: string, connected: bool) returns (r: string)
      requires Valid()
      modifies this`disconnected
      ensures Valid()
      ensures username !in users ==> r == "User does not exist." && disconnected == old(disconnected)
      ensures username in users ==>
        && disconnected == old(disconnected)[username := !connected]
        && r == username + (if connected then " is now connected." else " is now disconnected.")
    {
      if username !in users {
        return "User does not exist.";
      }
      disconnected := disconnected[username := !connected];
      if connected {
        return username + " is now connected.";
      }
      r := username + " is now disconnected.";
    }

    /**
     * Writes back the tables the synthetic workload computed as values (users,
     * subreddits, post arena, post index and post counter), as the final step
     * of `SimulateZipfDistribution`; the comment tables stay as they are.
     */
    method WriteBackTables(users': map<string, User>, subreddits': map<string, Subreddit>, postArena': seq<Post>,
                           posts': map<int, Handle>, postID': int)
      requires Consistent(postArena', commentArena, subreddits', posts', comments, postID', commentID)
      modifies this`users, this`subreddits, this`postArena, this`posts, this`postID
      ensures Valid()
      ensures users == users' && subreddits == subreddits' && postArena == postArena'
      ensures posts == posts' && postID == postID'
    {
      users, subreddits, postArena, posts, postID := users', subreddits', postArena', posts', postID';
    }

    /**
     * The synthetic workload. First, for ranks 1 .. 10, subreddit_i is
     * created if missing, user_1 .. user_(100 / i) are registered if
     * missing and join it, and (100 / i) / 10 posts are written to it by
     * drawn members with drawn votes, under ids counted from `postID` (so
     * the first reuses the id of the last post created). Then every
     * subreddit, in the map order `order`, reposts posts drawn from the
     * other ranks. `postID` ends one past the last id written; `draws`
     * counts the random draws, taken from `draw` in turn.
     */
    method SimulateZipfDistribution(order: seq<string>, draw: nat -> nat)
      returns (r: string, ghost seeded: Tables, ghost draws: nat, ghost reposts: seq<Handle>)
      requires Valid()
      requires ListsSubreddits(order, subreddits.Keys)
      modifies this`users, this`subreddits, this`postArena, this`posts, this`postID
      ensures Valid()
      ensures r == "Simulated Zipf distribution with enhanced posting and re-posting."
      ensures users.Keys == old(users).Keys + MemberSet(Members(1))
      ensures forall u | u in old(users) :: users[u] == old(users)[u]
      ensures forall u | u in users && u !in old(users) :: users[u] == User("", 0, [])
      ensures seeded == Tables(SeededThrough(old(subreddits), |old(postArena)|, Ranks),
                               old(postArena) + SeedsThrough(Ranks, old(postID), draw),
                               old(postID) + SeedBefore(Ranks + 1), 2 * SeedBefore(Ranks + 1))
      ensures Ready(seeded) && seeded.subs.Keys == old(subreddits).Keys + RankNamesUpTo(Ranks)
      ensures forall i | 0 <= i < |order| :: order[i] in seeded.subs
      ensures Tables(subreddits, postArena, postID, draws) == Reposted(order, seeded, draw)
      ensures forall x | x in old(subreddits) && x !in RankNamesUpTo(Ranks) ::
        subreddits[x].members == old(subreddits)[x].members && old(subreddits)[x].posts <= subreddits[x].posts
      ensures forall i | 1 <= i <= Ranks ::
        RankName(i) in subreddits && subreddits[RankName(i)].members == Existing(old(subreddits), RankName(i)).members + MemberSet(Members(i))
      ensures postID == old(postID) + SeedBefore(Ranks + 1) + |reposts|
      ensures RepostsOfEarlier(postArena, |old(postArena)| + SeedBefore(Ranks + 1), old(postID) + SeedBefore(Ranks + 1), reposts)
      ensures postArena[..|old(postArena)| + SeedBefore(Ranks + 1)] == old(postArena) + SeedsThrough(Ranks, old(postID), draw)
      ensures posts == old(posts) + SyntheticIndex(old(postID), |old(postArena)|, postID - old(postID))
      ensures forall r, p | 1 <= r <= Ranks && 0 <= p < SeedCount(r) ::
        SeedPlaced(users, subreddits, postArena, posts, |old(postArena)|, old(postID), r, p)
      ensures forall h | |old(postArena)| <= h < |postArena| :: postArena[h].comments == []
    {
      var users', subreddits', postArena', posts', postID';
      users', subreddits', postArena', posts', postID', seeded, draws, reposts :=
        Simulate(order, users, subreddits, postArena, commentArena, posts, postID, draw);
      WriteBackTables(users', subreddits', postArena', posts', postID');
      r := "Simulated Zipf distribution with enhanced posting and re-posting.";
    }
  }
}
