# Reddit-clone forum engine, modelled in Dafny

This project models the in-memory forum engine of a small Go reddit clone
(`main.go`, type `Engine` and its methods). The engine keeps these tables:

- users, with password, karma and direct-message inbox;
- subreddits, with members and posts;
- a global post index and a global comment index;
- a per-voter vote ledger;
- a table of disconnected users;
- the two id counters `PostID` and `CommentID`.

Every operation runs under one engine-wide mutex, so each one is modelled as
one atomic method of the class `ForumEngine.Engine`. Each method returns the
status string the Go method returns.

How Go's shared objects are represented:

- **Arenas and handles.** Go shares each `*Post` and `*Comment` by pointer
  between a parent list and a global index. Here every post and comment ever
  created lives in an arena: `postArena` or `commentArena`, a sequence of
  records. A subreddit's post list, a post's comment list and a comment's
  reply list hold handles, which are arena indices. The indexes `posts` and
  `comments` map a displayed id to a handle. A vote on a post therefore shows
  up through every list that holds it, as it does in Go.
- **Dropped name fields.** `User.Username` and `Subreddit.Name` always equal
  their map key, so they are not stored.
- **The engine invariant.** `Valid` (the predicate `EngineState.Consistent`
  on the engine's tables) states that:
  - handles point into the arenas;
  - every reply was created after its parent, so replies cannot form a cycle;
  - every indexed post id is between 0 and `postID`, and names a post that
    carries that id;
  - the comment index is a bijection between the ids 1 .. `commentID` and the
    comment arena: the n-th comment created sits in slot n - 1 under id n;
  - every comment hangs in exactly one list, either a post's top-level list
    or the replies of an earlier comment (`CommentsOwned`), and no list holds
    a handle twice.

  So the comments under each post form a tree: `CommentReachable` gives every
  comment a path of replies from some post, `OneParent` shows that no comment
  is in two lists, and `TreeIntegrity` shows that the comment index and the
  trees hold the same comments.

### The Zipf workload (`SimulateZipfDistribution`)

Randomness and map order become parameters:

- **Random draws.** The k-th call of `rand.Intn(n)` in a run is
  `Intn(draw(k), n)`, which is `draw(k) % n` for an oracle `draw`.
- **Map order.** Go's `range` over the subreddit map visits keys in an
  unspecified order, each key exactly once. That order is the parameter
  `order`, which may be any listing of existing subreddits and rank names.
  Listings with repeated or missing names are allowed too, so every result
  proved for `order` holds for each order Go can produce.

What the run does, following the code:

- **Phase 1 (seeding).**
  - Rank `i` (1 .. 10) creates `subreddit_i` if it is missing.
  - It registers `user_1` .. `user_(100/i)` where missing, and makes them
    members.
  - It seeds `(100/i)/10` posts. Each takes two draws: first the author, then
    the votes.
- **Phase 2 (reposting).** Each subreddit in `order` runs `|posts| / 5`
  passes. The count is taken when its turn begins.
  - Each pass draws a rank.
  - If that rank is another subreddit and has posts, the pass draws one of
    its posts. It appends a repost with the same author, the `"[Repost] "`
    prefix, half the votes truncated toward zero, and the next id.
  - A pass that reposts uses two draws; one that does not uses one.

### Behaviour of the code worth knowing


- **Seeded ids.** The first seeded post takes the id `PostID`. When the last
  post was made by `CreatePost`, `PostID` is that post's id: the seeded post
  replaces its index entry, and the older post stays only in its subreddit's
  list. On a fresh engine, or after an earlier run, `PostID` is unused and
  nothing is replaced. So post ids are not globally unique: the index is
  exact, but no uniqueness over the arena is claimed. After the run,
  `PostID` is one past the last id written, so the next `CreatePost` skips
  an id.
- **Separate id counters.** Posts and comments have separate counters, so
  their ids are not drawn from one shared counter.
- **Vote totals.** Seeded posts start with random votes that no ledger entry
  explains. The invariant `Votes == sum of recorded votes` therefore does not
  hold globally. What `VotePost` keeps is the balance: counter minus tally,
  and karma minus tally, per post and per user (`BalancesKept`).
- **Reposting from the same subreddit.** A pass that draws its own rank
  posts nothing. It is not retried.

## Model

| member | source | states |
|---|---|---|
| ForumEngine.Engine.constructor | main.go:59-68 | a new engine has empty tables, zero counters and satisfies the engine invariant |
| ForumEngine.Engine.RegisterUser | main.go:72-80 | a taken name is rejected with the table unchanged; otherwise the user is added with zero karma and an empty inbox, and the invariant is kept |
| ForumEngine.Engine.CreateSubreddit | main.go:83-95 | a taken name is rejected with the table unchanged; otherwise the subreddit is created with the creator as sole member and no posts |
| ForumEngine.Engine.CreatePost | main.go:98-114 | unknown subreddit: nothing changes; otherwise the counter advances to an id not yet indexed, the post is appended to the arena, to the subreddit's list and to the index, and the message carries the id in decimal; the invariant is kept |
| ForumEngine.Engine.AddComment | main.go:117-133 | unknown post: nothing changes; otherwise the counter advances to an id not yet indexed, the comment is appended to the arena, to the end of the post's top-level list and to the index, the message carries the id, the new comment is reachable from a post, and the whole invariant (index a bijection, every comment in exactly one list) is kept |
| ForumEngine.Engine.ReplyToComment | main.go:136-152 | unknown comment: nothing changes; otherwise the counter advances to an id not yet indexed, the reply is appended to the arena, to the end of its parent's replies and to the index, the message carries the id, the reply is reachable from a post through its parent, and the whole invariant (replies forward, every comment in exactly one list) is kept |
| ForumEngine.Engine.GetFeed | main.go:155-169 | unknown subreddit gives the error text; otherwise the feed is the header followed by every post's block in list order (`FeedText`) |
| ForumEngine.Engine.DisplayComment | main.go:172-179 | the recursive rendering equals `CommentText`, which the Feed lemmas show is the pre-order walk of the reply tree, one indentation level per depth |
| ForumEngine.Engine.VotePost | main.go:183-200 | unknown post: all tables unchanged; otherwise the new arena, users and ledger are `CastVote` of the old ones (previous vote reversed, new one applied to the counter and the author's karma, only the latest vote on record), the invariant is kept, and every post and user keeps its balance against the ledger |
| ForumEngine.Engine.SendMessage | main.go:203-212 | unknown recipient: nothing changes; otherwise exactly one message is appended to the recipient's inbox and nothing else changes |
| ForumEngine.Engine.ListMessages | main.go:215-230 | unknown user gives the error text; otherwise the result is `Listing`: the sentinel exactly for an empty inbox, else the header and one 1-numbered line per message |
| ForumEngine.Engine.SimulateConnection | main.go:233-244 | unknown user: flag table unchanged; otherwise only that user's disconnected flag becomes `!connected` and the message names the new state |
| ForumEngine.Engine.SimulateZipfDistribution | main.go:247-315 | user_1 .. user_100 are registered and old users kept; every rank exists with its harmonic membership added; other subreddits keep their members and only gain posts; the seeded posts follow the old arena with ids from `PostID`; the p-th seeded post of rank r sits at its slot under its id, is indexed, is listed by subreddit_r, and its author is a member of subreddit_r and a registered user (`SeedPlaced`); every new post has no comments; every later post is a repost of an earlier one under the next id; the index gains exactly the synthetic ids; the invariant is kept. The run computes the new tables as values (`Workload.Simulate`) and stores them with `WriteBackTables` |
| Workload.Simulate | main.go:250-313 | both phases on the tables as values: the state after phase 1 is the seeding specification and the final state is the repost specification `Reposted` applied to it, with the consequences listed above |
| Workload.SeedRanks | main.go:251-285 | the ten ranks in turn: subreddits become `SeededThrough`, the arena gains `SeedsThrough`, users gain user_1 .. user_100, the index gains one entry per seeded id, and 2 draws are used per post |
| Workload.SeedRank | main.go:252-284 | one rank: subreddit created if missing, its members and seeded handles added, users registered where missing, posts appended and indexed, consistency kept |
| Workload.Enrol | main.go:261-268 | the members gain exactly user_1 .. user_count; missing users are added with a blank record; existing users are untouched |
| Workload.Seed | main.go:270-284 | `n` posts appended to the arena, to the subreddit's list as consecutive handles and to the index as consecutive ids; consistency kept; two draws per post |
| Workload.RepostAll | main.go:288-312 | the loop over `order` computes `Reposted`; keys and members unchanged, lists only grow, subreddits not in `order` untouched, every added post is a repost of an earlier slot under consecutive ids, all indexed |
| Workload.Repost | main.go:289-311 | one subreddit's loop computes `RepostRun` for `|posts| / 5` passes; at most that many reposts, each of a post another ranked subreddit lists |
| Workload.RepostPass | main.go:292-309 | one pass equals `RepostStep`: it either changes nothing and uses one draw, or appends a repost of a post listed by another rank under the next id, uses two draws and indexes it |
| Workload.SeededShape | main.go:251-268 | after phase 1 the keys are the old ones plus the ten rank names; rank i gained user_1 .. user_(100/i) as members; every other subreddit is as it was |
| Workload.RepostsCompose | main.go:298-307 | reposts of one subreddit's run continue the record of the reposts before it |
| Workload.RankStep | main.go:251-285 | seeding rank i takes the tables after rank i - 1 to those after rank i: subreddits, arena, index, users, counters, authorship and empty comment lists |
| Workload.AuthorsStep | main.go:270-284 | after rank i is seeded, the p-th post of every rank up to i sits in its slot and was written by a member of that rank, and all seeded posts have no comments |
| Workload.SeedsPlaced | main.go:251-313 | after both phases, every seeded post is at its slot under its id, indexed, listed by its rank, and written by a member of its rank who is a registered user |
| Workload.SeedPlacedAt | main.go:270-284 | the same for the p-th seeded post of one rank r |
| Workload.ArenaExtended | main.go:251-313 | both phases keep the old arena slots, add only posts without comments, and so keep every comment in exactly one list |
| Reposts.RepostStep | main.go:292-309 | a pass keeps the set of subreddits and keeps every list inside the arena |
| Reposts.RepostStepEffect | main.go:292-309 | a pass changes only its own subreddit's list, appends at most one post, which reposts under the next id a post that another ranked subreddit lists, and takes 1 + (posts added) draws |
| Reposts.RepostRun | main.go:290-310 | a run of passes keeps the set of subreddits and the arena closure |
| Reposts.TraceRun | main.go:291-310 | the tables a loop goes through are, at step n, the run of n passes from its start |
| Reposts.Reposted | main.go:288-312 | the repost phase over `order` keeps the set of subreddits and arena closure |
| Reposts.RepostedNext | main.go:288-290 | the phase over one more subreddit is that subreddit's run, whose pass count is taken from its list as its turn begins |
| Zipf.Members | main.go:261 | every rank has between 10 and 100 members |
| Zipf.MembersHarmonic | main.go:261 | rank i has 100 / i members |
| Zipf.FreshRankSize | main.go:253-268 | a rank created by the workload ends with exactly 100 / i members: 100 for subreddit_1, 10 for subreddit_10 |
| Zipf.SeedCount | main.go:270 | a rank seeds no more posts than it has members |
| Zipf.SeedBeforeStep | main.go:269-284 | the seeded posts of rank i start right after those of the ranks before it |
| Zipf.SeedTotal | main.go:251-285 | the seed offsets are the running sums of (100/i)/10 |
| Zipf.MemberSetHas | main.go:262-263 | user_j is enrolled by a rank of m members exactly when 1 <= j <= m |
| Zipf.MemberSetSize | main.go:262-263 | user_1 .. user_m are m distinct names |
| Zipf.EnrolledAll | main.go:251-268 | after any number of ranks the enrolled users are exactly user_1 .. user_100, since rank 1 is the largest |
| Zipf.Intn | main.go:272 | a draw reduced by `Intn(n)` is below n |
| Zipf.IntnIsRemainder | main.go:272 | the reduction equals the remainder of the draw by n |
| Zipf.Half | main.go:302 | half of a vote count is truncated toward zero, as Go's integer division |
| Zipf.SeedPost | main.go:272-280 | a seeded post carries its id, has no comments, its author is one of the rank's members and its votes are in [0, 100) |
| Zipf.SeedsWellFormed | main.go:271-284 | every seeded post of a rank is written by one of its members, has no comments and votes in [0, 100) |
| Zipf.SeedsIds | main.go:273-283 | the seeded posts of a rank carry consecutive ids |
| Zipf.SeedsThrough | main.go:251-285 | the posts seeded by ranks 1 .. m number the running sum of their post counts |
| Zipf.SeededThroughKeys | main.go:251-259 | seeding adds exactly the rank names to the subreddits |
| Zipf.SeededThroughOthers | main.go:251-259 | a subreddit that is not a rank is left as it was by seeding |
| Zipf.SeededThroughRank | main.go:251-285 | rank r ends holding its old state plus its members and its own seeded handles, untouched by later ranks |
| Zipf.RankNamesUpToHas | main.go:252 | subreddit_j is among the first m rank names exactly when 1 <= j <= m |
| Zipf.RankNameInjective | main.go:252 | distinct ranks have distinct subreddit names |
| Zipf.UserNameInjective | main.go:263 | distinct indices give distinct user names |
| Zipf.SyntheticIndexHas | main.go:282-306 | the index entries the workload writes are exactly its ids, each naming the slot of its own post |
| Zipf.Range | main.go:281 | the appended handles are consecutive slots |
| Decimal.NatToDecimal | main.go:113 | `%d` of a natural is non-empty digits without a leading zero, one digit exactly below 10 |
| Decimal.IntToDecimal | main.go:113 | `%d` of an int has a leading minus exactly for negatives, followed by the magnitude's digits |
| Decimal.DecimalRoundTrip | main.go:113 | reading back the digits of `%d` gives the number |
| Decimal.SignedRoundTrip | main.go:132 | reading back `%d` of any int, sign included, gives the int |
| Decimal.NatToDecimalInjective | main.go:252 | two naturals with the same decimal text are equal |
| Ledger.PreviousVote | main.go:192 | a voter with no recorded vote on the post contributes 0 |
| Ledger.Recast | main.go:189-197 | recording a vote creates the voter's map if missing, sets exactly that entry and keeps every other voter's and post's entry |
| Ledger.RecastTally | main.go:192-197 | recasting moves the voted post's tally by the new vote minus the previous one and no other post's tally |
| Ledger.RecastAuthorTally | main.go:192-198 | recasting moves the author's total by the same difference and no other author's total |
| Ledger.RecastOverwrites | main.go:192-197 | a second vote replaces the first: only the latest stays on record |
| Ledger.RevoteNetsLatest | main.go:192-197 | voting v1 then v2 leaves the post's tally where a single vote v2 would have |
| Ledger.SumValuesUpdate | main.go:197 | overwriting one ledger entry moves the sum by the difference |
| EngineState.VoteKeepsBalances | main.go:183-200 | the vote update keeps every post's counter and every user's karma balanced against the ledger |
| EngineState.PostAdded | main.go:104-112 | appending a post to the arena, a subreddit's list and the index keeps the post-side invariants |
| EngineState.IndexPost | main.go:282 | indexing a new post under its id keeps the index exact even when the id replaces an older entry |
| EngineState.CommentOnPost | main.go:123-131 | attaching a new comment to a post keeps the arenas closed |
| EngineState.ReplyUnder | main.go:142-150 | attaching a new reply to a comment keeps the arenas closed and the replies forward |
| EngineState.CommentAppended | main.go:123-150 | appending a comment under the next id keeps the comment index a bijection between 1 .. the counter and the arena |
| EngineState.RecountKeeps | main.go:193-196 | changing a post's vote counter keeps the arenas closed and the index exact |
| EngineState.SubredditAppend | main.go:111 | appending a post handle to one subreddit keeps every list inside the arena |
| EngineState.MembersOnly | main.go:267 | changing a subreddit's members keeps its list closed |
| EngineState.PostArenaGrows | main.go:105-111 | a new post without comments keeps the arenas closed |
| EngineState.OwnedPosts | main.go:104-111 | posts whose comment lists are unchanged, and new posts without comments, keep every comment in exactly one list |
| EngineState.OwnedComment | main.go:123-131 | a new comment appended to the arena and to the end of a post's list hangs under that post, and every comment still hangs in exactly one list |
| EngineState.OwnedReply | main.go:142-150 | a new reply appended to the arena and to the end of a comment's replies hangs under that comment, and every comment still hangs in exactly one list |
| EngineState.OneParent | main.go:130-149 | no comment is in the lists of two posts, of two comments, or of a post and a comment at once |
| EngineState.CommentReachable | main.go:117-152 | every comment is reached from some post by a path of replies |
| EngineState.TreeIntegrity | main.go:117-152 | every indexed comment is reachable from a post, and every comment on a path from a post is indexed under its own id |
| EngineState.CommentAdded | main.go:123-132 | a comment added to a post under the next id keeps the whole invariant; the id was free and the comment is reachable |
| EngineState.ReplyAdded | main.go:142-151 | a reply added under a comment with the next id keeps the whole invariant; the id was free and the reply is reachable |
| EngineState.PostCreated | main.go:104-113 | a post created under the next id keeps the whole invariant; the id was free |
| EngineState.VotesRecounted | main.go:193-196 | setting a post's vote counter keeps the whole invariant |
| EngineState.CastVote | main.go:183-200 | a vote keeps the number, ids and authors of posts and the set of users, records exactly the new vote as the voter's current vote on the post, and changes nothing for an unknown post |
| EngineState.RevoteReplaces | main.go:189-198 | voting v1 and then v2 on the same post leaves the counter, the author's karma and the ledger exactly as voting v2 alone |
| EngineState.VoteCast | main.go:183-200 | a vote keeps the whole invariant and every post's and user's balance against the ledger |
| Feed.Indent | main.go:173 | the indentation is two spaces per level |
| Feed.RepliesTextStep | main.go:175-177 | rendering one more reply appends that reply's whole tree |
| Feed.PostsTextStep | main.go:162-166 | rendering one more post appends its block |
| Feed.Flatten | main.go:172-179 | the walk of a tree starts at its root and only visits later comments at the same or greater depth |
| Feed.FlattenAll | main.go:175-177 | the walk of a reply list only visits comments after the parent, at the same or greater depth |
| Feed.LinesConcat | main.go:175-177 | the lines of two walks, one after the other, are the lines of the joined walk |
| Feed.CommentTextIsWalk | main.go:172-179 | the rendered text of a comment is, line by line, its pre-order walk |
| Feed.RepliesTextIsWalk | main.go:175-177 | the rendered text of a reply list is the lines of its walk |
| Feed.WalkParentsFirst | main.go:172-179 | every line after the root is a reply of an earlier line, one level deeper |
| Feed.WalkAllParentsFirst | main.go:164-166 | every line of a forest walk is a root at its depth or a reply of an earlier line |
| Feed.WalkChildrenFollow | main.go:175-177 | every reply of every printed comment appears after it, one level deeper |
| Feed.WalkAllChildrenFollow | main.go:164-166 | every root and every reply of a forest walk appears, after its parent |
| Feed.PostBlockIsWalk | main.go:162-166 | a post's block is its line followed by the pre-order walk of its comments: depth 1 for top-level comments, every reply present after its parent and one level deeper |
| Inbox.Listing | main.go:218-229 | the sentinel exactly when the inbox is empty; otherwise the text starts with the header naming the user |
| Inbox.NumberedAppend | main.go:226-228 | a message that arrives last is listed last under the next number |
| Inbox.NumberedConcat | main.go:226-228 | two runs of messages listed one after the other continue the numbering |
| Inbox.NumberedAt | main.go:226-228 | the k-th message is on the line numbered k + 1, between the earlier and the later messages |
| Inbox.ListingAfterSend | main.go:203-230 | sending a message extends the recipient's listing by exactly one numbered line |

## Left out

- The mutex (`main.go:53` and every `Lock`/`Unlock`): each method is one atomic step, and the model has no concurrency.
- The interactive menu and `main` (`main.go:320-445`): console I/O, not engine logic.
- `math/rand`: it is the oracle `draw`. Nothing is assumed about its distribution, so uniformity is not modelled.
- Go map iteration order: it is the parameter `order` of `SimulateZipfDistribution`.
- Integer width: ids, votes and karma are unbounded integers, and Go's 64-bit wrap-around is not modelled. The id counters would need about 2^63 calls to wrap. Votes and karma can wrap after a single call, because `VotePost` adds a caller-supplied `int`: a vote of 2^63 - 1 followed by a vote of 1 on the same post wraps the post's `Votes` and its author's `Karma` in Go, where the model gives 2^63.
- `fmt.Sprintf`: modelled by string concatenation, with `%d` as `IntToDecimal`. Only the verbs the engine uses (`%s`, `%d`) are modelled.
- Passwords are stored and never read. Comment vote counters are written as 0 and never changed, because no operation votes on comments.
- `User.Username` and `Subreddit.Name` are dropped, because they always equal their map key. The repost guard at `main.go:294` compares `subreddit.Name`, which the model reads as the key.
- ForumEngine.Engine.VotePost: requires that the post's author is a registered user. `CreatePost` accepts any author string, and Go dereferences a nil `*User` at `main.go:194`/`198` when the author is unknown. That call panics, so it has no result to model.
- ForumEngine.Engine.SimulateZipfDistribution: the result says which synthetic posts exist and how they are indexed. It does not claim global id uniqueness, because the code reuses the id `PostID` for the first seeded post.
- Member counts: the values 100 / i are kept as a table of ten constants, with `MembersHarmonic` proving each equals the quotient. `SeedBefore` likewise uses a table of offsets, tied to the post counts by `SeedBeforeStep` and `SeedTotal`.
- Lazy rendering: the feed is built as a string, not a lazy, restartable traversal. Returning the same text on repeated calls follows from the method not modifying the engine.
