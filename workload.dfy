/**
 * The Zipf workload generator of the engine, written as loops over the
 * engine's tables passed as values: ten ranked subreddits receive members
 * and seeded posts, then every subreddit receives reposts of posts from
 * other ranks. The k-th random draw of a run is `draw(k)`.
 */
module Workload {
  import opened Sequences
  import opened Forum
  import opened Zipf
  import opened EngineState
  import opened Reposts

  /**
   * The membership loop of the generator: user_1 .. user_`count` are
   * registered (blank password, no karma) unless present, and all join
   * `members`.
   */
  method Enrol(users: map<string, User>, members: set<string>, count: nat)
    returns (users': map<string, User>, members': set<string>)
    ensures members' == members + MemberSet(count)
    ensures users'.Keys == users.Keys + MemberSet(count)
    ensures forall u | u in users :: users'[u] == users[u]
    ensures forall u | u in users' && u !in users :: users'[u] == User("", 0, [])
  {
    users', members' := users, members;
    for j := 1 to count + 1
      invariant members' == members + MemberSet(j - 1)
      invariant users'.Keys == users.Keys + MemberSet(j - 1)
      invariant forall u | u in users :: users'[u] == users[u]
      invariant forall u | u in users' && u !in users :: users'[u] == User("", 0, [])
    {
      var username := UserName(j);
      ghost var sofar := MemberSet(j - 1);
      MemberSetStep(j);
      assert users.Keys + MemberSet(j) == (users.Keys + sofar) + {username};
      if username !in users' {
        users' := users'[username := User("", 0, [])];
      }
      assert users'.Keys == (users.Keys + sofar) + {username};
      members' := members' + {username};
    }
  }

  /**
   * The seeding loop of one subreddit on the post tables: appends its `n`
   * posts to the arena `pa`, their handles to the subreddit's list and their
   * ids to the index `ps`, keeping the post-side invariants.
   */
  method Seed(name: string, members: nat, n: nat, pa: seq<Post>, ca: seq<Comment>,
              subs: map<string, Subreddit>, ps: map<int, Handle>, next: int, k: nat, draw: nat -> nat)
    returns (pa': seq<Post>, subs': map<string, Subreddit>, ps': map<int, Handle>, next': int, k': nat)
    requires 1 <= members && name in subs && 0 <= next
    requires ArenasClosed(pa, ca) && SubredditsClosed(subs, |pa|) && IdsUpTo(ps, next) && Indexed(pa, ps)
    ensures next' == next + n && k' == k + 2 * n
    ensures ArenasClosed(pa', ca) && SubredditsClosed(subs', |pa'|) && IdsUpTo(ps', next') && Indexed(pa', ps')
    ensures pa' == pa + Seeds(name, members, next, k, n, draw)
    ensures subs' == subs[name := subs[name].(posts := subs[name].posts + Range(|pa|, n))]
    ensures ps' == ps + SyntheticIndex(next, |pa|, n)
  {
    ghost var s0 := subs[name];
    pa', subs', ps' := pa, subs, ps;
    RunEmpty(subs, name, |pa|);
    IndexEmpty(ps, next, |pa|);
    next', k' := next, k;
    SeedsNone(name, members, next, k, draw, pa);
    for p := 0 to n
      invariant next' == next + p && k' == k + 2 * p
      invariant pa' == pa + Seeds(name, members, next, k, p, draw)
      invariant subs' == subs[name := s0.(posts := s0.posts + Range(|pa|, p))]
      invariant ps' == ps + SyntheticIndex(next, |pa|, p)
      invariant ArenasClosed(pa', ca) && SubredditsClosed(subs', |pa'|)
      invariant IdsUpTo(ps', next') && Indexed(pa', ps')
    {
      var author := UserName(Intn(draw(k'), members) + 1);
      var post := Post(next', author, SeedContent(next', name, author), Intn(draw(k' + 1), 100), []);
      assert post == SeedPost(name, members, next', draw(k'), draw(k' + 1));
      SeedsGrow(name, members, next, k, p, draw, pa, next', k');
      PostAdded(pa', ca, subs', ps', next', next' + 1, name, post);
      RunExtend(subs, name, s0, |pa|, p, p + 1, |pa'|);
      IndexExtend(ps, next, |pa|, p, p + 1, next', |pa'|);
      subs' := subs'[name := subs'[name].(posts := subs'[name].posts + [|pa'|])];
      ps' := ps'[next' := |pa'|];
      pa' := pa' + [post];
      next', k' := next' + 1, k' + 2;
    }

  }

  /** Writing a key twice leaves only the second value; `m'` is `m` with at most `key` changed. */
  lemma OverwriteKey<V>(m: map<string, V>, m': map<string, V>, key: string, v: V)
    requires m'.Keys == m.Keys + {key}
    requires forall x | x in m && x != key :: m'[x] == m[x]
    ensures m'[key := v] == m[key := v]
  {
  }

  /**
   * One rank `i` of the first phase: its subreddit is created when missing,
   * user_1 .. user_(100 / i) are registered where missing and made members,
   * and its (100 / i) / 10 posts are seeded.
   */
  method SeedRank(i: nat, users: map<string, User>, subs: map<string, Subreddit>, pa: seq<Post>, ca: seq<Comment>,
                  ps: map<int, Handle>, next: int, k: nat, draw: nat -> nat)
    returns (users': map<string, User>, subs': map<string, Subreddit>, pa': seq<Post>, ps': map<int, Handle>,
             next': int, k': nat)
    requires 1 <= i <= Ranks && 0 <= next
    requires PostsConsistent(pa, ca, subs, ps, next)
    ensures PostsConsistent(pa', ca, subs', ps', next')
    ensures next' == next + SeedCount(i) && k' == k + 2 * SeedCount(i)
    ensures users'.Keys == users.Keys + MemberSet(Members(i))
    ensures forall u | u in users :: users'[u] == users[u]
    ensures forall u | u in users' && u !in users :: users'[u] == User("", 0, [])
    ensures subs' == subs[RankName(i) := Seeded(Existing(subs, RankName(i)), |pa|, i)]
    ensures pa' == pa + Seeds(RankName(i), Members(i), next, k, SeedCount(i), draw)
    ensures ps' == ps + SyntheticIndex(next, |pa|, SeedCount(i))
  {
    var name := RankName(i);
    var subs1 := subs;
    if name !in subs1 {
      subs1 := subs1[name := Subreddit({}, [])];
    }
    var members := Members(i);
    var s := subs1[name];
    var enrolled;
    users', enrolled := Enrol(users, s.members, members);
    MembersOnly(subs1, |pa|, name, enrolled);
    OverwriteKey(subs, subs1, name, s.(members := enrolled));
    subs1 := subs1[name := s.(members := enrolled)];
    var postCount := members / 10;
    pa', subs', ps', next', k' := Seed(name, members, postCount, pa, ca, subs1, ps, next, k, draw);
    OverwriteKey(subs, subs1, name, Seeded(s, |pa|, i));
  }

  /** The users after rank `i` from those after rank `i - 1`: the rank's members join the enrolled users. */
  lemma UsersStep(users: map<string, User>, before: map<string, User>, after: map<string, User>, i: nat)
    requires 1 <= i <= Ranks
    requires before.Keys == users.Keys + EnrolledUpTo(i - 1)
    requires forall u | u in users :: before[u] == users[u]
    requires forall u | u in before && u !in users :: before[u] == User("", 0, [])
    requires after.Keys == before.Keys + MemberSet(Members(i))
    requires forall u | u in before :: after[u] == before[u]
    requires forall u | u in after && u !in before :: after[u] == User("", 0, [])
    ensures after.Keys == users.Keys + EnrolledUpTo(i)
    ensures forall u | u in users :: after[u] == users[u]
    ensures forall u | u in after && u !in users :: after[u] == User("", 0, [])
  {
  }

  /** The subreddits after rank `i` from those after rank `i - 1`; the seeded posts of all ranks start at `base`. */
  lemma SubredditsStep(subs: map<string, Subreddit>, before: map<string, Subreddit>, after: map<string, Subreddit>,
                       base: nat, i: nat, at: nat)
    requires 1 <= i <= Ranks && at == base + SeedBefore(i)
    requires before == SeededThrough(subs, base, i - 1)
    requires after == before[RankName(i) := Seeded(Existing(before, RankName(i)), at, i)]
    ensures after == SeededThrough(subs, base, i)
  {
    assert SeededThrough(subs, base, i) == before[RankName(i) := Seeded(Existing(before, RankName(i)), at, i)];
  }

  /** The arena after rank `i` from the arena after rank `i - 1`; the rank's ids start at `id` and its draws at `d`. */
  lemma ArenaStep(pa: seq<Post>, before: seq<Post>, after: seq<Post>, next: int, i: nat, draw: nat -> nat, id: int, d: nat)
    requires 1 <= i <= Ranks && id == next + SeedBefore(i) && d == 2 * SeedBefore(i)
    requires before == pa + SeedsThrough(i - 1, next, draw)
    requires after == before + Seeds(RankName(i), Members(i), id, d, SeedCount(i), draw)
    ensures after == pa + SeedsThrough(i, next, draw)
  {
    var earlier, rank := SeedsThrough(i - 1, next, draw), Seeds(RankName(i), Members(i), id, d, SeedCount(i), draw);
    SeedsThroughUnfold(i, next, draw);
    assert SeedsThrough(i, next, draw) == earlier + rank;
    Reassociate(pa, earlier, rank);
  }

  /** The seeded posts of ranks 1 .. `m` are those of ranks 1 .. `m - 1` followed by rank `m`'s. */
  lemma SeedsThroughUnfold(m: nat, id: int, draw: nat -> nat)
    requires 1 <= m <= Ranks
    ensures SeedsThrough(m, id, draw)
         == SeedsThrough(m - 1, id, draw) + Seeds(RankName(m), Members(m), id + SeedBefore(m), 2 * SeedBefore(m), SeedCount(m), draw)
  {
  }

  /** The id index after rank `i` from the index after rank `i - 1`; the rank's ids start at `id`, its slots at `at`. */
  lemma IndexStep(ps: map<int, Handle>, before: map<int, Handle>, after: map<int, Handle>, next: int, base: nat, i: nat,
                  id: int, at: nat)
    requires 1 <= i <= Ranks && id == next + SeedBefore(i) && at == base + SeedBefore(i)
    requires before == ps + SyntheticIndex(next, base, SeedBefore(i))
    requires after == before + SyntheticIndex(id, at, SeedCount(i))
    ensures after == ps + SyntheticIndex(next, base, SeedBefore(i + 1))
  {
    SeedBeforeStep(i);
    IndexJoin(ps, before, after, next, base, SeedBefore(i), next + SeedBefore(i), base + SeedBefore(i), SeedCount(i), SeedBefore(i + 1));
  }

  /** Two consecutive runs of index entries written one after the other, as one run of `n` entries. */
  lemma IndexJoin(ps: map<int, Handle>, before: map<int, Handle>, after: map<int, Handle>, next: int, base: nat,
                  n1: nat, next2: int, base2: nat, n2: nat, n: nat)
    requires before == ps + SyntheticIndex(next, base, n1)
    requires after == before + SyntheticIndex(next2, base2, n2)
    requires next2 == next + n1 && base2 == base + n1 && n == n1 + n2
    ensures after == ps + SyntheticIndex(next, base, n)
  {
    IndexCompose(ps, next, base, n1, n2);
  }

  /** The `p`-th post seeded into rank `r`, counted from arena slot `base`, is in `pa` and one of the rank's members wrote it. */
  ghost predicate WrittenByMember(pa: seq<Post>, base: nat, r: nat, p: nat)
    requires 1 <= r <= Ranks
  {
    base + SeedBefore(r) + p < |pa| && pa[base + SeedBefore(r) + p].author in MemberSet(Members(r))
  }

  /**
   * The seeded posts after rank `i` from those after rank `i - 1`: earlier
   * slots stay, rank `i`'s `added` posts follow them, and all were written
   * by members of their rank and have no comments.
   */
  lemma AuthorsStep(pa: seq<Post>, before: seq<Post>, added: seq<Post>, after: seq<Post>, i: nat)
    requires 1 <= i <= Ranks && |before| == |pa| + SeedBefore(i) && |added| == SeedCount(i) && after == before + added
    requires forall r, p | 1 <= r < i && 0 <= p < SeedCount(r) :: WrittenByMember(before, |pa|, r, p)
    requires forall h | |pa| <= h < |before| :: before[h].comments == []
    requires forall q | q in added :: q.author in MemberSet(Members(i)) && q.comments == []
    ensures forall r, p | 1 <= r < i + 1 && 0 <= p < SeedCount(r) :: WrittenByMember(after, |pa|, r, p)
    ensures forall h | |pa| <= h < |after| :: after[h].comments == []
  {
    forall r, p | 1 <= r < i + 1 && 0 <= p < SeedCount(r) ensures WrittenByMember(after, |pa|, r, p) {
      if r < i {
        assert WrittenByMember(before, |pa|, r, p);
        assert after[|pa| + SeedBefore(r) + p] == before[|pa| + SeedBefore(r) + p];
      } else {
        assert after[|before| + p] == added[p];
      }
    }
    forall h | |pa| <= h < |after| ensures after[h].comments == [] {
      if h < |before| {
        assert after[h] == before[h];
      } else {
        assert after[h] == added[h - |before|];
      }
    }
  }

  /**
   * The first phase: ranks 1 .. 10 in turn, each seeded by `SeedRank`,
   * post ids continuing from `next` and draws from 0.
   */
  method SeedRanks(users: map<string, User>, subs: map<string, Subreddit>, pa: seq<Post>, ca: seq<Comment>,
                   ps: map<int, Handle>, next: int, draw: nat -> nat)
    returns (users': map<string, User>, subs': map<string, Subreddit>, pa': seq<Post>, ps': map<int, Handle>,
             next': int, k': nat)
    requires 0 <= next
    requires PostsConsistent(pa, ca, subs, ps, next)
    ensures PostsConsistent(pa', ca, subs', ps', next')
    ensures next' == next + SeedBefore(Ranks + 1) && k' == 2 * SeedBefore(Ranks + 1)
    ensures users'.Keys == users.Keys + EnrolledUpTo(Ranks)
    ensures forall u | u in users :: users'[u] == users[u]
    ensures forall u | u in users' && u !in users :: users'[u] == User("", 0, [])
    ensures subs' == SeededThrough(subs, |pa|, Ranks)
    ensures pa' == pa + SeedsThrough(Ranks, next, draw)
    ensures ps' == ps + SyntheticIndex(next, |pa|, SeedBefore(Ranks + 1))
    ensures forall r, p | 1 <= r <= Ranks && 0 <= p < SeedCount(r) :: WrittenByMember(pa', |pa|, r, p)
    ensures forall h | |pa| <= h < |pa'| :: pa'[h].comments == []
  {
    users', subs', pa', ps', next', k' := users, subs, pa, ps, next, 0;
    assert pa + [] == pa;
    IndexEmpty(ps, next, |pa|);
    for i := 1 to Ranks + 1
      invariant next' == next + SeedBefore(i) && k' == 2 * SeedBefore(i)
      invariant PostsConsistent(pa', ca, subs', ps', next')
      invariant users'.Keys == users.Keys + EnrolledUpTo(i - 1)
      invariant forall u | u in users :: users'[u] == users[u]
      invariant forall u | u in users' && u !in users :: users'[u] == User("", 0, [])
      invariant subs' == SeededThrough(subs, |pa|, i - 1)
      invariant pa' == pa + SeedsThrough(i - 1, next, draw)
      invariant ps' == ps + SyntheticIndex(next, |pa|, SeedBefore(i))
      invariant forall r, p | 1 <= r < i && 0 <= p < SeedCount(r) :: WrittenByMember(pa', |pa|, r, p)
      invariant forall h | |pa| <= h < |pa'| :: pa'[h].comments == []
    {
      ghost var users0, subs0, pa0, ps0, next0, k0 := users', subs', pa', ps', next', k';
      users', subs', pa', ps', next', k' := SeedRank(i, users', subs', pa', ca, ps', next', k', draw);
      RankStep(users, subs, pa, ps, next, draw, i, users0, subs0, pa0, ps0, next0, k0, users', subs', pa', ps', next', k');
    }
  }

  /** One pass of `SeedRanks`: seeding rank `i` takes the tables after rank `i - 1` to those after rank `i`. */
  lemma RankStep(users: map<string, User>, subs: map<string, Subreddit>, pa: seq<Post>, ps: map<int, Handle>, next: int,
                 draw: nat -> nat, i: nat,
                 users0: map<string, User>, subs0: map<string, Subreddit>, pa0: seq<Post>, ps0: map<int, Handle>,
                 next0: int, k0: nat,
                 users1: map<string, User>, subs1: map<string, Subreddit>, pa1: seq<Post>, ps1: map<int, Handle>,
                 next1: int, k1: nat)
    requires 1 <= i <= Ranks
    requires next0 == next + SeedBefore(i) && k0 == 2 * SeedBefore(i)
    requires users0.Keys == users.Keys + EnrolledUpTo(i - 1)
    requires forall u | u in users :: users0[u] == users[u]
    requires forall u | u in users0 && u !in users :: users0[u] == User("", 0, [])
    requires subs0 == SeededThrough(subs, |pa|, i - 1)
    requires pa0 == pa + SeedsThrough(i - 1, next, draw)
    requires ps0 == ps + SyntheticIndex(next, |pa|, SeedBefore(i))
    requires forall r, p | 1 <= r < i && 0 <= p < SeedCount(r) :: WrittenByMember(pa0, |pa|, r, p)
    requires forall h | |pa| <= h < |pa0| :: pa0[h].comments == []
    requires next1 == next0 + SeedCount(i) && k1 == k0 + 2 * SeedCount(i)
    requires users1.Keys == users0.Keys + MemberSet(Members(i))
    requires forall u | u in users0 :: users1[u] == users0[u]
    requires forall u | u in users1 && u !in users0 :: users1[u] == User("", 0, [])
    requires subs1 == subs0[RankName(i) := Seeded(Existing(subs0, RankName(i)), |pa0|, i)]
    requires pa1 == pa0 + Seeds(RankName(i), Members(i), next0, k0, SeedCount(i), draw)
    requires ps1 == ps0 + SyntheticIndex(next0, |pa0|, SeedCount(i))
    ensures next1 == next + SeedBefore(i + 1) && k1 == 2 * SeedBefore(i + 1)
    ensures users1.Keys == users.Keys + EnrolledUpTo(i)
    ensures forall u | u in users :: users1[u] == users[u]
    ensures forall u | u in users1 && u !in users :: users1[u] == User("", 0, [])
    ensures subs1 == SeededThrough(subs, |pa|, i)
    ensures pa1 == pa + SeedsThrough(i, next, draw)
    ensures ps1 == ps + SyntheticIndex(next, |pa|, SeedBefore(i + 1))
    ensures forall r, p | 1 <= r < i + 1 && 0 <= p < SeedCount(r) :: WrittenByMember(pa1, |pa|, r, p)
    ensures forall h | |pa| <= h < |pa1| :: pa1[h].comments == []
  {
    SeedsWellFormed(RankName(i), Members(i), next0, k0, SeedCount(i), draw);
    AuthorsStep(pa, pa0, Seeds(RankName(i), Members(i), next0, k0, SeedCount(i), draw), pa1, i);
    SeedBeforeStep(i);
    UsersStep(users, users0, users1, i);
    SubredditsStep(subs, subs0, subs1, |pa|, i, |pa0|);
    ArenaStep(pa, pa0, pa1, next, i, draw, next0, k0);
    IndexStep(ps, ps0, ps1, next, |pa|, i, next0, |pa0|);
  }

  /**
   * The arena `pa'` extends `pa` by one repost per entry of `sources`: the
   * `j`-th, under id `next + j`, copies the post in slot `sources[j]` of
   * `pa`, which the ranked subreddit `ranks[j]`, not `name`, lists.
   */
  ghost predicate RepostsRecorded(pa: seq<Post>, pa': seq<Post>, subs: map<string, Subreddit>, name: string, next: int,
                                  sources: seq<Handle>, ranks: seq<nat>)
  {
    && |pa'| == |pa| + |sources| == |pa| + |ranks|
    && forall j | 0 <= j < |sources| ::
      && 1 <= ranks[j] <= Ranks && RankName(ranks[j]) in subs && RankName(ranks[j]) != name
      && sources[j] in subs[RankName(ranks[j])].posts
      && sources[j] < |pa| && pa'[|pa| + j] == RepostOf(pa[sources[j]], next + j)
  }

  /**
   * The repost loop of subreddit `name`: `|posts| / 5` passes, each drawing
   * a rank and, when that is another rank with posts, one of its posts,
   * whose repost is appended under the next id. Repost `j` copies the post
   * in slot `sources[j]`, which rank `ranks[j]` lists.
   */
  method Repost(name: string, pa: seq<Post>, ca: seq<Comment>, subs: map<string, Subreddit>, ps: map<int, Handle>,
                next: int, k: nat, draw: nat -> nat)
    returns (pa': seq<Post>, subs': map<string, Subreddit>, ps': map<int, Handle>, next': int, k': nat,
             ghost sources: seq<Handle>, ghost ranks: seq<nat>)
    requires name in subs && RanksPresent(subs) && 0 <= next
    requires PostsConsistent(pa, ca, subs, ps, next)
    ensures Tables(subs', pa', next', k') == RepostRun(name, Tables(subs, pa, next, k), |subs[name].posts| / 5, draw)
    ensures PostsConsistent(pa', ca, subs', ps', next')
    ensures |sources| == |ranks| == next' - next <= |subs[name].posts| / 5
    ensures |pa'| == |pa| + |sources| && pa'[..|pa|] == pa
    ensures ps' == ps + SyntheticIndex(next, |pa|, |sources|)
    ensures subs' == subs[name := subs[name].(posts := subs[name].posts + Range(|pa|, |sources|))]
    ensures RepostsRecorded(pa, pa', subs, name, next, sources, ranks)
  {
    ghost var t0 := Tables(subs, pa, next, k);
    ghost var s0 := subs[name];
    var count := |subs[name].posts| / 5;
    pa', subs', ps', next', k' := pa, subs, ps, next, k;
    sources, ranks := [], [];
    RunEmpty(subs, name, |pa|);
    IndexEmpty(ps, next, |pa|);
    ghost var trace := [t0];
    var r := 0;
    while r < count
      invariant 0 <= r <= count
      invariant Trace(name, trace, draw) && |trace| == r + 1 && trace[0] == t0 && trace[r] == Tables(subs', pa', next', k')
      invariant |sources| == |ranks| == next' - next <= r
      invariant |pa'| == |pa| + |sources| && pa'[..|pa|] == pa
      invariant PostsConsistent(pa', ca, subs', ps', next')
      invariant ps' == ps + SyntheticIndex(next, |pa|, |sources|)
      invariant subs' == subs[name := s0.(posts := s0.posts + Range(|pa|, |sources|))]
      invariant RepostsRecorded(pa, pa', subs, name, next, sources, ranks)
    {
      ghost var pa0, subs0, ps0, next0 := pa', subs', ps', next';
      var posted;
      ghost var h, pick;
      pa', subs', ps', next', k', posted, h, pick := RepostPass(name, pa', ca, subs', ps', next', k', draw);
      if posted {
        PrefixKept(pa0, [RepostOf(pa0[h], next0)], |pa|, pa);
        RepostWitness(pa, pa0, subs, name, next, sources, ranks, h, pick, next0);
        ghost var n := |sources|;
        sources, ranks := sources + [h], ranks + [pick];
        RunExtend(subs, name, s0, |pa|, n, |sources|, |pa0|);
        IndexExtend(ps, next, |pa|, n, |sources|, next0, |pa0|);
      }
      TraceExtend(name, trace, r, Tables(subs', pa', next', k'), draw);
      trace := trace + [Tables(subs', pa', next', k')];
      r := r + 1;
    }
    TraceRun(name, trace, r, draw);
  }

  /**
   * One pass of the repost loop of subreddit `name`. Either the drawn rank
   * is `name` itself or has no posts, and only one draw is used; or the
   * post in slot `h`, listed by rank `pick`, is reposted under the next id
   * and appended to `name`'s list, using two draws.
   */
  method RepostPass(name: string, pa: seq<Post>, ca: seq<Comment>, subs: map<string, Subreddit>, ps: map<int, Handle>,
                    next: int, k: nat, draw: nat -> nat)
    returns (pa': seq<Post>, subs': map<string, Subreddit>, ps': map<int, Handle>, next': int, k': nat,
             posted: bool, ghost h: Handle, ghost pick: nat)
    requires name in subs && RanksPresent(subs) && 0 <= next
    requires PostsConsistent(pa, ca, subs, ps, next)
    ensures Tables(subs', pa', next', k') == RepostStep(name, Tables(subs, pa, next, k), draw)
    ensures PostsConsistent(pa', ca, subs', ps', next')
    ensures !posted ==> pa' == pa && subs' == subs && ps' == ps && next' == next && k' == k + 1
    ensures posted ==>
      && 1 <= pick <= Ranks && RankName(pick) != name && h in subs[RankName(pick)].posts && h < |pa|
      && pa' == pa + [RepostOf(pa[h], next)] && next' == next + 1 && k' == k + 2
      && subs' == subs[name := subs[name].(posts := subs[name].posts + [|pa|])] && ps' == ps[next := |pa|]
  {
    ghost var cur := Tables(subs, pa, next, k);
    assert Ready(cur);
    var rank := Intn(draw(k), Ranks) + 1;
    var source := RankName(rank);
    pick := rank;
    if source != name && |subs[source].posts| > 0 {
      var list := subs[source].posts;
      var slot := list[Intn(draw(k + 1), |list|)];
      h := slot;
      var orig := pa[slot];
      var post := Post(next, orig.author, "[Repost] " + orig.content, Half(orig.votes), []);
      PostAdded(pa, ca, subs, ps, next, next + 1, name, post);
      subs' := subs[name := subs[name].(posts := subs[name].posts + [|pa|])];
      ps' := ps[next := |pa|];
      pa' := pa + [post];
      next', k', posted := next + 1, k + 2, true;
    } else {
      pa', subs', ps', next', k', posted, h := pa, subs, ps, next, k + 1, false, 0;
    }
  }

  /** A repost of the post in slot `h`, which another ranked subreddit lists, extends the record of reposts. */
  lemma RepostWitness(pa: seq<Post>, pa': seq<Post>, subs: map<string, Subreddit>, name: string, next: int,
                      sources: seq<Handle>, ranks: seq<nat>, h: Handle, pick: nat, id: int)
    requires RanksPresent(subs) && SubredditsClosed(subs, |pa|)
    requires 1 <= pick <= Ranks && RankName(pick) in subs && RankName(pick) != name && h in subs[RankName(pick)].posts
    requires |pa'| == |pa| + |sources| && pa'[..|pa|] == pa && |ranks| == |sources| && id == next + |sources|
    requires RepostsRecorded(pa, pa', subs, name, next, sources, ranks)
    ensures RepostsRecorded(pa, pa' + [RepostOf(pa'[h], id)], subs, name, next, sources + [h], ranks + [pick])
  {
    assert h < |pa|;
    assert pa'[h] == pa[h];
  }

  /**
   * After the first phase every rank exists; rank i has gained
   * user_1 .. user_(100 / i) as members; every other subreddit is as it was.
   */
  lemma SeededShape(subs: map<string, Subreddit>, base: nat)
    ensures var s := SeededThrough(subs, base, Ranks);
      && s.Keys == subs.Keys + RankNamesUpTo(Ranks)
      && RanksPresent(s)
      && (forall i | 1 <= i <= Ranks :: s[RankName(i)].members == Existing(subs, RankName(i)).members + MemberSet(Members(i)))
      && (forall x | x in subs && x !in RankNamesUpTo(Ranks) :: s[x] == subs[x])
  {
    SeededThroughKeys(subs, base, Ranks);
    forall i | 1 <= i <= Ranks
      ensures RankName(i) in SeededThrough(subs, base, Ranks)
      ensures SeededThrough(subs, base, Ranks)[RankName(i)].members == Existing(subs, RankName(i)).members + MemberSet(Members(i))
    {
      SeededThroughRank(subs, base, Ranks, i);
    }
    forall x | x in subs && x !in RankNamesUpTo(Ranks)
      ensures x in SeededThrough(subs, base, Ranks) && SeededThrough(subs, base, Ranks)[x] == subs[x]
    {
      SeededThroughOthers(subs, base, Ranks, x);
    }
  }

  /**
   * The arena `pa` holds `base` posts and then one repost per entry of
   * `sources`: the `j`-th, under id `next + j`, copies the earlier post in
   * slot `sources[j]`.
   */
  ghost predicate RepostsOfEarlier(pa: seq<Post>, base: nat, next: int, sources: seq<Handle>) {
    && |pa| == base + |sources|
    && forall j {:trigger sources[j]} | 0 <= j < |sources| ::
      sources[j] < base + j && pa[base + j] == RepostOf(pa[sources[j]], next + j)
  }

  /** The reposts of one subreddit's run continue those made before it. */
  lemma RepostsCompose(pa0: seq<Post>, pa1: seq<Post>, subs: map<string, Subreddit>, name: string,
                       base: nat, next: int, id: int, sources: seq<Handle>, added: seq<Handle>, ranks: seq<nat>)
    requires RepostsOfEarlier(pa0, base, next, sources) && id == next + |sources|
    requires RepostsRecorded(pa0, pa1, subs, name, id, added, ranks) && pa1[..|pa0|] == pa0
    ensures RepostsOfEarlier(pa1, base, next, sources + added)
  {
    var all := sources + added;
    forall j | 0 <= j < |all|
      ensures all[j] < base + j && pa1[base + j] == RepostOf(pa1[all[j]], next + j)
    {
      if j < |sources| {
        assert all[j] == sources[j] && pa1[base + j] == pa0[base + j] && pa1[sources[j]] == pa0[sources[j]];
      } else {
        var a := j - |sources|;
        assert all[j] == added[a] && pa1[added[a]] == pa0[added[a]] && base + j == |pa0| + a;
      }
    }
  }

  /** Appending to one subreddit's list keeps every list an extension of its original and every membership. */
  lemma ListsGrow(subs: map<string, Subreddit>, subs0: map<string, Subreddit>, subs1: map<string, Subreddit>,
                  name: string, extra: seq<Handle>)
    requires subs0.Keys == subs.Keys && name in subs0
    requires forall x | x in subs :: subs0[x].members == subs[x].members && subs[x].posts <= subs0[x].posts
    requires subs1 == subs0[name := subs0[name].(posts := subs0[name].posts + extra)]
    ensures forall x | x in subs :: subs1[x].members == subs[x].members && subs[x].posts <= subs1[x].posts
  {
    forall x | x in subs
      ensures subs1[x].members == subs[x].members && subs[x].posts <= subs1[x].posts
    {
      if x == name {
        var before, mid := subs[x].posts, subs0[x].posts;
        assert (mid + extra)[..|before|] == mid[..|before|] == before;
      }
    }
  }

  /**
   * The second phase: the subreddits in `order`, each with at least one
   * post, run their repost loops in turn. Lists only grow, members stay,
   * subreddits not in `order` are untouched, and every post added is a
   * repost of an earlier one, indexed under the next ids.
   */
  method RepostAll(order: seq<string>, pa: seq<Post>, ca: seq<Comment>, subs: map<string, Subreddit>, ps: map<int, Handle>,
                   next: int, k: nat, draw: nat -> nat)
    returns (pa': seq<Post>, subs': map<string, Subreddit>, ps': map<int, Handle>, next': int, k': nat,
             ghost sources: seq<Handle>)
    requires RanksPresent(subs) && 0 <= next && PostsConsistent(pa, ca, subs, ps, next)
    requires forall i | 0 <= i < |order| :: order[i] in subs
    ensures Tables(subs', pa', next', k') == Reposted(order, Tables(subs, pa, next, k), draw)
    ensures PostsConsistent(pa', ca, subs', ps', next')
    ensures subs'.Keys == subs.Keys
    ensures forall x | x in subs :: subs'[x].members == subs[x].members && subs[x].posts <= subs'[x].posts
    ensures forall x | x in subs && x !in order :: subs'[x] == subs[x]
    ensures next' == next + |sources| && |pa'| == |pa| + |sources| && pa'[..|pa|] == pa
    ensures ps' == ps + SyntheticIndex(next, |pa|, |sources|)
    ensures RepostsOfEarlier(pa', |pa|, next, sources)
  {
    ghost var t0 := Tables(subs, pa, next, k);
    pa', subs', ps', next', k' := pa, subs, ps, next, k;
    sources := [];
    ghost var done: set<string> := {};
    IndexEmpty(ps, next, |pa|);
    var i := 0;
    while i < |order|
      invariant 0 <= i <= |order|
      invariant Tables(subs', pa', next', k') == Reposted(order[..i], t0, draw)
      invariant PostsConsistent(pa', ca, subs', ps', next')
      invariant subs'.Keys == subs.Keys
      invariant forall x | x in subs :: subs'[x].members == subs[x].members && subs[x].posts <= subs'[x].posts
      invariant (forall x | x in done :: x in order) && forall x | x in subs && x !in done :: subs'[x] == subs[x]
      invariant next' == next + |sources| && |pa'| == |pa| + |sources| && pa'[..|pa|] == pa
      invariant ps' == ps + SyntheticIndex(next, |pa|, |sources|)
      invariant RepostsOfEarlier(pa', |pa|, next, sources)
    {
      var name := order[i];
      ghost var cur := Tables(subs', pa', next', k');
      RepostedNext(order, t0, i, i + 1, draw, cur);
      if |subs'[name].posts| > 0 {
        ghost var pa0, subs0, ps0, next0 := pa', subs', ps', next';
        ghost var added, ranks;
        pa', subs', ps', next', k', added, ranks := Repost(name, pa', ca, subs', ps', next', k', draw);
        PrefixKept(pa', [], |pa0|, pa0);
        PrefixOfPrefix(pa0, pa', |pa|, pa);
        RepostsCompose(pa0, pa', subs0, name, |pa|, next, next0, sources, added, ranks);
        IndexJoin(ps, ps0, ps', next, |pa|, |sources|, next0, |pa0|, |added|, |sources + added|);
        ListsGrow(subs, subs0, subs', name, Range(|pa0|, |added|));
        sources := sources + added;
      } else {
        assert RepostRun(name, cur, |subs'[name].posts| / 5, draw) == cur;
      }
      done := done + {name};
      ghost var n := i;
      i := i + 1;
      RepostedNext(order, t0, n, i, draw, cur);
    }
    assert order[..i] == order;
  }

  /**
   * Where the `p`-th post seeded into rank `r` ends up: in arena slot
   * `base + SeedBefore(r) + p` under id `next + SeedBefore(r) + p`, indexed
   * under that id and listed by the rank's subreddit, written by one of the
   * subreddit's members who is a registered user, and without comments.
   */
  ghost predicate SeedPlaced(users: map<string, User>, subs: map<string, Subreddit>, pa: seq<Post>, ps: map<int, Handle>,
                             base: nat, next: int, r: nat, p: nat)
    requires 1 <= r <= Ranks
  {
    var h, id := base + SeedBefore(r) + p, next + SeedBefore(r) + p;
    && h < |pa| && pa[h].id == id && id in ps && ps[id] == h
    && RankName(r) in subs && h in subs[RankName(r)].posts
    && pa[h].author in subs[RankName(r)].members && pa[h].author in users
    && pa[h].comments == []
  }

  /**
   * Every seeded post is placed as `SeedPlaced` says once the repost phase
   * is over. `pa1` and `subs1` are the tables between the phases.
   */
  lemma SeedsPlaced(users: map<string, User>, users': map<string, User>, subs: map<string, Subreddit>,
                    subs1: map<string, Subreddit>, subs': map<string, Subreddit>, pa: seq<Post>, added: seq<Post>,
                    pa1: seq<Post>, pa': seq<Post>, ca: seq<Comment>, ps: map<int, Handle>, ps': map<int, Handle>,
                    next: int, n: nat, m: nat, top: int)
    requires subs1 == SeededThrough(subs, |pa|, Ranks)
    requires subs'.Keys == subs1.Keys
    requires forall x | x in subs1 :: subs'[x].members == subs1[x].members && subs1[x].posts <= subs'[x].posts
    requires users'.Keys == users.Keys + EnrolledUpTo(Ranks)
    requires forall r, p | 1 <= r <= Ranks && 0 <= p < SeedCount(r) :: WrittenByMember(pa1, |pa|, r, p)
    requires forall h | |pa| <= h < |pa1| :: pa1[h].comments == []
    requires pa1 == pa + added && |added| == SeedBefore(Ranks + 1)
    requires |pa'| == |pa1| + m && pa'[..|pa1|] == pa1
    requires ps' == ps + SyntheticIndex(next, |pa|, n) && n == SeedBefore(Ranks + 1) + m
    requires PostsConsistent(pa', ca, subs', ps', top)
    ensures forall r, p | 1 <= r <= Ranks && 0 <= p < SeedCount(r) :: SeedPlaced(users', subs', pa', ps', |pa|, next, r, p)
  {
    EnrolledAll(Ranks);
    assert |pa1| - |pa| <= n;
    forall r, p | 1 <= r <= Ranks && 0 <= p < SeedCount(r) ensures SeedPlaced(users', subs', pa', ps', |pa|, next, r, p) {
      SeedPlacedAt(users', subs, subs1, subs', pa, pa1, pa', ps, ps', next, n, r, p);
    }
  }

  /** One seeded post, the `p`-th of rank `r`, is placed as `SeedPlaced` says. */
  lemma SeedPlacedAt(users': map<string, User>, subs: map<string, Subreddit>, subs1: map<string, Subreddit>,
                     subs': map<string, Subreddit>, pa: seq<Post>, pa1: seq<Post>, pa': seq<Post>,
                     ps: map<int, Handle>, ps': map<int, Handle>, next: int, n: nat, r: nat, p: nat)
    requires 1 <= r <= Ranks && 0 <= p < SeedCount(r)
    requires subs1 == SeededThrough(subs, |pa|, Ranks)
    requires forall x | x in subs1 :: x in subs' && subs'[x].members == subs1[x].members && subs1[x].posts <= subs'[x].posts
    requires MemberSet(Members(1)) <= users'.Keys
    requires WrittenByMember(pa1, |pa|, r, p)
    requires forall h | |pa| <= h < |pa1| :: pa1[h].comments == []
    requires |pa| <= |pa1| <= |pa'| && pa'[..|pa1|] == pa1
    requires ps' == ps + SyntheticIndex(next, |pa|, n) && |pa1| - |pa| <= n && Indexed(pa', ps')
    ensures SeedPlaced(users', subs', pa', ps', |pa|, next, r, p)
  {
    var h, id, name := |pa| + SeedBefore(r) + p, next + SeedBefore(r) + p, RankName(r);
    assert pa'[h] == pa'[..|pa1|][h] == pa1[h];
    SyntheticIndexHas(next, |pa|, n);
    assert id in ps' && ps'[id] == h;
    SeededThroughRank(subs, |pa|, Ranks, r);
    var e := Existing(subs, name);
    assert subs1[name].posts[|e.posts| + p] == h;
    assert h in subs'[name].posts by {
      assert subs'[name].posts[|e.posts| + p] == h;
    }
    MembersHarmonic(r);
    MemberSetMonotone(Members(r), Members(1));
  }

  /**
   * Both phases leave the posts the arena held before untouched, and no post
   * they add has comments: seeded posts start without, reposts too.
   */
  lemma ArenaExtended(pa: seq<Post>, added: seq<Post>, pa1: seq<Post>, pa': seq<Post>, ca: seq<Comment>, next1: int,
                       reposts: seq<Handle>)
    requires pa1 == pa + added
    requires forall h | |pa| <= h < |pa1| :: pa1[h].comments == []
    requires |pa'| == |pa1| + |reposts| && pa'[..|pa1|] == pa1 && RepostsOfEarlier(pa', |pa1|, next1, reposts)
    ensures forall h | 0 <= h < |pa| :: pa'[h] == pa[h]
    ensures forall h | |pa| <= h < |pa'| :: pa'[h].comments == []
    ensures CommentsOwned(pa, ca) ==> CommentsOwned(pa', ca)
  {
    forall h | 0 <= h < |pa| ensures pa'[h] == pa[h] {
      assert pa'[h] == pa'[..|pa1|][h] == pa1[h];
    }
    forall h | |pa| <= h < |pa'| ensures pa'[h].comments == [] {
      if h < |pa1| {
        assert pa'[h] == pa'[..|pa1|][h];
      } else {
        var j := h - |pa1|;
        assert reposts[j] < |pa1| + j;
      }
    }
    if CommentsOwned(pa, ca) {
      OwnedPosts(pa, pa', ca);
    }
  }

  /**
   * Both phases of the generator on the engine's tables: seeding from post
   * id `next` with the draws from 0, then the repost phase in map order
   * `order`.
   */
  method Simulate(order: seq<string>, users: map<string, User>, subs: map<string, Subreddit>, pa: seq<Post>,
                  ca: seq<Comment>, ps: map<int, Handle>, next: int, draw: nat -> nat)
    returns (users': map<string, User>, subs': map<string, Subreddit>, pa': seq<Post>, ps': map<int, Handle>,
             next': int, ghost seeded: Tables, ghost draws: nat, ghost reposts: seq<Handle>)
    requires 0 <= next && PostsConsistent(pa, ca, subs, ps, next)
    requires ListsSubreddits(order, subs.Keys)
    ensures PostsConsistent(pa', ca, subs', ps', next') && next <= next'
    ensures users'.Keys == users.Keys + MemberSet(Members(1))
    ensures forall u | u in users :: users'[u] == users[u]
    ensures forall u | u in users' && u !in users :: users'[u] == User("", 0, [])
    ensures seeded == Tables(SeededThrough(subs, |pa|, Ranks), pa + SeedsThrough(Ranks, next, draw),
                             next + SeedBefore(Ranks + 1), 2 * SeedBefore(Ranks + 1))
    ensures Ready(seeded) && seeded.subs.Keys == subs.Keys + RankNamesUpTo(Ranks)
    ensures forall i | 0 <= i < |order| :: order[i] in seeded.subs
    ensures Tables(subs', pa', next', draws) == Reposted(order, seeded, draw)
    ensures forall x | x in subs && x !in RankNamesUpTo(Ranks) ::
      subs'[x].members == subs[x].members && subs[x].posts <= subs'[x].posts
    ensures forall i | 1 <= i <= Ranks ::
      RankName(i) in subs' && subs'[RankName(i)].members == Existing(subs, RankName(i)).members + MemberSet(Members(i))
    ensures next' == next + SeedBefore(Ranks + 1) + |reposts|
    ensures RepostsOfEarlier(pa', |pa| + SeedBefore(Ranks + 1), next + SeedBefore(Ranks + 1), reposts)
    ensures pa'[..|pa| + SeedBefore(Ranks + 1)] == pa + SeedsThrough(Ranks, next, draw)
    ensures ps' == ps + SyntheticIndex(next, |pa|, next' - next)
    ensures forall r, p | 1 <= r <= Ranks && 0 <= p < SeedCount(r) :: SeedPlaced(users', subs', pa', ps', |pa|, next, r, p)
    ensures forall h | |pa| <= h < |pa'| :: pa'[h].comments == []
    ensures CommentsOwned(pa, ca) ==> CommentsOwned(pa', ca)
  {
    var subs1, pa1, ps1, next1, k1;
    users', subs1, pa1, ps1, next1, k1 := SeedRanks(users, subs, pa, ca, ps, next, draw);
    EnrolledAll(Ranks);
    SeededShape(subs, |pa|);
    forall i | 0 <= i < |order|
      ensures order[i] in subs1
    {
    }
    var k';
    pa', subs', ps', next', k', reposts := RepostAll(order, pa1, ca, subs1, ps1, next1, k1, draw);
    IndexJoin(ps, ps1, ps', next, |pa|, SeedBefore(Ranks + 1), next1, |pa1|, |reposts|, next' - next);
    SeedsPlaced(users, users', subs, subs1, subs', pa, SeedsThrough(Ranks, next, draw), pa1, pa', ca, ps, ps', next,
                next' - next, |reposts|, next');
    ArenaExtended(pa, SeedsThrough(Ranks, next, draw), pa1, pa', ca, next1, reposts);
    seeded, draws := Tables(subs1, pa1, next1, k1), k';
  }
}
