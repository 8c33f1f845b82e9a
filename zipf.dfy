/**
 * Names, sizes and record shapes of the synthetic Zipf workload: ten
 * subreddits by rank, rank i with 100/i members and (100/i)/10 seeded posts,
 * then reposts that copy a post from another rank at half its votes.
 */
module Zipf {
  import opened Decimal
  import opened Sequences
  import opened Forum

  const Ranks: nat := 10

  function RankName(i: nat): string {
    "subreddit_" + NatToDecimal(i)
  }

  function UserName(j: nat): string {
    "user_" + NatToDecimal(j)
  }

  /**
   * The number of members of rank `i`: harmonic decay, 100 for rank 1. The
   * generator computes `100 / i`; the ten values are kept as a table, and
   * `MembersHarmonic` shows each is that quotient.
   */
  const MemberCounts: seq<nat> := [100, 50, 33, 25, 20, 16, 14, 12, 11, 10]

  function Members(i: nat): (m: nat)
    requires 1 <= i <= Ranks
    ensures 10 <= m <= 100
  {
    MemberCounts[i - 1]
  }

  /** Rank `i` has `100 / i` members, rounded down. */
  lemma MembersHarmonic(i: nat)
    requires 1 <= i <= Ranks
    ensures Members(i) == 100 / i
  {
    assert i in {1, 2, 3, 4, 5, 6, 7, 8, 9, 10};
  }

  /** The number of posts seeded into rank `i`. */
  function SeedCount(i: nat): (c: nat)
    requires 1 <= i <= Ranks
    ensures c <= Members(i)
  {
    Members(i) / 10
  }

  /**
   * Posts seeded into the ranks before `i`, for i from 1 to 11: the seeded
   * posts of rank `i` start at this offset. Kept as a table; `SeedBeforeStep`
   * ties each entry to the post counts of the ranks.
   */
  const SeedOffsets: seq<nat> := [0, 10, 15, 18, 20, 22, 23, 24, 25, 26, 27]

  function SeedBefore(i: nat): nat
    requires 1 <= i <= Ranks + 1
  {
    SeedOffsets[i - 1]
  }

  /** No post precedes rank 1, and rank `i` adds its own seeded posts to the offset. */
  lemma SeedBeforeStep(i: nat)
    requires 1 <= i <= Ranks
    ensures SeedBefore(1) == 0
    ensures SeedBefore(i + 1) == SeedBefore(i) + SeedCount(i)
  {
    assert i in {1, 2, 3, 4, 5, 6, 7, 8, 9, 10};
  }

  /** The ten ranks seed 10 + 5 + 3 + 2 + 2 + 1 + 1 + 1 + 1 + 1 posts. */
  lemma {:induction false} SeedTotal(m: nat)
    requires m <= Ranks
    ensures SeedBefore(m + 1) == SeedSum(m)
  {
    if m > 0 {
      SeedTotal(m - 1);
      SeedBeforeStep(m);
    }
  }

  /** The seeded posts of ranks 1 up to `m`, added one rank at a time. */
  function SeedSum(m: nat): nat
    requires m <= Ranks
  {
    if m == 0 then 0 else SeedSum(m - 1) + SeedCount(m)
  }

  /** The members rank `i` receives: user_1 up to user_m. */
  function MemberSet(m: nat): set<string> {
    set j | 1 <= j <= m :: UserName(j)
  }

  /** user_j is among user_1 .. user_m exactly when 1 <= j <= m. */
  lemma MemberSetHas(m: nat, j: nat)
    ensures UserName(j) in MemberSet(m) <==> 1 <= j <= m
  {
    if UserName(j) in MemberSet(m) {
      var i :| 1 <= i <= m && UserName(i) == UserName(j);
      UserNameInjective(i, j);
    }
  }

  /** user_1 .. user_m are user_1 .. user_(m - 1) and user_m. */
  lemma MemberSetStep(m: nat)
    requires 1 <= m
    ensures MemberSet(m) == MemberSet(m - 1) + {UserName(m)}
  {
    forall u | u in MemberSet(m) ensures u in MemberSet(m - 1) + {UserName(m)} {
      var i :| 1 <= i <= m && u == UserName(i);
      if i < m {
        assert u in MemberSet(m - 1);
      }
    }
  }

  /**
   * `rand.Intn(n)` on the draw `v`: the draw reduced below `n`, written as
   * repeated subtraction so that the remainder stays linear arithmetic.
   */
  function Intn(v: nat, n: nat): (r: nat)
    requires 1 <= n
    ensures r < n
    decreases v
  {
    if v < n then v else Intn(v - n, n)
  }

  /** The reduction is the remainder of `v` by `n`: `Intn` is Go's `%` on naturals. */
  lemma {:induction false} IntnIsRemainder(v: nat, n: nat)
    requires 1 <= n
    ensures Intn(v, n) == v % n
    decreases v
  {
    if v >= n {
      IntnIsRemainder(v - n, n);
      var q, r := (v - n) / n, (v - n) % n;
      assert v == (q + 1) * n + r by {
        assert v - n == q * n + r;
      }
      DivisionUnique(v, n, q + 1, r);
    }
  }

  /** Writing `v` as `q * n + r` with `0 <= r < n` determines the quotient and the remainder. */
  lemma DivisionUnique(v: nat, n: nat, q: int, r: int)
    requires 1 <= n && 0 <= r < n && v == q * n + r
    ensures v / n == q && v % n == r
  {
    var q', r' := v / n, v % n;
    assert (q' - q) * n == r - r';
    MultipleAtLeast(q' - q, n);
    MultipleAtLeast(q - q', n);
  }

  /** A positive multiple of a natural number is at least that number. */
  lemma MultipleAtLeast(k: int, n: nat)
    ensures k >= 1 ==> k * n >= n
  {
    if k >= 1 {
      assert k * n == (k - 1) * n + n;
    }
  }

  /** Go's `v / 2` on int: the quotient truncated toward zero. */
  function Half(v: int): (r: int)
    ensures v >= 0 ==> 0 <= 2 * r <= v && v - 2 * r <= 1
    ensures v < 0 ==> v <= 2 * r <= 0 && 2 * r - v <= 1
  {
    if v >= 0 then v / 2 else -((-v) / 2)
  }

  /** A repost of `orig` under the id `id`: same author, prefixed content, half the votes, no comments. */
  function RepostOf(orig: Post, id: int): Post {
    Post(id, orig.author, "[Repost] " + orig.content, Half(orig.votes), [])
  }

  /** The content of the seeded post `id` of subreddit `name` written by `author`. */
  function SeedContent(id: int, name: string, author: string): string {
    Format([Str("Post "), Int(id), Str(" in "), Str(name), Str(" by "), Str(author)])
  }

  lemma PrefixedInjective(p: string, a: string, b: string)
    ensures p + a == p + b ==> a == b
  {
    if p + a == p + b {
      assert a == (p + a)[|p|..];
      assert b == (p + b)[|p|..];
    }
  }

  lemma RankNameInjective(a: nat, b: nat)
    ensures RankName(a) == RankName(b) ==> a == b
  {
    PrefixedInjective("subreddit_", NatToDecimal(a), NatToDecimal(b));
    NatToDecimalInjective(a, b);
  }

  lemma UserNameInjective(a: nat, b: nat)
    ensures UserName(a) == UserName(b) ==> a == b
  {
    PrefixedInjective("user_", NatToDecimal(a), NatToDecimal(b));
    NatToDecimalInjective(a, b);
  }

  /** user_1 .. user_m are m distinct names. */
  lemma {:induction false} MemberSetSize(m: nat)
    ensures |MemberSet(m)| == m
    decreases m
  {
    if m > 0 {
      MemberSetSize(m - 1);
      MemberSetHas(m - 1, m);
      MemberSetStep(m);
    }
  }

  /** A rank with fewer members enrols a subset of the users a larger rank enrols. */
  lemma MemberSetMonotone(a: nat, b: nat)
    requires a <= b
    ensures MemberSet(a) <= MemberSet(b)
  {
  }

  /**
   * A rank the workload creates ends with exactly 100 / i members: 100 for
   * subreddit_1, 10 for subreddit_10.
   */
  lemma FreshRankSize(subs: map<string, Subreddit>, i: nat)
    requires 1 <= i <= Ranks && RankName(i) !in subs
    ensures |Existing(subs, RankName(i)).members + MemberSet(Members(i))| == 100 / i
  {
    assert Existing(subs, RankName(i)).members + MemberSet(Members(i)) == MemberSet(Members(i));
    MemberSetSize(Members(i));
    MembersHarmonic(i);
  }

  /**
   * A seeded post of the subreddit `name`, which has `members` members: the
   * author is user_1 .. user_`members` as the first draw picks, the votes
   * are the second draw below 100.
   */
  function SeedPost(name: string, members: nat, id: int, authorDraw: nat, votesDraw: nat): (p: Post)
    requires 1 <= members
    ensures p.id == id && p.comments == []
    ensures p.author in MemberSet(members)
    ensures 0 <= p.votes < 100
  {
    var author := UserName(Intn(authorDraw, members) + 1);
    MemberSetHas(members, Intn(authorDraw, members) + 1);
    Post(id, author, SeedContent(id, name, author), Intn(votesDraw, 100), [])
  }

  /** The subreddit `name` of `subs`, or a fresh empty one when absent. */
  function Existing(subs: map<string, Subreddit>, name: string): Subreddit {
    if name in subs then subs[name] else Subreddit({}, [])
  }

  /**
   * The subreddit of rank `i` after its seeding, from `s` as it was before:
   * the rank's members added, and the handles of its seeded posts, which
   * start at `base`, appended.
   */
  function Seeded(s: Subreddit, base: nat, i: nat): Subreddit
    requires 1 <= i <= Ranks
  {
    Subreddit(s.members + MemberSet(Members(i)), s.posts + Range(base, SeedCount(i)))
  }

  /** The handles `start`, `start + 1`, ..., `start + n - 1`. */
  function Range(start: nat, n: nat): (r: seq<Handle>)
    ensures |r| == n
    ensures forall p | 0 <= p < n :: r[p] == start + p
  {
    if n == 0 then [] else Range(start, n - 1) + [start + n - 1]
  }

  /**
   * The `n` posts seeded into the subreddit `name` of `members` members,
   * ids from `id` on, taking two draws each from `d` on: first the author,
   * then the votes.
   */
  function Seeds(name: string, members: nat, id: int, d: nat, n: nat, draw: nat -> nat): (r: seq<Post>)
    requires 1 <= members
    ensures |r| == n
  {
    if n == 0 then []
    else Seeds(name, members, id, d, n - 1, draw) + [SeedPost(name, members, id + (n - 1), draw(d + 2 * (n - 1)), draw(d + 2 * (n - 1) + 1))]
  }

  /** Seeding one more post appends it after the posts already seeded. */
  lemma SeedsGrow(name: string, members: nat, id: int, d: nat, n: nat, draw: nat -> nat, acc: seq<Post>, id': int, d': nat)
    requires 1 <= members && id' == id + n && d' == d + 2 * n
    ensures (acc + Seeds(name, members, id, d, n, draw)) + [SeedPost(name, members, id', draw(d'), draw(d' + 1))]
         == acc + Seeds(name, members, id, d, n + 1, draw)
  {
    Reassociate(acc, Seeds(name, members, id, d, n, draw), [SeedPost(name, members, id', draw(d'), draw(d' + 1))]);
  }

  /** No seeded posts leave a sequence as it is. */
  lemma SeedsNone(name: string, members: nat, id: int, d: nat, draw: nat -> nat, acc: seq<Post>)
    requires 1 <= members
    ensures acc + Seeds(name, members, id, d, 0, draw) == acc
  {
    assert acc + [] == acc;
  }

  /** Every seeded post is written by a member, has no comments and fewer than 100 votes. */
  lemma {:induction false} SeedsWellFormed(name: string, members: nat, id: int, d: nat, n: nat, draw: nat -> nat)
    requires 1 <= members
    ensures forall q | q in Seeds(name, members, id, d, n, draw) ::
      q.author in MemberSet(members) && q.comments == [] && 0 <= q.votes < 100
    decreases n
  {
    if n > 0 {
      SeedsWellFormed(name, members, id, d, n - 1, draw);
    }
  }

  /** The seeded posts carry consecutive ids: the `p`-th one has id `id + p`. */
  lemma {:induction false} SeedsIds(name: string, members: nat, id: int, d: nat, n: nat, draw: nat -> nat)
    requires 1 <= members
    ensures forall p | 0 <= p < n :: Seeds(name, members, id, d, n, draw)[p].id == id + p
    decreases n
  {
    if n > 0 {
      SeedsIds(name, members, id, d, n - 1, draw);
    }
  }

  /**
   * The posts seeded into ranks 1 .. `m`, in order: rank `r` seeds its posts
   * after those of the ranks before it, with the ids and the draws that follow
   * theirs. Ids start at `id` and draws at 0.
   */
  function SeedsThrough(m: nat, id: int, draw: nat -> nat): (s: seq<Post>)
    requires m <= Ranks
    ensures |s| == SeedBefore(m + 1)
  {
    if m == 0 then []
    else
      SeedBeforeStep(m);
      SeedsThrough(m - 1, id, draw)
      + Seeds(RankName(m), Members(m), id + SeedBefore(m), 2 * SeedBefore(m), SeedCount(m), draw)
  }

  /**
   * The subreddits once ranks 1 .. `m` are seeded, in order, into `subs`;
   * the seeded posts of all ranks start at arena slot `base`.
   */
  function SeededThrough(subs: map<string, Subreddit>, base: nat, m: nat): map<string, Subreddit>
    requires m <= Ranks
  {
    if m == 0 then subs
    else
      var prev := SeededThrough(subs, base, m - 1);
      prev[RankName(m) := Seeded(Existing(prev, RankName(m)), base + SeedBefore(m), m)]
  }

  /** Seeding ranks 1 .. `m` adds exactly their names to the subreddits. */
  lemma {:induction false} SeededThroughKeys(subs: map<string, Subreddit>, base: nat, m: nat)
    requires m <= Ranks
    ensures SeededThrough(subs, base, m).Keys == subs.Keys + RankNamesUpTo(m)
  {
    if m > 0 {
      SeededThroughKeys(subs, base, m - 1);
      RankNamesStep(m);
    }
  }

  /** A subreddit whose name is not among ranks 1 .. `m` is left as it was. */
  lemma {:induction false} SeededThroughOthers(subs: map<string, Subreddit>, base: nat, m: nat, x: string)
    requires m <= Ranks
    requires x in subs && x !in RankNamesUpTo(m)
    ensures x in SeededThrough(subs, base, m) && SeededThrough(subs, base, m)[x] == subs[x]
  {
    if m > 0 {
      SeededThroughOthers(subs, base, m - 1, x);
    }
  }

  /**
   * Rank `r` among 1 .. `m` holds what it held before the seeding (or
   * nothing), plus its members and the handles of its own seeded posts:
   * seeding a later rank does not touch it.
   */
  lemma {:induction false} SeededThroughRank(subs: map<string, Subreddit>, base: nat, m: nat, r: nat)
    requires 1 <= r <= m <= Ranks
    ensures RankName(r) in SeededThrough(subs, base, m)
    ensures SeededThrough(subs, base, m)[RankName(r)] == Seeded(Existing(subs, RankName(r)), base + SeedBefore(r), r)
  {
    if r == m {
      SeededThroughLatest(subs, base, m);
    } else {
      SeededThroughRank(subs, base, m - 1, r);
      RankNameInjective(r, m);
      var prev := SeededThrough(subs, base, m - 1);
      assert SeededThrough(subs, base, m)
          == prev[RankName(m) := Seeded(Existing(prev, RankName(m)), base + SeedBefore(m), m)];
    }
  }

  /** The rank seeded last finds itself as it was in `subs`: no earlier rank has its name. */
  lemma SeededThroughLatest(subs: map<string, Subreddit>, base: nat, m: nat)
    requires 1 <= m <= Ranks
    ensures Existing(SeededThrough(subs, base, m - 1), RankName(m)) == Existing(subs, RankName(m))
    ensures SeededThrough(subs, base, m)[RankName(m)] == Seeded(Existing(subs, RankName(m)), base + SeedBefore(m), m)
  {
    RankNamesUpToHas(m - 1, m);
    if RankName(m) in subs {
      SeededThroughOthers(subs, base, m - 1, RankName(m));
    } else {
      SeededThroughKeys(subs, base, m - 1);
    }
  }

  /** The names of ranks 1 .. `m`. */
  function RankNamesUpTo(m: nat): set<string> {
    set j | 1 <= j <= m :: RankName(j)
  }

  /** subreddit_j is among the first `m` rank names exactly when 1 <= j <= m. */
  lemma RankNamesUpToHas(m: nat, j: nat)
    ensures RankName(j) in RankNamesUpTo(m) <==> 1 <= j <= m
  {
    if RankName(j) in RankNamesUpTo(m) {
      var i :| 1 <= i <= m && RankName(i) == RankName(j);
      RankNameInjective(i, j);
    }
  }

  /** The names of ranks 1 .. m are those of ranks 1 .. m - 1 and subreddit_m. */
  lemma RankNamesStep(m: nat)
    requires 1 <= m
    ensures RankNamesUpTo(m) == RankNamesUpTo(m - 1) + {RankName(m)}
  {
    forall x | x in RankNamesUpTo(m) ensures x in RankNamesUpTo(m - 1) + {RankName(m)} {
      var i :| 1 <= i <= m && x == RankName(i);
      if i < m {
        assert x in RankNamesUpTo(m - 1);
      }
    }
  }

  /** The users enrolled by ranks 1 .. `m`. */
  function EnrolledUpTo(m: nat): set<string>
    requires m <= Ranks
  {
    if m == 0 then {} else EnrolledUpTo(m - 1) + MemberSet(Members(m))
  }

  /**
   * Rank 1 has the most members, so once it is done the users enrolled are
   * exactly user_1 .. user_100.
   */
  lemma {:induction false} EnrolledAll(m: nat)
    requires 1 <= m <= Ranks
    ensures EnrolledUpTo(m) == MemberSet(Members(1))
  {
    if m > 1 {
      EnrolledAll(m - 1);
      MemberSetMonotone(Members(m), Members(1));
    }
  }

  /**
   * The index entries the generator writes: ids `start` .. `start + n - 1`
   * naming the arena slots `base` .. `base + n - 1`.
   */
  function SyntheticIndex(start: int, base: nat, n: nat): map<int, Handle> {
    if n == 0 then map[] else SyntheticIndex(start, base, n - 1)[start + n - 1 := base + n - 1]
  }

  /** The synthetic index holds exactly the ids of the run, each naming its own slot. */
  lemma {:induction false} SyntheticIndexHas(start: int, base: nat, n: nat)
    ensures forall id :: id in SyntheticIndex(start, base, n) <==> start <= id < start + n
    ensures forall id | id in SyntheticIndex(start, base, n) :: SyntheticIndex(start, base, n)[id] == base + (id - start)
  {
    if n > 0 {
      SyntheticIndexHas(start, base, n - 1);
    }
  }

  /** Writing the next synthetic entry extends the synthetic index by one. */
  lemma IndexExtend(m: map<int, Handle>, start: int, base: nat, n: nat, n': nat, id: int, h: Handle)
    requires id == start + n && h == base + n && n' == n + 1
    ensures (m + SyntheticIndex(start, base, n))[id := h] == m + SyntheticIndex(start, base, n')
  {
  }

  /** An empty run of handles leaves the subreddit as it is. */
  lemma RunEmpty(subs: map<string, Subreddit>, name: string, start: nat)
    requires name in subs
    ensures subs[name := subs[name].(posts := subs[name].posts + Range(start, 0))] == subs
  {
    assert subs[name].posts + Range(start, 0) == subs[name].posts;
  }

  /** Appending the next handle to a subreddit whose list has grown by a run of handles extends the run. */
  lemma RunExtend(subs: map<string, Subreddit>, name: string, s: Subreddit, start: nat, n: nat, n': nat, h: Handle)
    requires h == start + n && n' == n + 1
    ensures var cur := subs[name := s.(posts := s.posts + Range(start, n))];
      cur[name := cur[name].(posts := cur[name].posts + [h])] == subs[name := s.(posts := s.posts + Range(start, n'))]
  {
    Reassociate(s.posts, Range(start, n), [h]);
  }

  /** No synthetic entries leave the index as it is. */
  lemma IndexEmpty(m: map<int, Handle>, start: int, base: nat)
    ensures m + SyntheticIndex(start, base, 0) == m
  {
  }

  /** Two runs of synthetic entries, the second continuing the first, are one run. */
  lemma IndexCompose(m: map<int, Handle>, start: int, base: nat, n1: nat, n2: nat)
    ensures (m + SyntheticIndex(start, base, n1)) + SyntheticIndex(start + n1, base + n1, n2)
         == m + SyntheticIndex(start, base, n1 + n2)
  {
    var lhs := (m + SyntheticIndex(start, base, n1)) + SyntheticIndex(start + n1, base + n1, n2);
    var rhs := m + SyntheticIndex(start, base, n1 + n2);
    SyntheticIndexHas(start, base, n1);
    SyntheticIndexHas(start + n1, base + n1, n2);
    SyntheticIndexHas(start, base, n1 + n2);
    forall id
      ensures id in lhs <==> id in rhs
    {
      assert id in lhs <==> id in m || id in SyntheticIndex(start, base, n1) || id in SyntheticIndex(start + n1, base + n1, n2);
    }
    assert lhs.Keys == rhs.Keys;
    forall id | id in lhs ensures lhs[id] == rhs[id] {
    }
  }

  /** The handles of two consecutive runs are one run. */
  lemma RangeCompose(start: nat, n1: nat, n2: nat)
    ensures Range(start, n1) + Range(start + n1, n2) == Range(start, n1 + n2)
  {
    var lhs, rhs := Range(start, n1) + Range(start + n1, n2), Range(start, n1 + n2);
    forall p | 0 <= p < |rhs| ensures lhs[p] == rhs[p] {
    }
  }
}
