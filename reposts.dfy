/**
 * The second phase of the Zipf workload as functions on values: every
 * subreddit in turn receives reposts of posts drawn from the other ranked
 * subreddits. The k-th random draw of a run is `draw(k)`.
 */
module Reposts {
  import opened Sequences
  import opened Forum
  import opened Zipf
  import opened EngineState

  /** All ten ranked subreddits exist. */
  ghost predicate RanksPresent(subs: map<string, Subreddit>) {
    forall r | 1 <= r <= Ranks :: RankName(r) in subs
  }

  /**
   * Every name in `order` is one of the subreddits `keys` or a rank, so
   * names a subreddit once the ranks are added. A walk over the map of
   * subreddits after the first phase, which visits every key exactly once,
   * is such a listing; so is any listing with names repeated or left out,
   * and what is proved for all of them holds in particular for the walk.
   */
  ghost predicate ListsSubreddits(order: seq<string>, keys: set<string>) {
    forall i | 0 <= i < |order| :: order[i] in keys + RankNamesUpTo(Ranks)
  }

  /**
   * The tables the repost phase changes: the subreddits, the post arena,
   * the next post id and the number of draws taken so far.
   */
  datatype Tables = Tables(subs: map<string, Subreddit>, pa: seq<Post>, next: int, k: nat)

  /** The tables a repost phase can work on: the ranks exist and every subreddit lists posts of the arena. */
  ghost predicate Ready(t: Tables) {
    RanksPresent(t.subs) && SubredditsClosed(t.subs, |t.pa|)
  }

  /** The handle `h` is listed by a ranked subreddit other than `name`. */
  ghost predicate FromOtherRank(subs: map<string, Subreddit>, name: string, h: Handle) {
    exists r | 1 <= r <= Ranks && RankName(r) in subs :: RankName(r) != name && h in subs[RankName(r)].posts
  }

  /**
   * One pass of the repost loop of subreddit `name`: a rank is drawn; unless
   * it is `name` itself or has no posts, one of its posts is drawn and a
   * repost of it is appended to the arena and to `name`'s list under the
   * next id.
   */
  function RepostStep(name: string, t: Tables, draw: nat -> nat): (r: Tables)
    requires name in t.subs && Ready(t)
    ensures r.subs.Keys == t.subs.Keys && Ready(r)
  {
    var source := RankName(Intn(draw(t.k), Ranks) + 1);
    if source == name || |t.subs[source].posts| == 0 then
      t.(k := t.k + 1)
    else
      var list := t.subs[source].posts;
      var h := list[Intn(draw(t.k + 1), |list|)];
      var s := t.subs[name];
      SubredditsWiden(t.subs, |t.pa|, |t.pa| + 1);
      SubredditAppend(t.subs, |t.pa| + 1, name, s, |t.pa|);
      Tables(t.subs[name := s.(posts := s.posts + [|t.pa|])], t.pa + [RepostOf(t.pa[h], t.next)], t.next + 1, t.k + 2)
  }

  /**
   * One pass changes only `name`'s list, appends at most one post, and that
   * post, under the next id, reposts a post some other ranked subreddit
   * lists; one draw is taken, or two when a post is picked.
   */
  lemma RepostStepEffect(name: string, t: Tables, draw: nat -> nat)
    requires name in t.subs && Ready(t)
    ensures var r := RepostStep(name, t, draw);
      && (forall x | x in t.subs && x != name :: r.subs[x] == t.subs[x])
      && r.subs[name].members == t.subs[name].members
      && |t.pa| <= |r.pa| <= |t.pa| + 1 && r.pa[..|t.pa|] == t.pa
      && r.next == t.next + (|r.pa| - |t.pa|)
      && r.subs[name].posts == t.subs[name].posts + Range(|t.pa|, |r.pa| - |t.pa|)
      && r.k == t.k + 1 + (|r.pa| - |t.pa|)
      && (|r.pa| > |t.pa| ==>
            exists h | 0 <= h < |t.pa| && FromOtherRank(t.subs, name, h) :: r.pa[|t.pa|] == RepostOf(t.pa[h], t.next))
  {
    var source := RankName(Intn(draw(t.k), Ranks) + 1);
    if source != name && |t.subs[source].posts| != 0 {
      var list := t.subs[source].posts;
      var h := list[Intn(draw(t.k + 1), |list|)];
      assert FromOtherRank(t.subs, name, h);
      assert t.subs[name].posts + Range(|t.pa|, 1) == t.subs[name].posts + [|t.pa|];
    } else {
      assert t.subs[name].posts + Range(|t.pa|, 0) == t.subs[name].posts;
    }
  }

  /** `n` passes of the repost loop of subreddit `name`. */
  function RepostRun(name: string, t: Tables, n: nat, draw: nat -> nat): (r: Tables)
    requires name in t.subs && Ready(t)
    ensures r.subs.Keys == t.subs.Keys
    ensures Ready(r)
  {
    if n == 0 then t else RepostStep(name, RepostRun(name, t, n - 1, draw), draw)
  }

  /**
   * `trace` lists the tables a run of passes goes through: each entry is
   * ready for a pass of `name`, and each one after the first is the pass
   * applied to the entry before it.
   */
  ghost predicate Trace(name: string, trace: seq<Tables>, draw: nat -> nat) {
    && (forall i | 0 <= i < |trace| :: name in trace[i].subs && Ready(trace[i]))
    && (forall i | 0 <= i < |trace| - 1 :: trace[i + 1] == RepostStep(name, trace[i], draw))
  }

  /** A trace grows by the pass applied to its last entry. */
  lemma TraceExtend(name: string, trace: seq<Tables>, last: nat, t: Tables, draw: nat -> nat)
    requires Trace(name, trace, draw) && last == |trace| - 1
    ensures name in trace[last].subs && Ready(trace[last])
    ensures t == RepostStep(name, trace[last], draw) ==> Trace(name, trace + [t], draw)
  {
    if t == RepostStep(name, trace[last], draw) {
      var next := trace + [t];
      forall i | 0 <= i < |next| - 1
        ensures next[i + 1] == RepostStep(name, next[i], draw)
      {
        if i < last {
          assert next[i] == trace[i] && next[i + 1] == trace[i + 1];
        } else {
          assert next[i] == trace[last] && next[i + 1] == t;
        }
      }
    }
  }

  /** The `n`-th entry of a trace is what a run of `n` passes makes of its first entry. */
  lemma {:induction false} TraceRun(name: string, trace: seq<Tables>, n: nat, draw: nat -> nat)
    requires Trace(name, trace, draw) && n < |trace|
    ensures name in trace[0].subs && Ready(trace[0])
    ensures trace[n] == RepostRun(name, trace[0], n, draw)
  {
    if n > 0 {
      TraceRun(name, trace, n - 1, draw);
      assert trace[n] == RepostStep(name, trace[n - 1], draw);
    }
  }

  /**
   * The repost phase over the subreddits in `order`, the order in which the
   * map of subreddits is walked: each runs `|posts| / 5` passes, counted
   * from its list as its turn begins.
   */
  function Reposted(order: seq<string>, t: Tables, draw: nat -> nat): (r: Tables)
    requires Ready(t) && forall i | 0 <= i < |order| :: order[i] in t.subs
    ensures r.subs.Keys == t.subs.Keys && Ready(r)
    decreases |order|
  {
    if order == [] then t
    else
      var prev := Reposted(order[..|order| - 1], t, draw);
      var name := order[|order| - 1];
      RepostRun(name, prev, |prev.subs[name].posts| / 5, draw)
  }

  /** The phase over one more subreddit of `order` is that subreddit's run after the phase so far. */
  lemma RepostedNext(order: seq<string>, t: Tables, i: nat, i': nat, draw: nat -> nat, cur: Tables)
    requires Ready(t) && forall j | 0 <= j < |order| :: order[j] in t.subs
    requires i < |order| && i' == i + 1 && cur == Reposted(order[..i], t, draw)
    ensures order[i] in cur.subs && Ready(cur)
    ensures Reposted(order[..i'], t, draw) == RepostRun(order[i], cur, |cur.subs[order[i]].posts| / 5, draw)
  {
    var prefix := order[..i'];
    assert forall j | 0 <= j < |prefix| :: prefix[j] == order[j];
    assert prefix[..i] == order[..i] && prefix[i] == order[i];
  }
}
