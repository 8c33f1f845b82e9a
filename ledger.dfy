/**
 * The vote ledger: for every voter, the last vote cast on each post id.
 * `Recast` is the ledger write `VotePost` performs; `Tally` and `AuthorTally`
 * sum the recorded votes on one post and on all posts of one author, the
 * quantities the post's vote counter and the author's karma track.
 */
module Ledger {

  type VoteLedger = map<string, map<int, int>>

  /** Sum of `m[k]` over the keys in `keys`. */
  ghost function SumOver<K>(m: map<K, int>, keys: set<K>): int
    requires keys <= m.Keys
    decreases keys
  {
    if keys == {} then 0
    else
      var k :| k in keys;
      m[k] + SumOver(m, keys - {k})
  }

  /** Sum of all values of a finite map. */
  ghost function SumValues<K>(m: map<K, int>): int {
    SumOver(m, m.Keys)
  }

  /** Any key can be taken out first: the sum does not depend on the order of the keys. */
  lemma {:induction false} SumOverRemove<K>(m: map<K, int>, keys: set<K>, k: K)
    requires keys <= m.Keys && k in keys
    ensures SumOver(m, keys) == m[k] + SumOver(m, keys - {k})
    decreases keys
  {
    var j :| j in keys && SumOver(m, keys) == m[j] + SumOver(m, keys - {j});
    if j != k {
      SumOverRemove(m, keys - {j}, k);
      assert keys - {j} - {k} == keys - {k} - {j};
      SumOverRemove(m, keys - {k}, j);
    }
  }

  /** Two maps that agree on `keys` have the same sum over `keys`. */
  lemma {:induction false} SumOverAgree<K>(m1: map<K, int>, m2: map<K, int>, keys: set<K>)
    requires keys <= m1.Keys && keys <= m2.Keys
    requires forall k | k in keys :: m1[k] == m2[k]
    ensures SumOver(m1, keys) == SumOver(m2, keys)
    decreases keys
  {
    if keys != {} {
      var k :| k in keys && SumOver(m1, keys) == m1[k] + SumOver(m1, keys - {k});
      SumOverAgree(m1, m2, keys - {k});
      SumOverRemove(m2, keys, k);
    }
  }

  /** Overwriting (or adding) one entry moves the sum by the difference. */
  lemma SumValuesUpdate<K>(m: map<K, int>, k: K, v: int)
    ensures SumValues(m[k := v]) == SumValues(m) - (if k in m then m[k] else 0) + v
  {
    var m' := m[k := v];
    var rest := m'.Keys - {k};
    assert rest == m.Keys - {k};
    SumOverRemove(m', m'.Keys, k);
    SumOverAgree(m', m, rest);
    if k in m {
      SumOverRemove(m, m.Keys, k);
    } else {
      assert rest == m.Keys;
    }
  }

  /** The vote `user` has on record for `post`; a missing entry contributes nothing. */
  function PreviousVote(ledger: VoteLedger, user: string, post: int): (v: int)
    ensures (user !in ledger || post !in ledger[user]) ==> v == 0
  {
    if user in ledger && post in ledger[user] then ledger[user][post] else 0
  }

  /** Record `vote` as `user`'s current vote on `post`, creating the voter's map when missing. */
  function Recast(ledger: VoteLedger, user: string, post: int, vote: int): (r: VoteLedger)
    ensures r.Keys == ledger.Keys + {user}
    ensures r[user].Keys == (if user in ledger then ledger[user].Keys else {}) + {post}
    ensures r[user][post] == vote
    ensures forall q | q in r[user] && q != post :: r[user][q] == ledger[user][q]
    ensures forall u | u in ledger && u != user :: r[u] == ledger[u]
  {
    var mine := if user in ledger then ledger[user] else map[];
    ledger[user := mine[post := vote]]
  }

  /** The recorded votes on `post`, one per voter who has one. */
  function VotesOn(ledger: VoteLedger, post: int): map<string, int> {
    map u | u in ledger && post in ledger[u] :: ledger[u][post]
  }

  ghost function Tally(ledger: VoteLedger, post: int): int {
    SumValues(VotesOn(ledger, post))
  }

  /** The part of one voter's record that falls on posts whose author (per `owner`) is `author`. */
  function OnPostsOf(record: map<int, int>, owner: map<int, string>, author: string): map<int, int> {
    map q | q in record && q in owner && owner[q] == author :: record[q]
  }

  /** For each voter, the sum of that voter's recorded votes on posts of `author`. */
  ghost function PerVoter(ledger: VoteLedger, owner: map<int, string>, author: string): map<string, int> {
    map u | u in ledger :: SumValues(OnPostsOf(ledger[u], owner, author))
  }

  /** All recorded votes on posts of `author`, summed over voters and posts. */
  ghost function AuthorTally(ledger: VoteLedger, owner: map<int, string>, author: string): int {
    SumValues(PerVoter(ledger, owner, author))
  }

  /** Recasting moves the tally of the voted post by the difference and leaves every other post's tally alone. */
  lemma RecastTally(ledger: VoteLedger, user: string, post: int, vote: int, q: int)
    ensures Tally(Recast(ledger, user, post, vote), q)
         == if q == post then Tally(ledger, q) - PreviousVote(ledger, user, post) + vote
            else Tally(ledger, q)
  {
    var r := Recast(ledger, user, post, vote);
    var before, after := VotesOn(ledger, q), VotesOn(r, q);
    if q == post {
      var expected := before[user := vote];
      assert after.Keys == expected.Keys;
      assert forall u | u in after :: after[u] == expected[u];
      assert after == expected;
      SumValuesUpdate(before, user, vote);
    } else {
      assert after.Keys == before.Keys;
      assert forall u | u in after :: after[u] == before[u];
      assert after == before;
    }
  }

  /** Writing one entry of a voter's record changes that voter's part on `author`'s posts only if the post is `author`'s. */
  lemma OnPostsOfWrite(record: map<int, int>, owner: map<int, string>, post: int, vote: int, author: string)
    requires post in owner
    ensures OnPostsOf(record[post := vote], owner, author)
         == if author == owner[post] then OnPostsOf(record, owner, author)[post := vote]
            else OnPostsOf(record, owner, author)
  {
  }

  /** Replacing one voter's record replaces only that voter's per-author sum. */
  lemma PerVoterWrite(ledger: VoteLedger, owner: map<int, string>, author: string, user: string, record: map<int, int>)
    ensures PerVoter(ledger[user := record], owner, author)
         == PerVoter(ledger, owner, author)[user := SumValues(OnPostsOf(record, owner, author))]
  {
  }

  /** Recasting moves the author tally of the voted post's author by the difference and no other author's. */
  lemma RecastAuthorTally(ledger: VoteLedger, owner: map<int, string>, user: string, post: int, vote: int, author: string)
    requires post in owner
    ensures AuthorTally(Recast(ledger, user, post, vote), owner, author)
         == if author == owner[post] then AuthorTally(ledger, owner, author) - PreviousVote(ledger, user, post) + vote
            else AuthorTally(ledger, owner, author)
  {
    var mine: map<int, int> := if user in ledger then ledger[user] else map[];
    var oldPart := OnPostsOf(mine, owner, author);
    var newPart := OnPostsOf(mine[post := vote], owner, author);
    PerVoterWrite(ledger, owner, author, user, mine[post := vote]);
    SumValuesUpdate(PerVoter(ledger, owner, author), user, SumValues(newPart));
    // the voter's old per-author sum, as seen from the ledger before the vote
    var oldSum := if user in ledger then SumValues(oldPart) else 0;
    assert (if user in PerVoter(ledger, owner, author) then PerVoter(ledger, owner, author)[user] else 0) == oldSum;
    if user !in ledger {
      assert oldPart == map[];
    }
    OnPostsOfWrite(mine, owner, post, vote, author);
    if author == owner[post] {
      SumValuesUpdate(oldPart, post, vote);
      assert (post in oldPart) == (post in mine);
    }
  }

  /** A second vote by the same voter overwrites the first: only the latest one stays on record. */
  lemma RecastOverwrites(ledger: VoteLedger, user: string, post: int, v1: int, v2: int)
    ensures PreviousVote(Recast(ledger, user, post, v1), user, post) == v1
    ensures Recast(Recast(ledger, user, post, v1), user, post, v2) == Recast(ledger, user, post, v2)
  {
    var mine := if user in ledger then ledger[user] else map[];
    assert mine[post := v1][post := v2] == mine[post := v2];
  }

  /**
   * Voting `v1` then `v2` nets only `v2`: the tally of the post ends where a
   * single vote `v2` would have put it.
   */
  lemma {:induction false} RevoteNetsLatest(ledger: VoteLedger, user: string, post: int, v1: int, v2: int)
    ensures Tally(Recast(Recast(ledger, user, post, v1), user, post, v2), post)
         == Tally(ledger, post) - PreviousVote(ledger, user, post) + v2
  {
    var l1 := Recast(ledger, user, post, v1);
    RecastTally(ledger, user, post, v1, post);
    RecastTally(l1, user, post, v2, post);
    RecastOverwrites(ledger, user, post, v1, v2);
  }
}
