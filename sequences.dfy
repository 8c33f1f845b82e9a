/** Small facts about sequences, stated once so that proofs can call them instead of rediscovering them. */
module Sequences {
  /** Concatenation regroups freely. */
  lemma Reassociate<T>(x: seq<T>, y: seq<T>, z: seq<T>)
    ensures (x + y) + z == x + (y + z)
  {
  }

  /** Appending to a sequence keeps its prefixes. */
  lemma PrefixKept<T>(s: seq<T>, x: seq<T>, n: nat, p: seq<T>)
    requires n <= |s| && s[..n] == p
    ensures (s + x)[..n] == p
  {
    assert (s + x)[..n] == s[..n];
  }

  /** A prefix of a prefix is a prefix. */
  lemma PrefixOfPrefix<T>(s: seq<T>, s': seq<T>, n: nat, p: seq<T>)
    requires n <= |s| <= |s'| && s'[..|s|] == s && s[..n] == p
    ensures s'[..n] == p
  {
    assert s'[..n] == s'[..|s|][..n];
  }
}
