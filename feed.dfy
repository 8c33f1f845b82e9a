/**
 * Rendering of a subreddit feed: a header, then for every post its summary
 * line followed by its comment trees, each rendered pre-order with two
 * spaces of indentation per level (top-level comments at level 1).
 *
 * `CommentText`/`RepliesText` follow the recursion of `displayComment`;
 * `Flatten` is an independent description of the same output as a list of
 * (node, depth) entries, and the lemmas below show the text is the lines of
 * that list and that the list is a pre-order walk of the tree.
 */
module Feed {
  import opened Decimal
  import opened Sequences
  import opened Forum

  function Indent(depth: nat): (s: string)
    ensures |s| == 2 * depth
    ensures forall i | 0 <= i < |s| :: s[i] == ' '
  {
    if depth == 0 then "" else Indent(depth - 1) + "  "
  }

  function CommentLine(c: Comment, depth: nat): string {
    Indent(depth) + "Comment ID: " + IntToDecimal(c.id) + " | Author: " + c.author
      + " | Votes: " + IntToDecimal(c.votes) + " | Content: " + c.content + "\n"
  }

  function PostLine(p: Post): string {
    "Post ID: " + IntToDecimal(p.id) + " | Author: " + p.author
      + " | Votes: " + IntToDecimal(p.votes) + " | Content: " + p.content + "\n"
  }

  function FeedHeader(name: string): string {
    "Feed for Subreddit: " + name + "\n"
  }

  /** The comment at handle `h` and, below it, all its replies one level deeper. */
  function CommentText(ca: seq<Comment>, h: Handle, depth: nat): string
    requires RepliesForward(ca) && h < |ca|
    decreases |ca| - h
  {
    CommentLine(ca[h], depth) + RepliesText(ca, ca[h].replies, depth + 1, h)
  }

  /** The comments `hs`, all children of `parent` (-1 for a post), each rendered at `depth`. */
  function RepliesText(ca: seq<Comment>, hs: seq<Handle>, depth: nat, parent: int): string
    requires RepliesForward(ca)
    requires Between(hs, parent, |ca|)
    decreases |ca| - parent, 0, |hs|
  {
    if hs == [] then ""
    else RepliesText(ca, hs[..|hs| - 1], depth, parent) + CommentText(ca, hs[|hs| - 1], depth)
  }

  function PostBlock(pa: seq<Post>, ca: seq<Comment>, h: Handle): string
    requires ArenasClosed(pa, ca) && h < |pa|
  {
    PostLine(pa[h]) + RepliesText(ca, pa[h].comments, 1, -1)
  }

  function PostsText(pa: seq<Post>, ca: seq<Comment>, hs: seq<Handle>): string
    requires ArenasClosed(pa, ca)
    requires Between(hs, -1, |pa|)
  {
    if hs == [] then ""
    else PostsText(pa, ca, hs[..|hs| - 1]) + PostBlock(pa, ca, hs[|hs| - 1])
  }

  /** The whole feed of the subreddit `name` whose posts are `hs`. */
  function FeedText(name: string, pa: seq<Post>, ca: seq<Comment>, hs: seq<Handle>): string
    requires ArenasClosed(pa, ca)
    requires Between(hs, -1, |pa|)
  {
    FeedHeader(name) + PostsText(pa, ca, hs)
  }

  /** Rendering one more comment of a list appends that comment's tree to the text. */
  lemma RepliesTextStep(ca: seq<Comment>, hs: seq<Handle>, depth: nat, parent: int, i: nat)
    requires RepliesForward(ca) && Between(hs, parent, |ca|) && i < |hs|
    ensures Between(hs[..i], parent, |ca|) && Between(hs[..i + 1], parent, |ca|)
    ensures RepliesText(ca, hs[..i + 1], depth, parent) == RepliesText(ca, hs[..i], depth, parent) + CommentText(ca, hs[i], depth)
  {
    assert hs[..i + 1][..i] == hs[..i];
  }

  /** Rendering one more post of a feed appends that post's block to the text. */
  lemma PostsTextStep(pa: seq<Post>, ca: seq<Comment>, hs: seq<Handle>, i: nat)
    requires ArenasClosed(pa, ca) && Between(hs, -1, |pa|) && i < |hs|
    ensures Between(hs[..i], -1, |pa|) && Between(hs[..i + 1], -1, |pa|)
    ensures PostsText(pa, ca, hs[..i + 1]) == PostsText(pa, ca, hs[..i]) + PostBlock(pa, ca, hs[i])
  {
    assert hs[..i + 1][..i] == hs[..i];
  }

  // ---------------------------------------------------------------------
  // The same output as a list of entries

  datatype Entry = Entry(node: Handle, depth: nat)

  /** `child` is a direct reply of `parent`, placed one level deeper. */
  ghost predicate IsChildOf(ca: seq<Comment>, child: Entry, parent: Entry) {
    parent.node < |ca| && child.node in ca[parent.node].replies && child.depth == parent.depth + 1
  }

  /** The pre-order walk of the tree rooted at `h`: the node first, then the walks of its replies. */
  function Flatten(ca: seq<Comment>, h: Handle, depth: nat): (es: seq<Entry>)
    requires RepliesForward(ca) && h < |ca|
    ensures |es| >= 1 && es[0] == Entry(h, depth)
    ensures forall k | 0 <= k < |es| :: h <= es[k].node < |ca| && es[k].depth >= depth
    decreases |ca| - h
  {
    [Entry(h, depth)] + FlattenAll(ca, ca[h].replies, depth + 1, h)
  }

  function FlattenAll(ca: seq<Comment>, hs: seq<Handle>, depth: nat, parent: int): (es: seq<Entry>)
    requires RepliesForward(ca)
    requires Between(hs, parent, |ca|)
    ensures forall k | 0 <= k < |es| :: parent < es[k].node < |ca| && es[k].depth >= depth
    decreases |ca| - parent, 0, |hs|
  {
    if hs == [] then []
    else FlattenAll(ca, hs[..|hs| - 1], depth, parent) + Flatten(ca, hs[|hs| - 1], depth)
  }

  ghost predicate InArena(ca: seq<Comment>, es: seq<Entry>) {
    forall k | 0 <= k < |es| :: es[k].node < |ca|
  }

  function Lines(ca: seq<Comment>, es: seq<Entry>): string
    requires InArena(ca, es)
  {
    if es == [] then ""
    else Lines(ca, es[..|es| - 1]) + CommentLine(ca[es[|es| - 1].node], es[|es| - 1].depth)
  }

  /** Two walks in the arena, joined, are in the arena. */
  lemma InArenaConcat(ca: seq<Comment>, a: seq<Entry>, b: seq<Entry>)
    requires InArena(ca, a) && InArena(ca, b)
    ensures InArena(ca, a + b)
  {
  }

  /** A prefix of a walk in the arena is in the arena. */
  lemma InArenaPrefix(ca: seq<Comment>, es: seq<Entry>, n: nat)
    requires InArena(ca, es) && n <= |es|
    ensures InArena(ca, es[..n])
  {
  }

  /** The lines of a non-empty walk are those of all but its last entry, then the last entry's line. */
  lemma LinesLast(ca: seq<Comment>, es: seq<Entry>, init: seq<Entry>, last: Entry)
    requires InArena(ca, es) && es == init + [last]
    ensures InArena(ca, init) && last.node < |ca|
    ensures Lines(ca, es) == Lines(ca, init) + CommentLine(ca[last.node], last.depth)
  {
    assert es[..|es| - 1] == init;
    InArenaPrefix(ca, es, |es| - 1);
    assert es[|es| - 1] == last;
  }

  lemma {:induction false} LinesConcat(ca: seq<Comment>, a: seq<Entry>, b: seq<Entry>)
    requires InArena(ca, a) && InArena(ca, b)
    ensures InArena(ca, a + b)
    ensures Lines(ca, a + b) == Lines(ca, a) + Lines(ca, b)
    decreases |b|
  {
    InArenaConcat(ca, a, b);
    if b == [] {
      assert a + b == a;
    } else {
      var b', last := b[..|b| - 1], b[|b| - 1];
      assert b == b' + [last];
      assert a + b == (a + b') + [last];
      LinesLast(ca, b, b', last);
      LinesConcat(ca, a, b');
      LinesLast(ca, a + b, a + b', last);
      Reassociate(Lines(ca, a), Lines(ca, b'), CommentLine(ca[last.node], last.depth));
    }
  }

  /** The rendered text of a comment tree is, line by line, its pre-order walk. */
  lemma {:induction false} CommentTextIsWalk(ca: seq<Comment>, h: Handle, depth: nat)
    requires RepliesForward(ca) && h < |ca|
    ensures CommentText(ca, h, depth) == Lines(ca, Flatten(ca, h, depth))
    decreases |ca| - h
  {
    var rest := FlattenAll(ca, ca[h].replies, depth + 1, h);
    RepliesTextIsWalk(ca, ca[h].replies, depth + 1, h);
    LinesConcat(ca, [Entry(h, depth)], rest);
    assert Lines(ca, [Entry(h, depth)]) == CommentLine(ca[h], depth) by {
      assert [Entry(h, depth)][..0] == [];
    }
  }

  lemma {:induction false} RepliesTextIsWalk(ca: seq<Comment>, hs: seq<Handle>, depth: nat, parent: int)
    requires RepliesForward(ca)
    requires Between(hs, parent, |ca|)
    ensures RepliesText(ca, hs, depth, parent) == Lines(ca, FlattenAll(ca, hs, depth, parent))
    decreases |ca| - parent, 0, |hs|
  {
    if hs != [] {
      var last := hs[|hs| - 1];
      RepliesTextIsWalk(ca, hs[..|hs| - 1], depth, parent);
      CommentTextIsWalk(ca, last, depth);
      LinesConcat(ca, FlattenAll(ca, hs[..|hs| - 1], depth, parent), Flatten(ca, last, depth));
    }
  }

  /** Some entry before position `i` has the entry at `i` as a direct reply. */
  ghost predicate HasParentBefore(ca: seq<Comment>, es: seq<Entry>, i: int)
    requires 0 <= i < |es|
  {
    exists j | 0 <= j < i :: IsChildOf(ca, es[i], es[j])
  }

  /** `e` occurs in `es` after position `i`. */
  ghost predicate OccursAfter(es: seq<Entry>, i: int, e: Entry) {
    exists j | 0 <= j < |es| && i < j :: es[j] == e
  }

  /**
   * Every entry after the root is a reply of an entry printed before it,
   * one level deeper: a node comes before its replies.
   */
  lemma {:induction false} WalkParentsFirst(ca: seq<Comment>, h: Handle, depth: nat)
    requires RepliesForward(ca) && h < |ca|
    ensures forall i | 0 < i < |Flatten(ca, h, depth)| :: HasParentBefore(ca, Flatten(ca, h, depth), i)
    decreases |ca| - h
  {
    var es := Flatten(ca, h, depth);
    var rest := FlattenAll(ca, ca[h].replies, depth + 1, h);
    WalkAllParentsFirst(ca, ca[h].replies, depth + 1, h);
    forall i | 0 < i < |es| ensures HasParentBefore(ca, es, i) {
      assert es[i] == rest[i - 1];
      if rest[i - 1].node in ca[h].replies && rest[i - 1].depth == depth + 1 {
        assert IsChildOf(ca, es[i], es[0]);
      } else {
        assert HasParentBefore(ca, rest, i - 1);
        var j :| 0 <= j < i - 1 && IsChildOf(ca, rest[i - 1], rest[j]);
        assert es[j + 1] == rest[j];
      }
    }
  }

  /** In the walk of the comments `hs`, every entry is one of `hs` itself or a reply of an earlier entry. */
  lemma {:induction false} WalkAllParentsFirst(ca: seq<Comment>, hs: seq<Handle>, depth: nat, parent: int)
    requires RepliesForward(ca)
    requires Between(hs, parent, |ca|)
    ensures forall i | 0 <= i < |FlattenAll(ca, hs, depth, parent)| ::
      || (FlattenAll(ca, hs, depth, parent)[i].node in hs && FlattenAll(ca, hs, depth, parent)[i].depth == depth)
      || HasParentBefore(ca, FlattenAll(ca, hs, depth, parent), i)
    decreases |ca| - parent, 0, |hs|
  {
    if hs != [] {
      var es := FlattenAll(ca, hs, depth, parent);
      var init, last := hs[..|hs| - 1], hs[|hs| - 1];
      var front, back := FlattenAll(ca, init, depth, parent), Flatten(ca, last, depth);
      assert es == front + back;
      WalkAllParentsFirst(ca, init, depth, parent);
      WalkParentsFirst(ca, last, depth);
      forall i | 0 <= i < |es|
        ensures (es[i].node in hs && es[i].depth == depth) || HasParentBefore(ca, es, i)
      {
        if i < |front| {
          assert es[i] == front[i];
          if front[i].node in init && front[i].depth == depth {
            assert front[i].node in hs;
          } else {
            assert HasParentBefore(ca, front, i);
            var j :| 0 <= j < i && IsChildOf(ca, front[i], front[j]);
            assert es[j] == front[j];
          }
        } else if i == |front| {
          assert es[i] == back[0];
        } else {
          var k := i - |front|;
          assert es[i] == back[k];
          assert HasParentBefore(ca, back, k);
          var j :| 0 <= j < k && IsChildOf(ca, back[k], back[j]);
          assert es[|front| + j] == back[j];
        }
      }
    }
  }

  /** Every reply of every entry appears after it, one level deeper. */
  lemma {:induction false} WalkChildrenFollow(ca: seq<Comment>, h: Handle, depth: nat)
    requires RepliesForward(ca) && h < |ca|
    ensures forall i, r | 0 <= i < |Flatten(ca, h, depth)| && r in ca[Flatten(ca, h, depth)[i].node].replies ::
      OccursAfter(Flatten(ca, h, depth), i, Entry(r, Flatten(ca, h, depth)[i].depth + 1))
    decreases |ca| - h
  {
    var es := Flatten(ca, h, depth);
    var rest := FlattenAll(ca, ca[h].replies, depth + 1, h);
    WalkAllChildrenFollow(ca, ca[h].replies, depth + 1, h);
    forall i, r | 0 <= i < |es| && r in ca[es[i].node].replies
      ensures OccursAfter(es, i, Entry(r, es[i].depth + 1))
    {
      if i == 0 {
        assert OccursAfter(rest, -1, Entry(r, depth + 1));
        var j :| 0 <= j < |rest| && rest[j] == Entry(r, depth + 1);
        assert es[j + 1] == rest[j];
      } else {
        assert es[i] == rest[i - 1];
        assert OccursAfter(rest, i - 1, Entry(r, rest[i - 1].depth + 1));
        var j :| i - 1 < j < |rest| && rest[j] == Entry(r, rest[i - 1].depth + 1);
        assert es[j + 1] == rest[j];
      }
    }
  }

  lemma {:induction false} WalkAllChildrenFollow(ca: seq<Comment>, hs: seq<Handle>, depth: nat, parent: int)
    requires RepliesForward(ca)
    requires Between(hs, parent, |ca|)
    ensures forall x | x in hs :: OccursAfter(FlattenAll(ca, hs, depth, parent), -1, Entry(x, depth))
    ensures forall i, r | 0 <= i < |FlattenAll(ca, hs, depth, parent)|
                       && r in ca[FlattenAll(ca, hs, depth, parent)[i].node].replies ::
      OccursAfter(FlattenAll(ca, hs, depth, parent), i, Entry(r, FlattenAll(ca, hs, depth, parent)[i].depth + 1))
    decreases |ca| - parent, 0, |hs|
  {
    if hs != [] {
      var es := FlattenAll(ca, hs, depth, parent);
      var init, last := hs[..|hs| - 1], hs[|hs| - 1];
      var front, back := FlattenAll(ca, init, depth, parent), Flatten(ca, last, depth);
      assert es == front + back;
      WalkAllChildrenFollow(ca, init, depth, parent);
      WalkChildrenFollow(ca, last, depth);
      forall x | x in hs ensures OccursAfter(es, -1, Entry(x, depth)) {
        if x in init {
          assert OccursAfter(front, -1, Entry(x, depth));
          var j :| 0 <= j < |front| && front[j] == Entry(x, depth);
          assert es[j] == front[j];
        } else {
          assert x == last;
          assert es[|front|] == back[0];
        }
      }
      forall i, r | 0 <= i < |es| && r in ca[es[i].node].replies
        ensures OccursAfter(es, i, Entry(r, es[i].depth + 1))
      {
        if i < |front| {
          assert es[i] == front[i];
          assert OccursAfter(front, i, Entry(r, front[i].depth + 1));
          var j :| i < j < |front| && front[j] == Entry(r, front[i].depth + 1);
          assert es[j] == front[j];
        } else {
          var k := i - |front|;
          assert es[i] == back[k];
          assert OccursAfter(back, k, Entry(r, back[k].depth + 1));
          var j :| k < j < |back| && back[j] == Entry(r, back[k].depth + 1);
          assert es[|front| + j] == back[j];
        }
      }
    }
  }

  /**
   * A post's block is its line followed by the walk of its comment forest:
   * top-level comments at depth 1, every other line a reply of an earlier
   * line one level deeper, and every reply present after its parent.
   */
  lemma PostBlockIsWalk(pa: seq<Post>, ca: seq<Comment>, h: Handle)
    requires ArenasClosed(pa, ca) && h < |pa|
    ensures var es := FlattenAll(ca, pa[h].comments, 1, -1);
      && PostBlock(pa, ca, h) == PostLine(pa[h]) + Lines(ca, es)
      && (forall i | 0 <= i < |es| ::
            || (es[i].node in pa[h].comments && es[i].depth == 1)
            || HasParentBefore(ca, es, i))
      && (forall x | x in pa[h].comments :: OccursAfter(es, -1, Entry(x, 1)))
      && (forall i, r | 0 <= i < |es| && r in ca[es[i].node].replies :: OccursAfter(es, i, Entry(r, es[i].depth + 1)))
  {
    RepliesTextIsWalk(ca, pa[h].comments, 1, -1);
    WalkAllParentsFirst(ca, pa[h].comments, 1, -1);
    WalkAllChildrenFollow(ca, pa[h].comments, 1, -1);
  }
}
