/**
 The comment threads of the post page: grouping a list of comments by parent, and rendering the
 threads from the parentless comments down.
 */
module Threads {
  import opened Basics
  import opened Comments

  predicate DistinctIds(cs: seq<Comment>) {
    forall i, j :: 0 <= i < j < |cs| ==> cs[i].id != cs[j].id
  }

  predicate IsTop(c: Comment) {
    c.parentId.None?
  }

  function TopLevel(cs: seq<Comment>): seq<Comment> {
    Filter(IsTop, cs)
  }

  function RepliesTo(cs: seq<Comment>, id: Id): (r: seq<Comment>)
    ensures forall c :: c in r <==> c in cs && c.parentId == Some(id)
  {
    if cs == [] then []
    else RepliesTo(Front(cs), id) + if Last(cs).parentId == Some(id) then [Last(cs)] else []
  }

  lemma {:induction false} RepliesAreDistinct(cs: seq<Comment>, id: Id)
    requires DistinctIds(cs)
    ensures DistinctIds(RepliesTo(cs, id))
  {
    if cs != [] {
      RepliesAreDistinct(Front(cs), id);
      var earlier := RepliesTo(Front(cs), id);
      assert forall i :: 0 <= i < |earlier| ==> earlier[i] in earlier;
      assert forall c :: c in Front(cs) ==> c.id != Last(cs).id;
    }
  }

  function Replies(replyMap: map<Id, seq<Comment>>, id: Id): seq<Comment> {
    if id in replyMap then replyMap[id] else []
  }

  // The page fills the map in one pass over the comments that have a parent.
  method BuildReplyMap(cs: seq<Comment>) returns (replyMap: map<Id, seq<Comment>>)
    ensures forall id :: Replies(replyMap, id) == RepliesTo(cs, id)
  {
    replyMap := map[];
    for k := 0 to |cs|
      invariant forall id :: Replies(replyMap, id) == RepliesTo(cs[..k], id)
    {
      var c := cs[k];
      assert Front(cs[..k + 1]) == cs[..k];
      if c.parentId.Some? {
        var arr := if c.parentId.value in replyMap then replyMap[c.parentId.value] else [];
        replyMap := replyMap[c.parentId.value := arr + [c]];
      }
    }
    assert cs[..|cs|] == cs;
  }

  // ----- chains of parents -----

  // A path in the list from a parentless comment down, each comment a reply to the one before.
  predicate IsChain(cs: seq<Comment>, path: seq<Comment>) {
    && path != [] && IsTop(path[0])
    && (forall i :: 0 <= i < |path| ==> path[i] in cs)
    && (forall i :: 0 < i < |path| ==> path[i].parentId == Some(path[i - 1].id))
  }

  lemma SameIdSameComment(cs: seq<Comment>, a: Comment, b: Comment)
    requires DistinctIds(cs) && a in cs && b in cs && a.id == b.id
    ensures a == b
  {
  }

  lemma ChainFront(cs: seq<Comment>, path: seq<Comment>)
    requires IsChain(cs, path) && |path| > 1
    ensures IsChain(cs, Front(path)) && Last(path).parentId == Some(Last(Front(path)).id)
  {
  }

  lemma OnlyRootIsTop(cs: seq<Comment>, path: seq<Comment>)
    requires IsChain(cs, path)
    ensures IsTop(Last(path)) <==> |path| == 1
  {
    if |path| > 1 {
      ChainFront(cs, path);
    }
  }

  /** A comment has at most one chain, whatever cycles the links of other comments form. */
  lemma {:induction false} ChainIsUnique(cs: seq<Comment>, p: seq<Comment>, q: seq<Comment>)
    requires DistinctIds(cs) && IsChain(cs, p) && IsChain(cs, q) && Last(p) == Last(q)
    ensures p == q
    decreases |p|
  {
    OnlyRootIsTop(cs, p);
    OnlyRootIsTop(cs, q);
    if |p| > 1 && |q| > 1 {
      ChainFront(cs, p);
      ChainFront(cs, q);
      SameIdSameComment(cs, Last(Front(p)), Last(Front(q)));
      ChainIsUnique(cs, Front(p), Front(q));
      assert p == Front(p) + [Last(p)] && q == Front(q) + [Last(q)];
    } else {
      assert p == [Last(p)] && q == [Last(q)];
    }
  }

  lemma PrefixIsChain(cs: seq<Comment>, path: seq<Comment>, n: nat)
    requires IsChain(cs, path) && 1 <= n <= |path|
    ensures IsChain(cs, path[..n])
  {
  }

  lemma {:induction false} ElementsFit<T>(s: seq<T>)
    ensures |set x | x in s| <= |s|
  {
    if s != [] {
      ElementsFit(Front(s));
      assert (set x | x in s) == (set x | x in Front(s)) + {Last(s)};
    }
  }

  /** A chain repeats no comment, so it is no longer than the list: this is why rendering ends. */
  lemma ChainFits(cs: seq<Comment>, path: seq<Comment>)
    requires DistinctIds(cs) && IsChain(cs, path)
    ensures |path| <= |cs|
  {
    forall i, j | 0 <= i < j < |path|
      ensures path[i] != path[j]
    {
      if path[i] == path[j] {
        PrefixIsChain(cs, path, i + 1);
        PrefixIsChain(cs, path, j + 1);
        ChainIsUnique(cs, path[..i + 1], path[..j + 1]);
      }
    }
    DistinctFits(path, set c | c in cs);
    ElementsFit(cs);
  }

  lemma ChainGrows(cs: seq<Comment>, path: seq<Comment>, c: Comment)
    requires IsChain(cs, path) && c in cs && c.parentId == Some(Last(path).id)
    ensures IsChain(cs, path + [c])
  {
  }

  // ----- rendering -----

  // The ids in the order in which the comment and, below it, its replies appear.
  function RenderComment(cs: seq<Comment>, c: Comment, ghost path: seq<Comment>): seq<Id>
    requires DistinctIds(cs) && IsChain(cs, path) && Last(path) == c
    decreases |cs| - |path|, |cs| + 1
  {
    ChainFits(cs, path);
    RepliesFit(cs, c.id);
    [c.id] + RenderReplies(cs, RepliesTo(cs, c.id), path)
  }

  function RenderReplies(cs: seq<Comment>, replies: seq<Comment>, ghost path: seq<Comment>): seq<Id>
    requires DistinctIds(cs) && IsChain(cs, path)
    requires forall r :: r in replies ==> r in cs && r.parentId == Some(Last(path).id)
    decreases |cs| - |path|, |replies|
  {
    if replies == [] then []
    else
      ChainGrows(cs, path, replies[0]);
      ChainFits(cs, path + [replies[0]]);
      RenderComment(cs, replies[0], path + [replies[0]]) + RenderReplies(cs, replies[1..], path)
  }

  lemma {:induction false} RepliesFit(cs: seq<Comment>, id: Id)
    ensures |RepliesTo(cs, id)| <= |cs|
  {
    if cs != [] {
      RepliesFit(Front(cs), id);
    }
  }

  function RenderTop(cs: seq<Comment>, tops: seq<Comment>): seq<Id>
    requires DistinctIds(cs) && forall t :: t in tops ==> t in cs && IsTop(t)
  {
    if tops == [] then [] else RenderComment(cs, tops[0], [tops[0]]) + RenderTop(cs, tops[1..])
  }

  function RenderPage(cs: seq<Comment>): seq<Id>
    requires DistinctIds(cs)
  {
    RenderTop(cs, TopLevel(cs))
  }

  // ----- what is rendered -----

  // x is the id of a comment whose chain passes along path.
  ghost predicate Below(cs: seq<Comment>, path: seq<Comment>, x: Id) {
    exists q :: IsChain(cs, q) && path <= q && Last(q).id == x
  }

  ghost predicate BelowSome(cs: seq<Comment>, path: seq<Comment>, replies: seq<Comment>, x: Id) {
    exists k :: 0 <= k < |replies| && Below(cs, path + [replies[k]], x)
  }

  lemma BelowIsHereOrInReplies(cs: seq<Comment>, path: seq<Comment>, x: Id)
    requires DistinctIds(cs) && IsChain(cs, path)
    ensures Below(cs, path, x) <==> x == Last(path).id || BelowSome(cs, path, RepliesTo(cs, Last(path).id), x)
  {
    var replies := RepliesTo(cs, Last(path).id);
    if Below(cs, path, x) {
      var q: seq<Comment> :| IsChain(cs, q) && path <= q && Last(q).id == x;
      if |q| > |path| {
        var r := q[|path|];
        assert r.parentId == Some(Last(path).id);
        assert r in replies;
        var k :| 0 <= k < |replies| && replies[k] == r;
        assert path + [r] <= q;
        assert Below(cs, path + [replies[k]], x);
      } else {
        assert q == path;
      }
    }
    if x == Last(path).id {
      assert Below(cs, path, x);
    }
    if BelowSome(cs, path, replies, x) {
      var k :| 0 <= k < |replies| && Below(cs, path + [replies[k]], x);
      var q: seq<Comment> :| IsChain(cs, q) && path + [replies[k]] <= q && Last(q).id == x;
      assert path <= q;
    }
  }

  lemma BelowSomeSplits(cs: seq<Comment>, path: seq<Comment>, replies: seq<Comment>, x: Id)
    requires replies != []
    ensures BelowSome(cs, path, replies, x) <==>
            Below(cs, path + [replies[0]], x) || BelowSome(cs, path, replies[1..], x)
  {
    if BelowSome(cs, path, replies, x) {
      var k :| 0 <= k < |replies| && Below(cs, path + [replies[k]], x);
      if k > 0 {
        assert replies[1..][k - 1] == replies[k];
      }
    }
    if BelowSome(cs, path, replies[1..], x) {
      var k :| 0 <= k < |replies[1..]| && Below(cs, path + [replies[1..][k]], x);
      assert replies[k + 1] == replies[1..][k];
    }
  }

  lemma {:induction false} RenderCommentContents(cs: seq<Comment>, c: Comment, path: seq<Comment>, x: Id)
    requires DistinctIds(cs) && IsChain(cs, path) && Last(path) == c
    ensures x in RenderComment(cs, c, path) <==> Below(cs, path, x)
    decreases |cs| - |path|, |cs| + 1
  {
    ChainFits(cs, path);
    RepliesFit(cs, c.id);
    RenderRepliesContents(cs, RepliesTo(cs, c.id), path, x);
    BelowIsHereOrInReplies(cs, path, x);
  }

  lemma {:induction false} RenderRepliesContents(cs: seq<Comment>, replies: seq<Comment>, path: seq<Comment>, x: Id)
    requires DistinctIds(cs) && IsChain(cs, path)
    requires forall r :: r in replies ==> r in cs && r.parentId == Some(Last(path).id)
    ensures x in RenderReplies(cs, replies, path) <==> BelowSome(cs, path, replies, x)
    decreases |cs| - |path|, |replies|
  {
    if replies != [] {
      ChainGrows(cs, path, replies[0]);
      ChainFits(cs, path + [replies[0]]);
      RenderCommentContents(cs, replies[0], path + [replies[0]], x);
      RenderRepliesContents(cs, replies[1..], path, x);
      BelowSomeSplits(cs, path, replies, x);
    }
  }

  // ----- nothing twice -----

  /** Threads below different comments share nothing. */
  lemma BelowIsDisjoint(cs: seq<Comment>, p: seq<Comment>, q: seq<Comment>, x: Id)
    requires DistinctIds(cs) && |p| == |q| && p != q && p != []
    ensures !(Below(cs, p, x) && Below(cs, q, x))
  {
    if Below(cs, p, x) && Below(cs, q, x) {
      var s: seq<Comment> :| IsChain(cs, s) && p <= s && Last(s).id == x;
      var t: seq<Comment> :| IsChain(cs, t) && q <= t && Last(t).id == x;
      SameIdSameComment(cs, Last(s), Last(t));
      ChainIsUnique(cs, s, t);
    }
  }

  lemma DistinctConcat(a: seq<Id>, b: seq<Id>)
    requires Distinct(a) && Distinct(b) && forall x :: !(x in a && x in b)
    ensures Distinct(a + b)
  {
    forall i, j | 0 <= i < |a| <= j < |a| + |b|
      ensures (a + b)[i] != (a + b)[j]
    {
      assert a[i] in a && b[j - |a|] in b;
    }
  }

  lemma {:induction false} RenderCommentOnce(cs: seq<Comment>, c: Comment, path: seq<Comment>)
    requires DistinctIds(cs) && IsChain(cs, path) && Last(path) == c
    ensures Distinct(RenderComment(cs, c, path))
    decreases |cs| - |path|, |cs| + 1
  {
    ChainFits(cs, path);
    RepliesFit(cs, c.id);
    var replies := RepliesTo(cs, c.id);
    RepliesAreDistinct(cs, c.id);
    RenderRepliesOnce(cs, replies, path);
    if c.id in RenderReplies(cs, replies, path) {
      RenderRepliesContents(cs, replies, path, c.id);
      var k :| 0 <= k < |replies| && Below(cs, path + [replies[k]], c.id);
      var q: seq<Comment> :| IsChain(cs, q) && path + [replies[k]] <= q && Last(q).id == c.id;
      SameIdSameComment(cs, Last(q), c);
      ChainIsUnique(cs, q, path);
    }
    DistinctConcat([c.id], RenderReplies(cs, replies, path));
  }

  lemma {:induction false} RenderRepliesOnce(cs: seq<Comment>, replies: seq<Comment>, path: seq<Comment>)
    requires DistinctIds(cs) && IsChain(cs, path) && DistinctIds(replies)
    requires forall r :: r in replies ==> r in cs && r.parentId == Some(Last(path).id)
    ensures Distinct(RenderReplies(cs, replies, path))
    decreases |cs| - |path|, |replies|
  {
    if replies != [] {
      var r := replies[0];
      ChainGrows(cs, path, r);
      ChainFits(cs, path + [r]);
      RenderCommentOnce(cs, r, path + [r]);
      RenderRepliesOnce(cs, replies[1..], path);
      forall x
        ensures !(x in RenderComment(cs, r, path + [r]) && x in RenderReplies(cs, replies[1..], path))
      {
        RenderCommentContents(cs, r, path + [r], x);
        RenderRepliesContents(cs, replies[1..], path, x);
        if BelowSome(cs, path, replies[1..], x) {
          var k :| 0 <= k < |replies[1..]| && Below(cs, path + [replies[1..][k]], x);
          assert (path + [r])[|path|] != (path + [replies[1..][k]])[|path|];
          BelowIsDisjoint(cs, path + [r], path + [replies[1..][k]], x);
        }
      }
      DistinctConcat(RenderComment(cs, r, path + [r]), RenderReplies(cs, replies[1..], path));
    }
  }

  // ----- the page -----

  // Some chain in the list leads from a parentless comment to the comment with this id.
  ghost predicate Rooted(cs: seq<Comment>, x: Id) {
    exists q: seq<Comment> :: IsChain(cs, q) && Last(q).id == x
  }

  ghost predicate BelowTop(cs: seq<Comment>, tops: seq<Comment>, x: Id) {
    exists k :: 0 <= k < |tops| && Below(cs, [tops[k]], x)
  }

  lemma {:induction false} RenderTopContents(cs: seq<Comment>, tops: seq<Comment>, x: Id)
    requires DistinctIds(cs) && forall t :: t in tops ==> t in cs && IsTop(t)
    ensures x in RenderTop(cs, tops) <==> BelowTop(cs, tops, x)
  {
    if tops != [] {
      RenderCommentContents(cs, tops[0], [tops[0]], x);
      RenderTopContents(cs, tops[1..], x);
      if BelowTop(cs, tops, x) {
        var k :| 0 <= k < |tops| && Below(cs, [tops[k]], x);
        assert k > 0 ==> tops[1..][k - 1] == tops[k];
      }
      if BelowTop(cs, tops[1..], x) {
        var k :| 0 <= k < |tops[1..]| && Below(cs, [tops[1..][k]], x);
        assert tops[k + 1] == tops[1..][k];
      }
    }
  }

  lemma {:induction false} RenderTopOnce(cs: seq<Comment>, tops: seq<Comment>)
    requires DistinctIds(cs) && Distinct(tops) && forall t :: t in tops ==> t in cs && IsTop(t)
    ensures Distinct(RenderTop(cs, tops))
  {
    if tops != [] {
      RenderCommentOnce(cs, tops[0], [tops[0]]);
      RenderTopOnce(cs, tops[1..]);
      forall x
        ensures !(x in RenderComment(cs, tops[0], [tops[0]]) && x in RenderTop(cs, tops[1..]))
      {
        RenderCommentContents(cs, tops[0], [tops[0]], x);
        RenderTopContents(cs, tops[1..], x);
        if BelowTop(cs, tops[1..], x) {
          var k :| 0 <= k < |tops[1..]| && Below(cs, [tops[1..][k]], x);
          assert [tops[0]][0] != [tops[1..][k]][0];
          BelowIsDisjoint(cs, [tops[0]], [tops[1..][k]], x);
        }
      }
      DistinctConcat(RenderComment(cs, tops[0], [tops[0]]), RenderTop(cs, tops[1..]));
    }
  }

  /**
   For every list with distinct ids, even one whose parent links contain cycles: rendering ends, shows
   no comment twice, and shows exactly the comments whose chain of parents inside the list reaches a
   parentless comment.
   */
  lemma PageShowsRootedOnce(cs: seq<Comment>)
    requires DistinctIds(cs)
    ensures Distinct(RenderPage(cs))
    ensures forall x :: x in RenderPage(cs) <==> Rooted(cs, x)
  {
    var tops := TopLevel(cs);
    FilterDistinct(IsTop, cs);
    RenderTopOnce(cs, tops);
    forall x
      ensures x in RenderPage(cs) <==> Rooted(cs, x)
    {
      RenderTopContents(cs, tops, x);
      if Rooted(cs, x) {
        var q: seq<Comment> :| IsChain(cs, q) && Last(q).id == x;
        assert q[0] in tops;
        var k :| 0 <= k < |tops| && tops[k] == q[0];
        assert [tops[k]] <= q;
        assert Below(cs, [tops[k]], x);
      }
    }
  }

  // The list holds exactly the comments of one post, in any order.
  ghost predicate ListsPost(cs: seq<Comment>, w: World, post: Id) {
    DistinctIds(cs) &&
    forall c :: c in cs <==> c.id in w.rows && w.rows[c.id] == c && c.postId == post
  }

  lemma {:induction false} SurvivingChain(cs: seq<Comment>, w: World, post: Id, id: Id)
    requires ForestInv(w) && ParentsPresent(w) && ListsPost(cs, w, post)
    requires id in w.rows && w.rows[id].postId == post
    ensures exists q: seq<Comment> :: IsChain(cs, q) && Last(q) == w.rows[id]
    decreases w.born[id]
  {
    assert LinkInv(w, id);
    var c := w.rows[id];
    if c.parentId.None? {
      assert IsChain(cs, [c]) && Last([c]) == c;
    } else {
      var p := c.parentId.value;
      assert LinkInv(w, p);
      SurvivingChain(cs, w, post, p);
      var q: seq<Comment> :| IsChain(cs, q) && Last(q) == w.rows[p];
      ChainGrows(cs, q, c);
      assert Last(q + [c]) == c;
    }
  }

  /**
   Service and page together: in every state reached by creating comments and deleting posts, the page
   of a post shows each of its comments exactly once.
   */
  lemma PageShowsEveryComment(ops: seq<Op>, cs: seq<Comment>, post: Id)
    requires forall op :: op in ops ==> KeepsThreads(op)
    requires ListsPost(cs, Run(EMPTY_WORLD, ops), post)
    ensures var w := Run(EMPTY_WORLD, ops);
            && Distinct(RenderPage(cs))
            && forall x :: x in RenderPage(cs) <==> x in w.rows && w.rows[x].postId == post
  {
    var w := Run(EMPTY_WORLD, ops);
    RunKeepsForest(EMPTY_WORLD, ops);
    RunKeepsParents(EMPTY_WORLD, ops);
    PageShowsRootedOnce(cs);
    forall x
      ensures Rooted(cs, x) <==> x in w.rows && w.rows[x].postId == post
    {
      if x in w.rows && w.rows[x].postId == post {
        SurvivingChain(cs, w, post, x);
        assert LinkInv(w, x);
        var q: seq<Comment> :| IsChain(cs, q) && Last(q) == w.rows[x];
        assert Last(q).id == x;
      }
      if Rooted(cs, x) {
        var q: seq<Comment> :| IsChain(cs, q) && Last(q).id == x;
        assert Last(q) in cs;
      }
    }
  }
}
