/** The order of the comments on the page: every comment above its replies, siblings in the order of the list. */
module ThreadOrder {
  import opened Basics
  import opened Comments
  import opened Threads

  // ----- orders -----

  ghost predicate Precedes<T>(s: seq<T>, x: T, y: T) {
    exists i, j :: 0 <= i < j < |s| && s[i] == x && s[j] == y
  }

  lemma PrecedesInContext<T>(a: seq<T>, s: seq<T>, b: seq<T>, x: T, y: T)
    requires Precedes(s, x, y)
    ensures Precedes(a + s + b, x, y)
  {
    var i, j :| 0 <= i < j < |s| && s[i] == x && s[j] == y;
    var all := a + s + b;
    assert all[|a| + i] == x && all[|a| + j] == y;
  }

  lemma PrecedesInFirst<T>(a: seq<T>, b: seq<T>, x: T, y: T)
    requires Precedes(a, x, y)
    ensures Precedes(a + b, x, y)
  {
    PrecedesInContext([], a, b, x, y);
    assert [] + a + b == a + b;
  }

  lemma PrecedesAcross<T>(a: seq<T>, b: seq<T>, x: T, y: T)
    requires x in a && y in b
    ensures Precedes(a + b, x, y)
  {
    var i :| 0 <= i < |a| && a[i] == x;
    var j :| 0 <= j < |b| && b[j] == y;
    assert (a + b)[i] == x && (a + b)[|a| + j] == y;
  }

  // One chain begins like the other and ends there, or turns to a sibling that the list names earlier.
  ghost predicate Earlier(cs: seq<Comment>, p: seq<Comment>, q: seq<Comment>) {
    || p < q
    || exists k :: 0 <= k < |p| && k < |q| && p[..k] == q[..k] && Precedes(cs, p[k], q[k])
  }

  lemma PrecedesIsStrict(cs: seq<Comment>, a: Comment, b: Comment)
    requires DistinctIds(cs) && Precedes(cs, a, b)
    ensures a != b
  {
  }

  lemma EarlierTurn(cs: seq<Comment>, path: seq<Comment>, p: seq<Comment>, q: seq<Comment>)
    requires DistinctIds(cs) && path < p && path < q && Earlier(cs, p, q) && p[|path|] != q[|path|]
    ensures Precedes(cs, p[|path|], q[|path|])
  {
    var k :| 0 <= k < |p| && k < |q| && p[..k] == q[..k] && Precedes(cs, p[k], q[k]);
    PrecedesIsStrict(cs, p[k], q[k]);
    assert forall i :: 0 <= i < k ==> p[i] == p[..k][i] == q[i];
    assert k == |path|;
  }

  lemma {:induction false} RepliesAppend(front: seq<Comment>, back: seq<Comment>, id: Id)
    ensures RepliesTo(front + back, id) == RepliesTo(front, id) + RepliesTo(back, id)
  {
    if back == [] {
      assert front + back == front;
    } else {
      assert Front(front + back) == front + Front(back) && Last(front + back) == Last(back);
      RepliesAppend(front, Front(back), id);
      ConcatAssoc(RepliesTo(front, id), RepliesTo(Front(back), id),
                  if Last(back).parentId == Some(id) then [Last(back)] else []);
    }
  }

  lemma RepliesKeepOrder(cs: seq<Comment>, id: Id, a: Comment, b: Comment)
    requires Precedes(cs, a, b) && a.parentId == Some(id) && b.parentId == Some(id)
    ensures Precedes(RepliesTo(cs, id), a, b)
  {
    var i, j :| 0 <= i < j < |cs| && cs[i] == a && cs[j] == b;
    var front, back := cs[..i + 1], cs[i + 1..];
    assert cs == front + back;
    RepliesAppend(front, back, id);
    assert front[i] == a && back[j - i - 1] == b;
    PrecedesAcross(RepliesTo(front, id), RepliesTo(back, id), a, b);
  }

  lemma {:induction false} TopsKeepOrder(cs: seq<Comment>, a: Comment, b: Comment)
    requires Precedes(cs, a, b) && IsTop(a) && IsTop(b)
    ensures Precedes(TopLevel(cs), a, b)
  {
    var i, j :| 0 <= i < j < |cs| && cs[i] == a && cs[j] == b;
    var front, back := cs[..i + 1], cs[i + 1..];
    assert cs == front + back;
    FilterAppend(IsTop, front, back);
    assert front[i] == a && back[j - i - 1] == b;
    PrecedesAcross(Filter(IsTop, front), Filter(IsTop, back), a, b);
  }

  // ----- rendering keeps the order -----

  lemma ReplyOnChain(cs: seq<Comment>, path: seq<Comment>, q: seq<Comment>)
    requires DistinctIds(cs) && IsChain(cs, path) && IsChain(cs, q) && path < q
    ensures q[|path|] in RepliesTo(cs, Last(path).id) && IsChain(cs, path + [q[|path|]]) && path + [q[|path|]] <= q
    ensures Below(cs, path + [q[|path|]], Last(q).id)
  {
    assert path + [q[|path|]] == q[..|path| + 1];
    PrefixIsChain(cs, q, |path| + 1);
    assert q[|path|].parentId == Some(q[|path| - 1].id);
  }

  lemma {:induction false} RenderCommentOrder(cs: seq<Comment>, path: seq<Comment>, p: seq<Comment>, q: seq<Comment>)
    requires DistinctIds(cs) && IsChain(cs, path) && IsChain(cs, p) && IsChain(cs, q)
    requires path <= p && path <= q && p != q && Earlier(cs, p, q)
    ensures Precedes(RenderComment(cs, Last(path), path), Last(p).id, Last(q).id)
    decreases |cs| - |path|, |cs| + 1
  {
    ChainFits(cs, path);
    var c := Last(path);
    var replies := RepliesTo(cs, c.id);
    RepliesFit(cs, c.id);
    NotAbove(cs, path, p, q);
    ReplyOnChain(cs, path, q);
    if p == path {
      LaterReplyIsRendered(cs, replies, path, q);
      PrecedesAcross([c.id], RenderReplies(cs, replies, path), c.id, Last(q).id);
    } else {
      ReplyOnChain(cs, path, p);
      RepliesAreDistinct(cs, c.id);
      if p[|path|] != q[|path|] {
        EarlierTurn(cs, path, p, q);
        RepliesKeepOrder(cs, c.id, p[|path|], q[|path|]);
      }
      RenderRepliesOrder(cs, replies, path, p, q);
      PrecedesInContext([c.id], RenderReplies(cs, replies, path), [], Last(p).id, Last(q).id);
      assert [c.id] + RenderReplies(cs, replies, path) + [] == RenderComment(cs, c, path);
    }
  }

  // An earlier chain is no extension of a later one.
  lemma NotAbove(cs: seq<Comment>, path: seq<Comment>, p: seq<Comment>, q: seq<Comment>)
    requires DistinctIds(cs) && path <= p && path <= q && p != q && Earlier(cs, p, q)
    ensures path < q
  {
    if k :| 0 <= k < |p| && k < |q| && p[..k] == q[..k] && Precedes(cs, p[k], q[k]) {
      PrecedesIsStrict(cs, p[k], q[k]);
    }
  }

  lemma {:induction false} RenderRepliesOrder(cs: seq<Comment>, replies: seq<Comment>, path: seq<Comment>,
                                              p: seq<Comment>, q: seq<Comment>)
    requires DistinctIds(cs) && IsChain(cs, path) && IsChain(cs, p) && IsChain(cs, q) && DistinctIds(replies)
    requires forall r :: r in replies ==> r in cs && r.parentId == Some(Last(path).id)
    requires path < p && path < q && p[|path|] in replies && q[|path|] in replies && Earlier(cs, p, q) && p != q
    requires p[|path|] == q[|path|] || Precedes(replies, p[|path|], q[|path|])
    ensures Precedes(RenderReplies(cs, replies, path), Last(p).id, Last(q).id)
    decreases |cs| - |path|, |replies|
  {
    var r, rest := replies[0], replies[1..];
    if p[|path|] == r && q[|path|] == r {
      SameReplyOrder(cs, replies, path, p, q);
    } else if p[|path|] == r {
      FirstReplyOrder(cs, replies, path, p, q);
    } else {
      HeadIsFirst(replies, p[|path|], q[|path|]);
      assert forall i, j :: 0 <= i < j < |rest| ==> rest[i] == replies[i + 1] && rest[j] == replies[j + 1];
      RenderRepliesOrder(cs, rest, path, p, q);
      OthersOrder(cs, replies, path, Last(p).id, Last(q).id);
    }
  }

  lemma {:induction false} SameReplyOrder(cs: seq<Comment>, replies: seq<Comment>, path: seq<Comment>,
                                          p: seq<Comment>, q: seq<Comment>)
    requires DistinctIds(cs) && IsChain(cs, path) && IsChain(cs, p) && IsChain(cs, q) && replies != []
    requires forall r :: r in replies ==> r in cs && r.parentId == Some(Last(path).id)
    requires path < p && path < q && p[|path|] == q[|path|] == replies[0] && Earlier(cs, p, q) && p != q
    ensures Precedes(RenderReplies(cs, replies, path), Last(p).id, Last(q).id)
    decreases |cs| - |path|, 0
  {
    var r := replies[0];
    ReplyOnChain(cs, path, p);
    ReplyOnChain(cs, path, q);
    ChainFits(cs, path + [r]);
    RenderCommentOrder(cs, path + [r], p, q);
    FirstOrder(cs, replies, path, path + [r], Last(p).id, Last(q).id);
  }

  lemma FirstOrder(cs: seq<Comment>, replies: seq<Comment>, path: seq<Comment>, deeper: seq<Comment>, x: Id, y: Id)
    requires DistinctIds(cs) && IsChain(cs, path) && replies != []
    requires forall r :: r in replies ==> r in cs && r.parentId == Some(Last(path).id)
    requires deeper == path + [replies[0]] && IsChain(cs, deeper)
    requires Precedes(RenderComment(cs, Last(deeper), deeper), x, y)
    ensures Precedes(RenderReplies(cs, replies, path), x, y)
  {
    RepliesSplit(cs, replies, path, deeper);
    PrecedesInFirst(RenderComment(cs, replies[0], deeper), RenderReplies(cs, replies[1..], path), x, y);
  }

  lemma RepliesSplit(cs: seq<Comment>, replies: seq<Comment>, path: seq<Comment>, deeper: seq<Comment>)
    requires DistinctIds(cs) && IsChain(cs, path) && replies != []
    requires forall r :: r in replies ==> r in cs && r.parentId == Some(Last(path).id)
    requires deeper == path + [replies[0]] && IsChain(cs, deeper)
    ensures RenderReplies(cs, replies, path) ==
            RenderComment(cs, replies[0], deeper) + RenderReplies(cs, replies[1..], path)
  {
    ChainFits(cs, deeper);
  }

  lemma FirstReplyOrder(cs: seq<Comment>, replies: seq<Comment>, path: seq<Comment>, p: seq<Comment>, q: seq<Comment>)
    requires DistinctIds(cs) && IsChain(cs, path) && IsChain(cs, p) && IsChain(cs, q) && replies != []
    requires forall r :: r in replies ==> r in cs && r.parentId == Some(Last(path).id)
    requires path < p && path < q && p[|path|] == replies[0] && q[|path|] in replies && q[|path|] != replies[0]
    ensures Precedes(RenderReplies(cs, replies, path), Last(p).id, Last(q).id)
  {
    var r, rest := replies[0], replies[1..];
    ReplyOnChain(cs, path, p);
    assert Last(path + [r]) == r;
    RenderCommentContents(cs, r, path + [r], Last(p).id);
    assert q[|path|] in rest by { assert replies == [r] + rest; }
    LaterReplyIsRendered(cs, rest, path, q);
    PrecedesAcross(RenderComment(cs, r, path + [r]), RenderReplies(cs, rest, path), Last(p).id, Last(q).id);
  }

  lemma OthersOrder(cs: seq<Comment>, replies: seq<Comment>, path: seq<Comment>, x: Id, y: Id)
    requires DistinctIds(cs) && IsChain(cs, path) && replies != []
    requires forall r :: r in replies ==> r in cs && r.parentId == Some(Last(path).id)
    requires Precedes(RenderReplies(cs, replies[1..], path), x, y)
    ensures Precedes(RenderReplies(cs, replies, path), x, y)
  {
    var r, others := replies[0], RenderReplies(cs, replies[1..], path);
    ChainGrows(cs, path, r);
    ChainFits(cs, path + [r]);
    var first := RenderComment(cs, r, path + [r]);
    PrecedesInContext(first, others, [], x, y);
    assert first + others + [] == RenderReplies(cs, replies, path);
  }

  lemma LaterReplyIsRendered(cs: seq<Comment>, replies: seq<Comment>, path: seq<Comment>, q: seq<Comment>)
    requires DistinctIds(cs) && IsChain(cs, path) && IsChain(cs, q) && path < q
    requires forall r :: r in replies ==> r in cs && r.parentId == Some(Last(path).id)
    requires q[|path|] in replies
    ensures Last(q).id in RenderReplies(cs, replies, path)
  {
    ReplyOnChain(cs, path, q);
    var k :| 0 <= k < |replies| && replies[k] == q[|path|];
    assert BelowSome(cs, path, replies, Last(q).id);
    RenderRepliesContents(cs, replies, path, Last(q).id);
  }

  lemma HeadIsFirst(list: seq<Comment>, a: Comment, b: Comment)
    requires DistinctIds(list) && a in list && b in list && a != list[0] && (a == b || Precedes(list, a, b))
    ensures b != list[0] && a in list[1..] && b in list[1..] && (a == b || Precedes(list[1..], a, b))
  {
    if a != b {
      var i, j :| 0 <= i < j < |list| && list[i] == a && list[j] == b;
      assert i > 0 && list[1..][i - 1] == a && list[1..][j - 1] == b;
      assert list[0].id != list[j].id;
    }
  }

  lemma {:induction false} RenderTopOrder(cs: seq<Comment>, tops: seq<Comment>, p: seq<Comment>, q: seq<Comment>)
    requires DistinctIds(cs) && DistinctIds(tops) && (forall t :: t in tops ==> t in cs && IsTop(t))
    requires IsChain(cs, p) && IsChain(cs, q) && Earlier(cs, p, q) && p != q
    requires p[0] in tops && q[0] in tops && (p[0] == q[0] || Precedes(tops, p[0], q[0]))
    ensures Precedes(RenderTop(cs, tops), Last(p).id, Last(q).id)
  {
    var t, rest := tops[0], tops[1..];
    var first, others := RenderComment(cs, t, [t]), RenderTop(cs, rest);
    assert [p[0]] <= p && [q[0]] <= q;
    if p[0] == t && q[0] == t {
      RenderCommentOrder(cs, [t], p, q);
      PrecedesInContext([], first, others, Last(p).id, Last(q).id);
      assert [] + first + others == RenderTop(cs, tops);
    } else if p[0] == t {
      assert Below(cs, [t], Last(p).id);
      RenderCommentContents(cs, t, [t], Last(p).id);
      var k :| 0 <= k < |tops| && tops[k] == q[0];
      assert rest[k - 1] == q[0] && Below(cs, [rest[k - 1]], Last(q).id);
      RenderTopContents(cs, rest, Last(q).id);
      PrecedesAcross(first, others, Last(p).id, Last(q).id);
    } else {
      HeadIsFirst(tops, p[0], q[0]);
      RenderTopOrder(cs, rest, p, q);
      PrecedesInContext(first, others, [], Last(p).id, Last(q).id);
      assert first + others + [] == RenderTop(cs, tops);
    }
  }

  lemma TopsAreDistinct(cs: seq<Comment>)
    requires DistinctIds(cs)
    ensures DistinctIds(TopLevel(cs))
  {
    var tops := TopLevel(cs);
    FilterDistinct(IsTop, cs);
    forall i, j | 0 <= i < j < |tops|
      ensures tops[i].id != tops[j].id
    {
      assert tops[i] in cs && tops[j] in cs && tops[i] != tops[j];
      if tops[i].id == tops[j].id {
        SameIdSameComment(cs, tops[i], tops[j]);
      }
    }
  }

  /**
   The order of the page: of two shown comments, the one above the other stands first; and otherwise, where
   their chains part, the one under the sibling that the list names first.
   */
  lemma PageKeepsOrder(cs: seq<Comment>, p: seq<Comment>, q: seq<Comment>)
    requires DistinctIds(cs) && IsChain(cs, p) && IsChain(cs, q) && p != q && Earlier(cs, p, q)
    ensures Precedes(RenderPage(cs), Last(p).id, Last(q).id)
  {
    var tops := TopLevel(cs);
    TopsAreDistinct(cs);
    assert [] < p && [] < q;
    if p[0] != q[0] {
      EarlierTurn(cs, [], p, q);
      TopsKeepOrder(cs, p[0], q[0]);
    }
    RenderTopOrder(cs, tops, p, q);
  }

  /** Any two different chains are ordered one way or the other, so this fixes the whole page. */
  lemma {:induction false} ChainsAreOrdered(cs: seq<Comment>, p: seq<Comment>, q: seq<Comment>)
    requires DistinctIds(cs) && IsChain(cs, p) && IsChain(cs, q) && p != q
    ensures Earlier(cs, p, q) || Earlier(cs, q, p)
  {
    var k := 0;
    while k < |p| && k < |q| && p[k] == q[k]
      invariant 0 <= k <= |p| && k <= |q| && p[..k] == q[..k]
    {
      k := k + 1;
    }
    if k == |p| || k == |q| {
      assert k == |p| ==> p == q[..k] && p <= q;
      assert k == |q| ==> q == p[..k] && q <= p;
    } else {
      assert p[k] in cs && q[k] in cs;
      var i :| 0 <= i < |cs| && cs[i] == p[k];
      var j :| 0 <= j < |cs| && cs[j] == q[k];
      assert i < j || j < i;
      assert Precedes(cs, p[k], q[k]) || Precedes(cs, q[k], p[k]);
    }
  }
}
