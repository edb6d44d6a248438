/**
 What the page of a post gets to show: the comment service returns the newest comments, at most a page
 full, and a thread whose root is older than that is not shown at all.
 */
module ThreadPages {
  import opened Basics
  import opened Comments
  import Listing
  import opened Threads

  // The page and limit that a request without them gets.
  const FIRST_PAGE := 1
  const DEFAULT_LIMIT := 20

  function OfPost(table: seq<Comment>, post: Id): (r: seq<Comment>)
    ensures forall c :: c in r <==> c in table && c.postId == post
  {
    if table == [] then [] else (if table[0].postId == post then [table[0]] else []) + OfPost(table[1..], post)
  }

  // Strictly from the newest to the oldest.
  predicate ByAge(cs: seq<Comment>, w: World) {
    && (forall c :: c in cs ==> c.id in w.born)
    && (forall i, j :: 0 <= i < j < |cs| ==> w.born[cs[i].id] > w.born[cs[j].id])
  }

  ghost predicate NewestFirst(cs: seq<Comment>, w: World, post: Id) {
    ListsPost(cs, w, post) && ByAge(cs, w)
  }

  // The whole table in the order of the query.
  ghost predicate ListsTable(table: seq<Comment>, w: World) {
    && ByAge(table, w)
    && forall c :: c in table <==> c.id in w.rows && w.rows[c.id] == c
  }

  lemma HeadIsNewest(table: seq<Comment>, w: World, c: Comment)
    requires ByAge(table, w) && table != [] && c in table[1..]
    ensures c.id in w.born && w.born[table[0].id] > w.born[c.id]
  {
    var k :| 0 <= k < |table[1..]| && table[1..][k] == c;
    assert table[k + 1] == c;
  }

  lemma {:induction false} OfPostKeepsOrder(table: seq<Comment>, w: World, post: Id)
    requires ByAge(table, w)
    ensures ByAge(OfPost(table, post), w)
  {
    if table != [] {
      var rest := OfPost(table[1..], post);
      assert forall c :: c in table[1..] ==> c in table;
      OfPostKeepsOrder(table[1..], w, post);
      forall c | c in rest
        ensures w.born[table[0].id] > w.born[c.id]
      {
        assert c in table[1..];
        HeadIsNewest(table, w, c);
      }
      assert forall j :: 0 <= j < |rest| ==> rest[j] in rest;
    }
  }

  lemma ByAgeIsDistinct(cs: seq<Comment>, w: World)
    requires ByAge(cs, w)
    ensures DistinctIds(cs)
  {
    forall i, j | 0 <= i < j < |cs|
      ensures cs[i].id != cs[j].id
    {
      assert w.born[cs[i].id] > w.born[cs[j].id];
    }
  }

  /** What the query selects from the table is the list of the post's comments, newest first. */
  lemma OfPostIsNewestFirst(table: seq<Comment>, w: World, post: Id)
    requires ListsTable(table, w)
    ensures NewestFirst(OfPost(table, post), w, post)
  {
    OfPostKeepsOrder(table, w, post);
    ByAgeIsDistinct(OfPost(table, post), w);
  }

  // table is the comments table in the order of the query, newest first
  method GetCommentsByPost(table: seq<Comment>, postId: Id, page: nat, limit: nat)
    returns (comments: seq<Comment>, total: nat)
    requires page >= 1 && limit >= 1
    ensures comments == Listing.Page(OfPost(table, postId), page, limit)
    ensures total == |OfPost(table, postId)|
  {
    var offset := (page - 1) * limit;
    var matching := OfPost(table, postId);
    assert page * limit == offset + limit;
    comments := matching[Listing.Clip(offset, |matching|)..Listing.Clip(offset + limit, |matching|)];
    total := |matching|;
  }

  // ----- such lists exist, and there is only one -----

  // The comments of the post that were created before the n-th, newest first.
  predicate IsOld(w: World, post: Id, n: nat, c: Comment) {
    c.id in w.rows && w.rows[c.id] == c && c.postId == post && c.id in w.born && w.born[c.id] < n
  }

  ghost predicate ListsOld(cs: seq<Comment>, w: World, post: Id, n: nat) {
    ByAge(cs, w) && forall c :: c in cs <==> IsOld(w, post, n, c)
  }

  lemma OneMoreIsListed(cs: seq<Comment>, w: World, post: Id, n: nat, id: Id)
    requires ForestInv(w) && ListsOld(cs, w, post, n)
    requires id in w.rows && w.rows[id].id == id && id in w.born && w.born[id] == n && w.rows[id].postId == post
    ensures ListsOld([w.rows[id]] + cs, w, post, n + 1)
  {
    var more := [w.rows[id]] + cs;
    forall c
      ensures c in more <==> IsOld(w, post, n + 1, c)
    {
      assert c in more <==> c == w.rows[id] || c in cs;
    }
    forall j | 0 <= j < |cs|
      ensures w.born[id] > w.born[cs[j].id]
    {
      assert cs[j] in cs;
    }
  }

  lemma {:induction false} NewestBelow(w: World, post: Id, n: nat) returns (cs: seq<Comment>)
    requires ForestInv(w)
    ensures ListsOld(cs, w, post, n)
  {
    if n == 0 {
      cs := [];
    } else {
      cs := NewestBelow(w, post, n - 1);
      if id :| id in w.rows && w.rows[id].id == id && id in w.born && w.born[id] == n - 1 && w.rows[id].postId == post {
        OneMoreIsListed(cs, w, post, n - 1, id);
        cs := [w.rows[id]] + cs;
      }
    }
  }

  /** Every reachable table has a list of each post's comments, newest first. */
  lemma NewestFirstExists(w: World, post: Id)
    requires ForestInv(w)
    ensures exists cs :: NewestFirst(cs, w, post)
  {
    var cs := NewestBelow(w, post, |w.born|);
    ByAgeIsDistinct(cs, w);
    forall c
      ensures c in cs <==> c.id in w.rows && w.rows[c.id] == c && c.postId == post
    {
      assert c in cs <==> IsOld(w, post, |w.born|, c);
      assert c.id in w.rows ==> LinkInv(w, c.id);
    }
    assert NewestFirst(cs, w, post);
  }

  // ----- chains and the window -----

  lemma {:induction false} ChainGetsYounger(w: World, cs: seq<Comment>, post: Id, q: seq<Comment>)
    requires ForestInv(w) && ListsPost(cs, w, post) && IsChain(cs, q)
    ensures forall i :: 0 <= i < |q| ==> q[i].id in w.born && w.born[q[0].id] <= w.born[q[i].id]
  {
    if |q| == 1 {
      assert LinkInv(w, q[0].id);
    } else {
      ChainFront(cs, q);
      ChainGetsYounger(w, cs, post, Front(q));
      assert LinkInv(w, Last(q).id);
    }
  }

  lemma YoungerIsEarlier(cs: seq<Comment>, w: World, j: nat, k: nat)
    requires ByAge(cs, w) && j < |cs| && k < |cs| && cs[j].id in w.born && cs[k].id in w.born
    requires w.born[cs[j].id] >= w.born[cs[k].id]
    ensures j <= k
  {
  }

  // A chain lies in the window of the m newest comments exactly if its root does.
  lemma ChainFollowsRoot(w: World, cs: seq<Comment>, post: Id, m: nat, q: seq<Comment>)
    requires ForestInv(w) && NewestFirst(cs, w, post) && m <= |cs|
    requires IsChain(cs, q) && q[0] in cs[..m]
    ensures IsChain(cs[..m], q)
  {
    ChainGetsYounger(w, cs, post, q);
    var k :| 0 <= k < m && cs[k] == q[0];
    forall i | 0 <= i < |q|
      ensures q[i] in cs[..m]
    {
      assert q[i] in cs;
      var j :| 0 <= j < |cs| && cs[j] == q[i];
      YoungerIsEarlier(cs, w, j, k);
      assert cs[..m][j] == q[i];
    }
  }

  // Some chain of surviving comments leads to x from a parentless comment in the window.
  ghost predicate RootedInWindow(cs: seq<Comment>, m: nat, x: Id)
    requires m <= |cs|
  {
    exists q: seq<Comment> :: IsChain(cs, q) && Last(q).id == x && q[0] in cs[..m]
  }

  /**
   After any run, deletions included: of the m newest comments the page shows exactly those whose chain of
   parents survives and begins among these m, and none of them twice.
   */
  lemma WindowShowsIff(w: World, cs: seq<Comment>, post: Id, m: nat)
    requires ForestInv(w) && NewestFirst(cs, w, post) && m <= |cs|
    ensures DistinctIds(cs[..m]) && Distinct(RenderPage(cs[..m]))
    ensures forall x :: x in RenderPage(cs[..m]) <==> RootedInWindow(cs, m, x)
  {
    var window := cs[..m];
    PageShowsRootedOnce(window);
    forall x
      ensures Rooted(window, x) <==> RootedInWindow(cs, m, x)
    {
      if Rooted(window, x) {
        var q: seq<Comment> :| IsChain(window, q) && Last(q).id == x;
        assert IsChain(cs, q) && q[0] in window;
      }
      if RootedInWindow(cs, m, x) {
        var q: seq<Comment> :| IsChain(cs, q) && Last(q).id == x && q[0] in window;
        ChainFollowsRoot(w, cs, post, m, q);
      }
    }
  }

  // ----- the exact condition, read off the table -----

  // The parentless comment above a comment.
  ghost function Root(w: World, id: Id): (root: Id)
    requires ForestInv(w) && ParentsPresent(w) && id in w.rows
    ensures root in w.rows && w.rows[root].parentId.None? && w.rows[root].postId == w.rows[id].postId
    decreases w.born[id]
  {
    assert LinkInv(w, id);
    if w.rows[id].parentId.None? then id
    else
      assert LinkInv(w, w.rows[id].parentId.value);
      Root(w, w.rows[id].parentId.value)
  }

  lemma {:induction false} ChainBeginsAtRoot(w: World, cs: seq<Comment>, post: Id, q: seq<Comment>)
    requires ForestInv(w) && ParentsPresent(w) && ListsPost(cs, w, post) && IsChain(cs, q)
    ensures Last(q).id in w.rows && q[0].id == Root(w, Last(q).id)
  {
    assert Last(q) in cs;
    if |q| > 1 {
      ChainFront(cs, q);
      ChainBeginsAtRoot(w, cs, post, Front(q));
    }
  }

  function NewerInPost(w: World, post: Id, id: Id): set<Id> {
    set other | other in w.rows && w.rows[other].postId == post && other in w.born && id in w.born &&
                w.born[other] > w.born[id]
  }

  lemma {:induction false} IdsOfDistinct(cs: seq<Comment>)
    requires DistinctIds(cs)
    ensures |set c | c in cs :: c.id| == |cs|
  {
    if cs != [] {
      IdsOfDistinct(Front(cs));
      assert (set c | c in cs :: c.id) == (set c | c in Front(cs) :: c.id) + {Last(cs).id};
      assert Last(cs).id !in (set c | c in Front(cs) :: c.id);
    }
  }

  lemma NewerAreBefore(w: World, cs: seq<Comment>, post: Id, k: nat, other: Id)
    requires ForestInv(w) && NewestFirst(cs, w, post) && k < |cs|
    ensures other in NewerInPost(w, post, cs[k].id) <==> exists j :: 0 <= j < k && cs[j].id == other
  {
    assert cs[k] in cs;
    if other in NewerInPost(w, post, cs[k].id) {
      assert LinkInv(w, other) && w.rows[other] in cs;
      var j :| 0 <= j < |cs| && cs[j] == w.rows[other];
      assert j < k;
    }
    if j :| 0 <= j < k && cs[j].id == other {
      assert cs[j] in cs && w.born[cs[j].id] > w.born[cs[k].id];
    }
  }

  lemma NewerCount(w: World, cs: seq<Comment>, post: Id, k: nat)
    requires ForestInv(w) && NewestFirst(cs, w, post) && k < |cs|
    ensures |NewerInPost(w, post, cs[k].id)| == k
  {
    var front := cs[..k];
    forall other
      ensures other in NewerInPost(w, post, cs[k].id) <==> other in set c | c in front :: c.id
    {
      NewerAreBefore(w, cs, post, k, other);
      if j :| 0 <= j < k && cs[j].id == other {
        assert front[j] in front;
      }
    }
    assert NewerInPost(w, post, cs[k].id) == set c | c in front :: c.id;
    IdsOfDistinct(front);
  }

  /** A comment is among the m newest of its post exactly if fewer than m are newer. */
  lemma WindowByAge(w: World, cs: seq<Comment>, post: Id, m: nat, id: Id)
    requires ForestInv(w) && NewestFirst(cs, w, post) && m <= |cs|
    requires id in w.rows && w.rows[id].postId == post
    ensures w.rows[id] in cs[..m] <==> |NewerInPost(w, post, id)| < m
  {
    assert LinkInv(w, id) && w.rows[id] in cs;
    var k :| 0 <= k < |cs| && cs[k] == w.rows[id];
    NewerCount(w, cs, post, k);
    if k < m {
      assert cs[..m][k] == w.rows[id];
    }
    if w.rows[id] in cs[..m] {
      var j :| 0 <= j < m && cs[j] == w.rows[id];
      assert j == k;
    }
  }

  lemma FirstPageIsWindow(cs: seq<Comment>, limit: nat)
    requires limit >= 1
    ensures Listing.Page(cs, FIRST_PAGE, limit) == cs[..Listing.Clip(limit, |cs|)]
  {
  }

  /**
   Service and page together, after any creations and deletions of posts: the page of a post shows exactly
   the comments above which the parentless one has fewer than limit newer comments on the post. The older
   threads are not shown, not even their newest replies.
   */
  lemma PageShowsIffRootIsRecent(ops: seq<Op>, cs: seq<Comment>, post: Id, limit: nat)
    requires forall op :: op in ops ==> KeepsThreads(op)
    requires NewestFirst(cs, Run(EMPTY_WORLD, ops), post) && limit >= 1
    ensures var w := Run(EMPTY_WORLD, ops);
            var page := Listing.Page(cs, FIRST_PAGE, limit);
            && ForestInv(w) && ParentsPresent(w) && DistinctIds(page)
            && Distinct(RenderPage(page))
            && forall x :: x in RenderPage(page) <==>
                 x in w.rows && w.rows[x].postId == post && |NewerInPost(w, post, Root(w, x))| < limit
  {
    var w := Run(EMPTY_WORLD, ops);
    RunKeepsForest(EMPTY_WORLD, ops);
    RunKeepsParents(EMPTY_WORLD, ops);
    var m := Listing.Clip(limit, |cs|);
    FirstPageIsWindow(cs, limit);
    WindowShowsIff(w, cs, post, m);
    forall x
      ensures RootedInWindow(cs, m, x) <==>
              x in w.rows && w.rows[x].postId == post && |NewerInPost(w, post, Root(w, x))| < limit
    {
      RootIsInWindowIff(w, cs, post, limit, x);
    }
  }

  lemma NewerFitsList(w: World, cs: seq<Comment>, post: Id, id: Id)
    requires ForestInv(w) && NewestFirst(cs, w, post) && id in w.rows && w.rows[id].postId == post
    ensures |NewerInPost(w, post, id)| < |cs|
  {
    assert LinkInv(w, id) && w.rows[id] in cs[..|cs|];
    WindowByAge(w, cs, post, |cs|, id);
  }

  lemma RootIsInWindowIff(w: World, cs: seq<Comment>, post: Id, limit: nat, x: Id)
    requires ForestInv(w) && ParentsPresent(w) && NewestFirst(cs, w, post)
    ensures RootedInWindow(cs, Listing.Clip(limit, |cs|), x) <==>
            x in w.rows && w.rows[x].postId == post && |NewerInPost(w, post, Root(w, x))| < limit
  {
    var m := Listing.Clip(limit, |cs|);
    if RootedInWindow(cs, m, x) {
      var q: seq<Comment> :| IsChain(cs, q) && Last(q).id == x && q[0] in cs[..m];
      ChainBeginsAtRoot(w, cs, post, q);
      assert q[0] in cs && Last(q) in cs;
      WindowByAge(w, cs, post, m, q[0].id);
    }
    if x in w.rows && w.rows[x].postId == post && |NewerInPost(w, post, Root(w, x))| < limit {
      SurvivingChain(cs, w, post, x);
      var q: seq<Comment> :| IsChain(cs, q) && Last(q) == w.rows[x];
      assert LinkInv(w, x);
      ChainBeginsAtRoot(w, cs, post, q);
      assert q[0] in cs;
      NewerFitsList(w, cs, post, q[0].id);
      WindowByAge(w, cs, post, m, q[0].id);
    }
  }

  /** In particular, while a post has no more comments than the limit, its page shows all of them. */
  lemma ShortPageShowsEveryComment(ops: seq<Op>, cs: seq<Comment>, post: Id, limit: nat)
    requires forall op :: op in ops ==> KeepsThreads(op)
    requires NewestFirst(cs, Run(EMPTY_WORLD, ops), post) && |cs| <= limit && limit >= 1
    ensures var w := Run(EMPTY_WORLD, ops);
            var page := Listing.Page(cs, FIRST_PAGE, limit);
            && DistinctIds(page) && Distinct(RenderPage(page))
            && forall x :: x in RenderPage(page) <==> x in w.rows && w.rows[x].postId == post
  {
    FirstPageIsWindow(cs, limit);
    assert cs[..|cs|] == cs;
    PageShowsEveryComment(ops, cs, post);
  }

  // ----- a thread that disappears -----

  function CommentAt(i: nat): Comment {
    Comment(i, 0, 0, if i == 0 then None else Some(0), "c")
  }

  // One comment, and then n replies to it.
  function Thread(n: nat): seq<Op> {
    if n == 0 then [OpCreate(0, 0, 0, "c", None)] else Thread(n - 1) + [OpCreate(n, 0, 0, "c", Some(0))]
  }

  ghost function ThreadRows(n: nat): (rows: map<Id, Comment>)
    ensures forall i: Id :: (i in rows <==> i <= n) && (i in rows ==> rows[i] == CommentAt(i))
  {
    if n == 0 then map[0 := CommentAt(0)] else ThreadRows(n - 1)[n := CommentAt(n)]
  }

  ghost function ThreadBorn(n: nat): (born: map<Id, nat>)
    ensures |born| == n + 1
    ensures forall i: Id :: (i in born <==> i <= n) && (i in born ==> born[i] == i)
  {
    if n == 0 then map[0 := 0] else ThreadBorn(n - 1)[n := n]
  }

  ghost predicate HoldsThread(w: World, n: nat) {
    w.rows == ThreadRows(n) && w.born == ThreadBorn(n)
  }

  lemma FirstCommentIsThread()
    ensures HoldsThread(Step(EMPTY_WORLD, OpCreate(0, 0, 0, "c", None)), 0)
  {
    assert |EMPTY_WORLD.born| == 0;
  }

  lemma ReplyExtendsThread(w: World, n: nat)
    requires HoldsThread(w, n)
    ensures HoldsThread(Step(w, OpCreate(n + 1, 0, 0, "c", Some(0))), n + 1)
  {
    assert 0 in w.rows && w.rows[0] == CommentAt(0);
    assert n + 1 !in w.born;
  }

  lemma ThreadBegins(w: World)
    requires w == EMPTY_WORLD
    ensures HoldsThread(Run(w, Thread(0)), 0)
  {
    RunSnoc(w, [], OpCreate(0, 0, 0, "c", None));
    assert [] + Thread(0) == Thread(0);
    FirstCommentIsThread();
  }

  lemma ThreadGrows(w: World, n: nat)
    requires HoldsThread(Run(w, Thread(n)), n)
    ensures HoldsThread(Run(w, Thread(n + 1)), n + 1)
  {
    RunSnoc(w, Thread(n), OpCreate(n + 1, 0, 0, "c", Some(0)));
    ReplyExtendsThread(Run(w, Thread(n)), n);
  }

  lemma {:induction false} ThreadTable(w: World, n: nat)
    requires w == EMPTY_WORLD
    ensures HoldsThread(Run(w, Thread(n)), n)
  {
    if n == 0 {
      ThreadBegins(w);
    } else {
      ThreadTable(w, n - 1);
      ThreadGrows(w, n - 1);
    }
  }

  function ThreadNewestFirst(n: nat): (cs: seq<Comment>)
    ensures |cs| == n + 1 && forall k :: 0 <= k <= n ==> cs[k] == CommentAt(n - k)
  {
    seq(n + 1, k requires 0 <= k <= n => CommentAt(n - k))
  }

  lemma ThreadIsListed(w: World, n: nat)
    requires HoldsThread(w, n)
    ensures NewestFirst(ThreadNewestFirst(n), w, 0)
  {
    var cs := ThreadNewestFirst(n);
    assert ByAge(cs, w);
    ByAgeIsDistinct(cs, w);
    forall c
      ensures c in cs <==> c.id in w.rows && w.rows[c.id] == c && c.postId == 0
    {
      if c.id in w.rows && w.rows[c.id] == c {
        assert cs[n - c.id] == c;
      }
    }
  }

  lemma WindowOfReplies(n: nat, m: nat)
    requires m <= n
    ensures var window := ThreadNewestFirst(n)[..m];
            DistinctIds(window) && forall c :: c in window ==> !IsTop(c)
  {
    var window := ThreadNewestFirst(n)[..m];
    assert forall k :: 0 <= k < m ==> window[k] == CommentAt(n - k);
  }

  lemma RepliesRenderNothing(cs: seq<Comment>)
    requires DistinctIds(cs) && forall c :: c in cs ==> !IsTop(c)
    ensures RenderPage(cs) == []
  {
    FilterDropsAll(IsTop, cs);
  }

  /** Once a comment has limit replies, the page of its post shows nothing of the thread, nor anything else. */
  lemma RepliesHideThread(n: nat, limit: nat)
    requires 1 <= limit <= n
    ensures var cs := ThreadNewestFirst(n);
            var page := Listing.Page(cs, FIRST_PAGE, limit);
            && NewestFirst(cs, Run(EMPTY_WORLD, Thread(n)), 0) && |cs| == n + 1
            && DistinctIds(page) && RenderPage(page) == []
  {
    ThreadTable(EMPTY_WORLD, n);
    ThreadIsListed(Run(EMPTY_WORLD, Thread(n)), n);
    FirstPageIsWindow(ThreadNewestFirst(n), limit);
    WindowOfReplies(n, limit);
    RepliesRenderNothing(ThreadNewestFirst(n)[..limit]);
  }

  lemma TwentyRepliesHideThread()
    ensures var page := Listing.Page(ThreadNewestFirst(20), FIRST_PAGE, DEFAULT_LIMIT);
            && NewestFirst(ThreadNewestFirst(20), Run(EMPTY_WORLD, Thread(20)), 0)
            && DistinctIds(page) && RenderPage(page) == []
  {
    RepliesHideThread(20, DEFAULT_LIMIT);
  }

  lemma {:induction false} ThreadKeepsThreads(n: nat)
    ensures forall op :: op in Thread(n) ==> KeepsThreads(op)
  {
    if n > 0 {
      ThreadKeepsThreads(n - 1);
    }
  }

  lemma ThreadIsOnPost(w: World, n: nat)
    requires HoldsThread(w, n)
    ensures forall x: Id :: (x in w.rows && w.rows[x].postId == 0) <==> x <= n
  {
  }

  lemma ShortPageOf(ops: seq<Op>, w: World, cs: seq<Comment>, limit: nat, n: nat)
    requires w == Run(EMPTY_WORLD, ops) && forall op :: op in ops ==> KeepsThreads(op)
    requires NewestFirst(cs, w, 0) && |cs| <= limit && limit >= 1
    requires forall x: Id :: (x in w.rows && w.rows[x].postId == 0) <==> x <= n
    ensures var page := Listing.Page(cs, FIRST_PAGE, limit);
            DistinctIds(page) && forall x: Id :: x in RenderPage(page) <==> x <= n
  {
    ShortPageShowsEveryComment(ops, cs, 0, limit);
  }

  lemma FewRepliesShowThread(n: nat, limit: nat)
    requires n < limit
    ensures var cs := ThreadNewestFirst(n);
            var page := Listing.Page(cs, FIRST_PAGE, limit);
            && NewestFirst(cs, Run(EMPTY_WORLD, Thread(n)), 0)
            && DistinctIds(page) && forall x: Id :: x in RenderPage(page) <==> x <= n
  {
    ThreadTable(EMPTY_WORLD, n);
    var w := Run(EMPTY_WORLD, Thread(n));
    ThreadIsListed(w, n);
    ThreadIsOnPost(w, n);
    ThreadKeepsThreads(n);
    ShortPageOf(Thread(n), w, ThreadNewestFirst(n), limit, n);
  }

  /** With one reply less the page shows the whole thread. */
  lemma NineteenRepliesDoNot()
    ensures var page := Listing.Page(ThreadNewestFirst(19), FIRST_PAGE, DEFAULT_LIMIT);
            && NewestFirst(ThreadNewestFirst(19), Run(EMPTY_WORLD, Thread(19)), 0)
            && DistinctIds(page) && forall x: Id :: x in RenderPage(page) <==> x <= 19
  {
    FewRepliesShowThread(19, DEFAULT_LIMIT);
  }
}
