/**
 Which comments a run of calls leaves and which events it appends, read off the calls alone.
 */
module CommentHistory {
  import opened Basics
  import opened Comments
  import opened Events

  lemma {:induction false} RunAppend(w: World, ops: seq<Op>, more: seq<Op>)
    ensures Run(w, ops + more) == Run(Run(w, ops), more)
  {
    if more == [] {
      assert ops + more == ops;
    } else {
      var front, last := Front(more), Last(more);
      RunAppend(w, ops, front);
      assert more == front + [last];
      ConcatAssoc(ops, front, [last]);
      RunSnoc(w, ops + front, last);
      RunSnoc(Run(w, ops), front, last);
    }
  }

  // ----- the calls -----

  // The parent that a creation names is there, on the same post.
  predicate HasParent(ops: seq<Op>, post: Id, parent: Option<Id>)
    decreases |ops|, 2
  {
    parent.Some? ==> Living(ops, parent.value).Some? && Living(ops, parent.value).value.postId == post
  }

  // The last call creates the comment: its id is new, and the parent it names is there.
  predicate Creates(ops: seq<Op>, id: Id)
    requires ops != []
    decreases |ops|, 0
  {
    var op := Last(ops);
    op.OpCreate? && op.id == id && !IsDrawn(Front(ops), id) && HasParent(Front(ops), op.post, op.parent)
  }

  predicate IsDrawn(ops: seq<Op>, id: Id)
    decreases |ops|, 1
  {
    ops != [] && (IsDrawn(Front(ops), id) || Creates(ops, id))
  }

  // The call takes the comment away: its author or an admin deletes it, or its post or its author is gone.
  predicate Removes(op: Op, c: Comment) {
    match op
    case OpCreate(_, _, _, _, _) => false
    case OpDelete(id, requester, role) => id == c.id && (requester == c.authorId || role == Admin)
    case OpPostGone(post) => post == c.postId
    case OpAuthorGone(author) => author == c.authorId
  }

  // The comment as it was created, if it was and nothing took it away since.
  function Living(ops: seq<Op>, id: Id): Option<Comment>
    decreases |ops|, 1
  {
    if ops == [] then None
    else
      var op, before := Last(ops), Living(Front(ops), id);
      if Creates(ops, id) then Some(Comment(id, op.post, op.author, op.parent, op.content))
      else if before.Some? && Removes(op, before.value) then None
      else before
  }

  // The events of the calls: one for each creation and one for each single deletion, and no other.
  function Told(ops: seq<Op>): seq<Event> {
    if ops == [] then []
    else
      var op, before := Last(ops), Told(Front(ops));
      match op
      case OpCreate(id, post, author, content, parent) =>
        if Creates(ops, id) then before + [CommentCreated(id, post, author, content, parent)] else before
      case OpDelete(id, _, _) =>
        var c := Living(Front(ops), id);
        if c.Some? && Removes(op, c.value) then before + [CommentDeleted(id, c.value.postId)] else before
      case _ => before
  }

  // ----- the table holds just that -----

  predicate RowMatches(w: World, ops: seq<Op>, id: Id) {
    && (id in w.born <==> IsDrawn(ops, id))
    && (id in w.rows <==> Living(ops, id).Some?)
    && (id in w.rows ==> id in w.born && w.rows[id].id == id && w.rows[id] == Living(ops, id).value)
  }

  ghost predicate MatchesCalls(w: World, ops: seq<Op>) {
    w.log == Told(ops) && forall id :: RowMatches(w, ops, id)
  }

  lemma CreatesIff(w: World, ops: seq<Op>, op: Op)
    requires MatchesCalls(w, ops) && op.OpCreate?
    ensures Creates(ops + [op], op.id) <==>
            op.id !in w.born &&
            (op.parent.Some? ==> op.parent.value in w.rows && w.rows[op.parent.value].postId == op.post)
  {
    FrontOfSnoc(ops, op);
    assert RowMatches(w, ops, op.id);
    if op.parent.Some? {
      assert RowMatches(w, ops, op.parent.value);
    }
  }

  lemma StepMatchesRow(w: World, ops: seq<Op>, op: Op, id: Id)
    requires MatchesCalls(w, ops)
    ensures RowMatches(Step(w, op), ops + [op], id)
  {
    FrontOfSnoc(ops, op);
    assert RowMatches(w, ops, id);
    if op.OpCreate? {
      CreatesIff(w, ops, op);
    }
  }

  lemma StepMatchesLog(w: World, ops: seq<Op>, op: Op)
    requires MatchesCalls(w, ops)
    ensures Step(w, op).log == Told(ops + [op])
  {
    FrontOfSnoc(ops, op);
    if op.OpCreate? {
      CreatesIff(w, ops, op);
    } else if op.OpDelete? {
      assert RowMatches(w, ops, op.id);
    }
  }

  lemma {:induction false} RunMatchesCalls(ops: seq<Op>)
    ensures MatchesCalls(Run(EMPTY_WORLD, ops), ops)
  {
    if ops != [] {
      var before, op := Front(ops), Last(ops);
      RunMatchesCalls(before);
      RunSnoc(EMPTY_WORLD, before, op);
      assert ops == before + [op];
      var w := Run(EMPTY_WORLD, before);
      StepMatchesLog(w, before, op);
      forall id
        ensures RowMatches(Step(w, op), ops, id)
      {
        StepMatchesRow(w, before, op, id);
      }
    }
  }

  /** Over every run, the table holds exactly the comments that were created and not taken away since. */
  lemma TableHoldsLiving(ops: seq<Op>, id: Id)
    ensures var rows := Run(EMPTY_WORLD, ops).rows;
            (if id in rows then Some(rows[id]) else None) == Living(ops, id)
  {
    RunMatchesCalls(ops);
    assert RowMatches(Run(EMPTY_WORLD, ops), ops, id);
  }

  /** Over every run, the stream holds one event for each creation and each single deletion, in their order. */
  lemma LogTellsCalls(ops: seq<Op>)
    ensures Run(EMPTY_WORLD, ops).log == Told(ops)
  {
    RunMatchesCalls(ops);
  }

  // ----- how a comment goes -----

  lemma StepRemovesOrKeeps(w: World, op: Op, id: Id)
    requires id in w.rows && id in w.born && w.rows[id].id == id
    ensures id in Step(w, op).born
    ensures if Removes(op, w.rows[id]) then id !in Step(w, op).rows
            else id in Step(w, op).rows && Step(w, op).rows[id] == w.rows[id]
  {
  }

  lemma {:induction false} StaysGone(w: World, more: seq<Op>, id: Id)
    requires id in w.born && id !in w.rows
    ensures id !in Run(w, more).rows
    decreases |more|
  {
    if more != [] {
      StaysGone(Step(w, more[0]), more[1..], id);
    }
  }

  lemma {:induction false} GoneOrKept(w: World, more: seq<Op>, id: Id)
    requires id in w.rows && id in w.born && w.rows[id].id == id
    ensures id in Run(w, more).rows <==> forall op :: op in more ==> !Removes(op, w.rows[id])
    ensures id in Run(w, more).rows ==> Run(w, more).rows[id] == w.rows[id]
    decreases |more|
  {
    if more != [] {
      var op, rest := more[0], more[1..];
      StepRemovesOrKeeps(w, op, id);
      assert more == [op] + rest;
      if Removes(op, w.rows[id]) {
        StaysGone(Step(w, op), rest, id);
      } else {
        GoneOrKept(Step(w, op), rest, id);
      }
    }
  }

  /**
   A comment that is there is gone later exactly if, in between, its author or an admin deleted it, or its
   post or its author went; until then it never changes.
   */
  lemma GoneIff(ops: seq<Op>, more: seq<Op>, id: Id)
    requires id in Run(EMPTY_WORLD, ops).rows
    ensures var c, rows := Run(EMPTY_WORLD, ops).rows[id], Run(EMPTY_WORLD, ops + more).rows;
            && (id !in rows <==> exists op :: op in more && Removes(op, c))
            && (id in rows ==> rows[id] == c)
  {
    RunMatchesCalls(ops);
    assert RowMatches(Run(EMPTY_WORLD, ops), ops, id);
    RunAppend(EMPTY_WORLD, ops, more);
    GoneOrKept(Run(EMPTY_WORLD, ops), more, id);
  }

  // ----- the answers -----

  /** Which creations and deletions are refused; a foreign comment is refused like a missing one. */
  lemma RefusedIff(ops: seq<Op>, id: Id, post: Id, author: Id, content: string, parent: Option<Id>,
                   requester: Id, role: Role)
    ensures var w := Run(EMPTY_WORLD, ops);
            && CreateComment(w, id, post, author, content, parent).1 ==
                 (if HasParent(ops, post, parent) then Ok(Comment(id, post, author, parent, content))
                  else Err(NoParent))
            && DeleteComment(w, id, requester, role).1 ==
                 (if Living(ops, id).Some? && (requester == Living(ops, id).value.authorId || role == Admin) then Ok(())
                  else Err(NoComment))
  {
    RunMatchesCalls(ops);
    assert RowMatches(Run(EMPTY_WORLD, ops), ops, id);
    if parent.Some? {
      assert RowMatches(Run(EMPTY_WORLD, ops), ops, parent.value);
    }
  }
}
