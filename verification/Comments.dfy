/**
 The comment service: creation below a parent, single deletion, deletion with the post and deletion
 with the author, and the forest that the parent links form over every run.
 */
module Comments {
  import opened Basics
  import opened Events

  datatype Comment = Comment(id: Id, postId: Id, authorId: Id, parentId: Option<Id>, content: string)

  /**
   rows   the table
   born   every comment id ever drawn, with its place in the order of creation; the table itself
          forgets the comments that were deleted
   */
  datatype World = World(rows: map<Id, Comment>, log: seq<Event>, born: map<Id, nat>)

  const EMPTY_WORLD := World(map[], [], map[])

  datatype CommentError = NoParent | NoComment

  function CreateComment(w: World, id: Id, post: Id, author: Id, content: string, parent: Option<Id>)
    : (World, Result<Comment, CommentError>)
  {
    if parent.Some? && (parent.value !in w.rows || w.rows[parent.value].postId != post) then (w, Err(NoParent))
    else
      var c := Comment(id, post, author, parent, content);
      (World(w.rows[id := c], w.log + [CommentCreated(id, post, author, content, parent)], w.born[id := |w.born|]),
       Ok(c))
  }

  function DeleteComment(w: World, id: Id, requester: Id, role: Role): (World, Result<(), CommentError>) {
    if id !in w.rows || (w.rows[id].authorId != requester && role != Admin) then (w, Err(NoComment))
    else (w.(rows := w.rows - {id}, log := w.log + [CommentDeleted(id, w.rows[id].postId)]), Ok(()))
  }

  function DropPost(w: World, post: Id): World {
    w.(rows := map id | id in w.rows && w.rows[id].postId != post :: w.rows[id])
  }

  function DropAuthor(w: World, author: Id): World {
    w.(rows := map id | id in w.rows && w.rows[id].authorId != author :: w.rows[id])
  }

  // ----- runs -----

  datatype Op =
    | OpCreate(id: Id, post: Id, author: Id, content: string, parent: Option<Id>)
    | OpDelete(id: Id, requester: Id, role: Role)
    | OpPostGone(post: Id)
    | OpAuthorGone(author: Id)

  // A creation whose id was drawn before does not happen.
  function Step(w: World, op: Op): World {
    match op
    case OpCreate(id, post, author, content, parent) =>
      if id in w.born then w else CreateComment(w, id, post, author, content, parent).0
    case OpDelete(id, requester, role) => DeleteComment(w, id, requester, role).0
    case OpPostGone(post) => DropPost(w, post)
    case OpAuthorGone(author) => DropAuthor(w, author)
  }

  function Run(w: World, ops: seq<Op>): World
    decreases |ops|
  {
    if ops == [] then w else Run(Step(w, ops[0]), ops[1..])
  }

  lemma {:induction false} RunSnoc(w: World, ops: seq<Op>, op: Op)
    ensures Run(w, ops + [op]) == Step(Run(w, ops), op)
    decreases |ops|
  {
    if ops == [] {
      assert ops + [op] == [op] && [op][1..] == [];
    } else {
      RunSnoc(Step(w, ops[0]), ops[1..], op);
      assert (ops + [op])[1..] == ops[1..] + [op];
    }
  }

  // ----- the forest -----

  // The link of one comment: its parent was created earlier and, if it survives, is on the same post.
  predicate LinkInv(w: World, id: Id)
    requires id in w.rows
  {
    var parent := w.rows[id].parentId;
    && w.rows[id].id == id && id in w.born
    && (parent.Some? ==>
          && parent.value in w.born && w.born[parent.value] < w.born[id]
          && (parent.value in w.rows ==> w.rows[parent.value].postId == w.rows[id].postId))
  }

  predicate ForestInv(w: World) {
    && (forall id :: id in w.born ==> w.born[id] < |w.born|)
    && (forall a, b :: a in w.born && b in w.born && w.born[a] == w.born[b] ==> a == b)
    && (forall id :: id in w.rows ==> LinkInv(w, id))
  }

  lemma CreateKeepsForest(w: World, op: Op)
    requires ForestInv(w) && op.OpCreate?
    ensures ForestInv(Step(w, op))
  {
    var v := Step(w, op);
    if v != w {
      assert v.born.Keys == w.born.Keys + {op.id};
      assert |v.born| == |w.born| + 1;
      forall id | id in v.rows
        ensures LinkInv(v, id)
      {
        if id != op.id {
          assert LinkInv(w, id);
        } else if op.parent.Some? {
          assert LinkInv(w, op.parent.value);
        }
      }
    }
  }

  lemma StepKeepsForest(w: World, op: Op)
    requires ForestInv(w)
    ensures ForestInv(Step(w, op))
  {
    if op.OpCreate? {
      CreateKeepsForest(w, op);
    } else {
      var v := Step(w, op);
      forall id | id in v.rows
        ensures LinkInv(v, id)
      {
        assert LinkInv(w, id);
      }
    }
  }

  /**
   Over every run, parent links lead to comments created earlier, so they form no cycle, and a
   surviving parent is on the same post.
   */
  lemma {:induction false} RunKeepsForest(w: World, ops: seq<Op>)
    requires ForestInv(w)
    ensures ForestInv(Run(w, ops))
    decreases |ops|
  {
    if ops != [] {
      StepKeepsForest(w, ops[0]);
      RunKeepsForest(Step(w, ops[0]), ops[1..]);
    }
  }

  // ----- when no single comment is deleted -----

  predicate KeepsThreads(op: Op) {
    op.OpCreate? || op.OpPostGone?
  }

  predicate ParentsPresent(w: World) {
    forall id :: id in w.rows && w.rows[id].parentId.Some? ==> w.rows[id].parentId.value in w.rows
  }

  lemma StepKeepsParents(w: World, op: Op)
    requires ForestInv(w) && ParentsPresent(w) && KeepsThreads(op)
    ensures ParentsPresent(Step(w, op))
  {
    forall id | id in w.rows
      ensures LinkInv(w, id)
    {
    }
  }

  lemma {:induction false} RunKeepsParents(w: World, ops: seq<Op>)
    requires ForestInv(w) && ParentsPresent(w)
    requires forall op :: op in ops ==> KeepsThreads(op)
    ensures ParentsPresent(Run(w, ops))
    decreases |ops|
  {
    if ops != [] {
      StepKeepsForest(w, ops[0]);
      StepKeepsParents(w, ops[0]);
      RunKeepsParents(Step(w, ops[0]), ops[1..]);
    }
  }
}
