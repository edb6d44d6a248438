/** The comment service over its table, proved to take the steps of module Comments. */
module CommentService {
  import opened Basics
  import opened Comments
  import opened Events

  class CommentService {
    var comments: map<Id, Comment>
    const stream: EventStream
    ghost var born: map<Id, nat>

    ghost function State(): World
      reads this, stream
    {
      World(comments, stream.log, born)
    }

    constructor (stream: EventStream)
      requires stream.log == []
      ensures this.stream == stream && State() == EMPTY_WORLD
    {
      comments, born := map[], map[];
      this.stream := stream;
    }

    method CreateComment(id: Id, postId: Id, authorId: Id, content: string, parentId: Option<Id>)
      returns (r: Result<Comment, CommentError>)
      requires id !in born
      modifies this, stream
      ensures (State(), r) == Comments.CreateComment(old(State()), id, postId, authorId, content, parentId)
    {
      if parentId.Some? {
        if parentId.value !in comments || comments[parentId.value].postId != postId {
          return Err(NoParent);
        }
      }
      var comment := Comment(id, postId, authorId, parentId, content);
      comments := comments[id := comment];
      born := born[id := |born|];
      stream.Publish(CommentCreated(id, postId, authorId, content, parentId));
      return Ok(comment);
    }

    method DeleteComment(id: Id, requester: Id, role: Role) returns (r: Result<(), CommentError>)
      modifies this, stream
      ensures (State(), r) == Comments.DeleteComment(old(State()), id, requester, role)
    {
      if id !in comments {
        return Err(NoComment);
      }
      var comment := comments[id];
      if comment.authorId != requester && role != Admin {
        return Err(NoComment);
      }
      comments := comments - {id};
      stream.Publish(CommentDeleted(id, comment.postId));
      return Ok(());
    }

    // The post-deleted and the user-deleted subscriber: one bulk deletion each, and no event.
    method HandlePostDeleted(postId: Id)
      modifies this
      ensures State() == DropPost(old(State()), postId)
    {
      comments := comments - set id | id in comments && comments[id].postId == postId;
    }

    method HandleUserDeleted(userId: Id)
      modifies this
      ensures State() == DropAuthor(old(State()), userId)
    {
      comments := comments - set id | id in comments && comments[id].authorId == userId;
    }
  }
}
