/** The events of the stream BLOG_EVENTS that the modelled services exchange. */
module Events {
  import opened Basics

  datatype Status = Draft | Published | Archived

  // The role header of a request: one of the three roles, some other text, or no header at all.
  datatype Role = Admin | Writer | User | NoRole

  datatype Event =
    | PostCreated(postId: Id, authorId: Id, title: string, slug: string, content: string,
                  tags: seq<string>, status: Status)
    | PostUpdated(postId: Id, title: string, slug: string, content: string,
                  tags: seq<string>, status: Status)
    | PostPublished(postId: Id, authorId: Id, title: string, slug: string)
    | PostDeleted(postId: Id)
    | UserCreated(userId: Id, username: string, email: string, role: string)
    | UserUpdated(userId: Id, newName: Option<string>, newEmail: Option<string>,
                  newBio: Option<string>, newRole: Option<string>)
    | UserDeleted(userId: Id)
    | CommentCreated(commentId: Id, onPost: Id, commenter: Id, text: string, parent: Option<Id>)
    | CommentDeleted(commentId: Id, onPost: Id)

  predicate IsPostEvent(e: Event) {
    e.PostCreated? || e.PostUpdated? || e.PostPublished? || e.PostDeleted?
  }

  // The append-only stream.
  class EventStream {
    var log: seq<Event>

    constructor ()
      ensures log == []
    {
      log := [];
    }

    method Publish(e: Event)
      modifies this
      ensures log == old(log) + [e]
    {
      log := log + [e];
    }
  }
}
