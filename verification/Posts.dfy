/**
 The post service as a state machine: its tables, the events it appends, and what every run of
 creations, updates, deletions and archivings keeps.
 */
module Posts {
  import opened Basics
  import opened Events
  import opened Slugs
  import opened Tags
  import opened Text

  datatype PostRow = PostRow(authorId: Id, title: string, slug: string, content: string, status: Status,
                             createdAt: int, updatedAt: int, publishedAt: Option<int>)

  // The tables posts, tags and post_tags, the last two by tag name.
  datatype Db = Db(posts: map<Id, PostRow>, tagNames: set<string>, postTags: map<Id, seq<string>>)

  /**
   What the tables and the stream do not record but the theorems speak of:
     drawn        the ids ever drawn for a post (a fresh UUID is an id outside this set);
     unannounced  the posts whose creation failed after the row was written;
     stale        the posts whose last written row was followed by no event;
     silenced     the posts archived by the user-deleted handler since their last event.
   */
  datatype History = History(drawn: set<Id>, unannounced: set<Id>, stale: set<Id>, silenced: set<Id>)

  datatype World = World(db: Db, log: seq<Event>, past: History)

  const EMPTY_WORLD := World(Db(map[], {}, map[]), [], History({}, {}, {}, {}))

  datatype NewPost = NewPost(title: string, content: string, tags: seq<string>, status: Status)

  datatype PostChange = PostChange(title: Option<string>, content: Option<string>,
                                   tags: Option<seq<string>>, status: Option<Status>)

  datatype PostView = PostView(id: Id, row: PostRow, tags: seq<string>)

  datatype PostError = NotFound | Forbidden | TagsRefused | EventRefused

  /**
   What the service meets outside: the runtime's lower-casing, and which events the broker carries. It has a
   limit on their size; only the created and updated events, which hold the content, can exceed it.
   */
  datatype Environment = Environment(lower: Lowering, carries: Event -> bool)

  const GENEROUS := Environment(ToLower, (e: Event) => true)

  // ----- the operations -----

  function TagsOf(db: Db, id: Id): seq<string> {
    if id in db.postTags then db.postTags[id] else []
  }

  function OtherSlugs(posts: map<Id, PostRow>, exclude: Option<Id>): (r: set<string>) {
    set id | id in posts && exclude != Some(id) :: posts[id].slug
  }

  function CreatedRow(posts: map<Id, PostRow>, author: Id, d: NewPost, now: int): PostRow {
    PostRow(author, d.title, UniqueSlug(OtherSlugs(posts, None), Slugify(d.title)), d.content, d.status,
            now, now, if d.status == Published then Some(now) else None)
  }

  function CreationEvents(id: Id, row: PostRow, tags: seq<string>): seq<Event> {
    [PostCreated(id, row.authorId, row.title, row.slug, row.content, tags, row.status)] +
    if row.status == Published then [PostPublished(id, row.authorId, row.title, row.slug)] else []
  }

  function CreatePost(env: Environment, w: World, id: Id, author: Id, d: NewPost, now: int): (World, Result<PostView, PostError>)
  {
    var row := CreatedRow(w.db.posts, author, d, now);
    var posts := w.db.posts[id := row];
    var (tagNames, names) := AddTags(w.db.tagNames, Lowered(env.lower, d.tags));
    var drawn := w.past.drawn + {id};
    if names.None? then
      (World(w.db.(posts := posts, tagNames := tagNames), w.log,
             w.past.(drawn := drawn, unannounced := w.past.unannounced + {id}, stale := w.past.stale + {id})),
       Err(TagsRefused))
    else
      var db := Db(posts, tagNames, if names.value == [] then w.db.postTags else w.db.postTags[id := names.value]);
      var events := CreationEvents(id, row, names.value);
      if env.carries(events[0]) then
        (World(db, w.log + events, w.past.(drawn := drawn)), Ok(PostView(id, row, names.value)))
      else
        (World(db, w.log,
               w.past.(drawn := drawn, unannounced := w.past.unannounced + {id}, stale := w.past.stale + {id})),
         Err(EventRefused))
  }

  function MayWrite(row: PostRow, requester: Id, role: Role): bool {
    row.authorId == requester || role == Admin
  }

  function Refusal(w: World, id: Id, requester: Id, role: Role): Option<PostError> {
    if role != Writer && role != Admin then Some(Forbidden)
    else if id !in w.db.posts then Some(NotFound)
    else if !MayWrite(w.db.posts[id], requester, role) then Some(Forbidden)
    else None
  }

  function UpdatedRow(posts: map<Id, PostRow>, id: Id, c: PostChange, now: int): PostRow
    requires id in posts
  {
    var before := posts[id];
    var retitled :=
      if Given(c.title) then
        before.(title := c.title.value,
              slug := UniqueSlug(OtherSlugs(posts, Some(id)), Slugify(c.title.value)))
      else before;
    var rewritten := if Given(c.content) then retitled.(content := c.content.value) else retitled;
    var moved := if c.status.Some? then rewritten.(status := c.status.value) else rewritten;
    moved.(updatedAt := now,
           publishedAt := if c.status == Some(Published) && before.publishedAt.None? then Some(now)
                          else before.publishedAt)
  }

  function UpdateEvents(id: Id, before: PostRow, row: PostRow, tags: seq<string>): seq<Event> {
    [PostUpdated(id, row.title, row.slug, row.content, tags, row.status)] +
    if before.status != Published && row.status == Published
    then [PostPublished(id, row.authorId, row.title, row.slug)] else []
  }

  function UpdatePost(env: Environment, w: World, id: Id, requester: Id, role: Role, c: PostChange, now: int)
    : (World, Result<PostView, PostError>)
  {
    var refusal := Refusal(w, id, requester, role);
    if refusal.Some? then (w, Err(refusal.value))
    else
      var row := UpdatedRow(w.db.posts, id, c, now);
      var posts := w.db.posts[id := row];
      var (tagNames, names) :=
        if c.tags.Some? then AddTags(w.db.tagNames, Lowered(env.lower, c.tags.value))
        else (w.db.tagNames, Some(TagsOf(w.db, id)));
      if names.None? then
        (World(Db(posts, tagNames, w.db.postTags - {id}), w.log, w.past.(stale := w.past.stale + {id})),
         Err(TagsRefused))
      else
        var db := Db(posts, tagNames, if c.tags.None? then w.db.postTags
                                      else if names.value == [] then w.db.postTags - {id}
                                      else w.db.postTags[id := names.value]);
        var events := UpdateEvents(id, w.db.posts[id], row, names.value);
        if env.carries(events[0]) then
          (World(db, w.log + events, w.past.(stale := w.past.stale - {id}, silenced := w.past.silenced - {id})),
           Ok(PostView(id, row, names.value)))
        else
          (World(db, w.log, w.past.(stale := w.past.stale + {id})), Err(EventRefused))
  }

  function DeletePost(w: World, id: Id, requester: Id, role: Role): (World, Result<(), PostError>)
  {
    var refusal := Refusal(w, id, requester, role);
    if refusal.Some? then (w, Err(refusal.value))
    else
      (World(Db(w.db.posts - {id}, w.db.tagNames, w.db.postTags - {id}),
             w.log + [PostDeleted(id)],
             w.past.(stale := w.past.stale - {id}, silenced := w.past.silenced - {id})),
       Ok(()))
  }

  function ArchivedRow(row: PostRow, author: Id, now: int): PostRow {
    if row.authorId == author then row.(status := Archived, updatedAt := now) else row
  }

  // The user-deleted handler: one bulk update, and no event.
  function ArchiveAuthor(w: World, author: Id, now: int): World {
    var posts := map id | id in w.db.posts :: ArchivedRow(w.db.posts[id], author, now);
    var hit := set id | id in w.db.posts && w.db.posts[id].authorId == author;
    w.(db := w.db.(posts := posts), past := w.past.(silenced := w.past.silenced + hit))
  }

  // ----- runs -----

  datatype Op =
    | Create(id: Id, author: Id, post: NewPost, now: int)
    | Update(id: Id, requester: Id, role: Role, change: PostChange, now: int)
    | Delete(id: Id, requester: Id, role: Role)
    | Archive(author: Id, now: int)

  // A creation whose id was drawn before does not happen.
  function Step(env: Environment, w: World, op: Op): World {
    match op
    case Create(id, author, d, now) => if id in w.past.drawn then w else CreatePost(env, w, id, author, d, now).0
    case Update(id, requester, role, c, now) => UpdatePost(env, w, id, requester, role, c, now).0
    case Delete(id, requester, role) => DeletePost(w, id, requester, role).0
    case Archive(author, now) => ArchiveAuthor(w, author, now)
  }

  function Run(env: Environment, w: World, ops: seq<Op>): World
    decreases |ops|
  {
    if ops == [] then w else Run(env, Step(env, w, ops[0]), ops[1..])
  }

  // The tags of a request, if it gives any.
  function RequestTags(op: Op): Option<seq<string>> {
    match op
    case Create(_, _, d, _) => Some(d.tags)
    case Update(_, _, _, c, _) => c.tags
    case _ => None
  }

  // The check a caller can make beforehand, with and without a look at the tags table.
  predicate TagsPass(env: Environment, w: World, op: Op) {
    RequestTags(op).Some? ==> TagsFit(w.db.tagNames, Lowered(env.lower, RequestTags(op).value))
  }

  predicate TagsSafe(env: Environment, op: Op) {
    RequestTags(op).Some? ==> SafeNames(Lowered(env.lower, RequestTags(op).value))
  }

  // The outcome: every tag of the request is entered, and no two are the same.
  predicate TagsArrive(env: Environment, w: World, op: Op) {
    RequestTags(op).Some? ==> AddTags(w.db.tagNames, Lowered(env.lower, RequestTags(op).value)).1.Some?
  }

  // The tags that the post has afterwards.
  function NamesAfter(env: Environment, w: World, op: Op): seq<string>
    requires (op.Create? || op.Update?) && TagsArrive(env, w, op)
  {
    if RequestTags(op).Some? then AddTags(w.db.tagNames, Lowered(env.lower, RequestTags(op).value)).1.value
    else TagsOf(w.db, op.id)
  }

  lemma TagsArriveIffPass(env: Environment, w: World, op: Op)
    requires FitsColumn(w.db.tagNames)
    ensures TagsArrive(env, w, op) <==> TagsPass(env, w, op)
  {
    if RequestTags(op).Some? {
      TagsArriveIff(w.db.tagNames, Lowered(env.lower, RequestTags(op).value));
    }
  }

  // The broker carries the event that describes the row the request asks for.
  predicate EventFits(env: Environment, w: World, op: Op)
    requires TagsArrive(env, w, op)
  {
    match op
    case Create(id, author, d, now) =>
      env.carries(CreationEvents(id, CreatedRow(w.db.posts, author, d, now), NamesAfter(env, w, op))[0])
    case Update(id, _, _, c, now) =>
      id in w.db.posts ==>
        env.carries(UpdateEvents(id, w.db.posts[id], UpdatedRow(w.db.posts, id, c, now), NamesAfter(env, w, op))[0])
    case _ => true
  }

  // The whole check that a caller can make beforehand, and the outcome.
  predicate CallPasses(env: Environment, w: World, op: Op) {
    TagsPass(env, w, op) && (TagsArrive(env, w, op) ==> EventFits(env, w, op))
  }

  predicate CallArrives(env: Environment, w: World, op: Op) {
    TagsArrive(env, w, op) && EventFits(env, w, op)
  }

  /** What a call finds out is what its caller could have checked. */
  lemma CallArrivesIffPasses(env: Environment, w: World, op: Op)
    requires FitsColumn(w.db.tagNames)
    ensures CallArrives(env, w, op) <==> CallPasses(env, w, op)
  {
    TagsArriveIffPass(env, w, op);
  }

  predicate AllArrive(env: Environment, w: World, ops: seq<Op>)
    decreases |ops|
  {
    ops != [] ==> CallArrives(env, w, ops[0]) && AllArrive(env, Step(env, w, ops[0]), ops[1..])
  }

  /** Calls with safe tags all arrive, as long as the broker carries their events. */
  lemma {:induction false} SafeCallsArrive(env: Environment, w: World, ops: seq<Op>)
    requires (forall e :: env.carries(e)) && forall op :: op in ops ==> TagsSafe(env, op)
    ensures AllArrive(env, w, ops)
    decreases |ops|
  {
    if ops != [] {
      SafeTagsArrive(env, w, ops[0]);
      SafeCallsArrive(env, Step(env, w, ops[0]), ops[1..]);
    }
  }

  lemma SafeTagsArrive(env: Environment, w: World, op: Op)
    requires TagsSafe(env, op)
    ensures TagsArrive(env, w, op)
  {
    if RequestTags(op).Some? {
      SafeNamesArrive(w.db.tagNames, Lowered(env.lower, RequestTags(op).value));
    }
  }

  // ----- what every run keeps: the tables -----

  ghost predicate SlugComesFromTitle(row: PostRow) {
    exists k: nat :: row.slug == Candidate(Slugify(row.title), k)
  }

  ghost predicate RowInv(row: PostRow) {
    SlugComesFromTitle(row) && (row.status == Published ==> row.publishedAt.Some?)
  }

  ghost predicate PostsInv(posts: map<Id, PostRow>) {
    && (forall p, q :: p in posts && q in posts && p != q ==> posts[p].slug != posts[q].slug)
    && (forall p :: p in posts ==> RowInv(posts[p]))
  }

  ghost predicate TagRowsInv(db: Db) {
    && db.postTags.Keys <= db.posts.Keys
    && (forall p :: p in db.postTags ==> Distinct(db.postTags[p]) && db.postTags[p] != [])
  }

  ghost predicate TablesInv(w: World) {
    w.db.posts.Keys <= w.past.drawn && PostsInv(w.db.posts) && TagRowsInv(w.db) && FitsColumn(w.db.tagNames)
  }

  lemma SlugIsFree(posts: map<Id, PostRow>, exclude: Option<Id>, title: string)
    ensures var slug := UniqueSlug(OtherSlugs(posts, exclude), Slugify(title));
            && (forall q :: q in posts && exclude != Some(q) ==> posts[q].slug != slug)
            && exists k: nat :: slug == Candidate(Slugify(title), k)
  {
    var slug := UniqueSlug(OtherSlugs(posts, exclude), Slugify(title));
    forall q | q in posts && exclude != Some(q)
      ensures posts[q].slug != slug
    {
      assert posts[q].slug in OtherSlugs(posts, exclude);
    }
  }

  lemma PutRowKeepsPosts(posts: map<Id, PostRow>, id: Id, row: PostRow)
    requires PostsInv(posts) && RowInv(row)
    requires forall q :: q in posts && q != id ==> posts[q].slug != row.slug
    ensures PostsInv(posts[id := row])
  {
  }

  lemma CreatedRowKeepsPosts(posts: map<Id, PostRow>, id: Id, author: Id, d: NewPost, now: int)
    requires PostsInv(posts) && id !in posts
    ensures PostsInv(posts[id := CreatedRow(posts, author, d, now)])
  {
    var row := CreatedRow(posts, author, d, now);
    SlugIsFree(posts, None, d.title);
    PutRowKeepsPosts(posts, id, row);
  }

  lemma UpdatedRowKeepsPosts(posts: map<Id, PostRow>, id: Id, c: PostChange, now: int)
    requires PostsInv(posts)
    ensures id in posts ==> PostsInv(posts[id := UpdatedRow(posts, id, c, now)])
  {
    if id !in posts {
      return;
    }
    var row := UpdatedRow(posts, id, c, now);
    assert RowInv(posts[id]);
    if Given(c.title) {
      SlugIsFree(posts, Some(id), c.title.value);
    } else {
      assert row.slug == posts[id].slug && row.title == posts[id].title;
    }
    PutRowKeepsPosts(posts, id, row);
  }

  lemma CreateKeepsPosts(env: Environment, w: World, id: Id, author: Id, d: NewPost, now: int)
    requires PostsInv(w.db.posts) && id !in w.db.posts
    ensures PostsInv(CreatePost(env, w, id, author, d, now).0.db.posts)
  {
    CreatedRowKeepsPosts(w.db.posts, id, author, d, now);
  }

  lemma UpdateKeepsPosts(env: Environment, w: World, id: Id, requester: Id, role: Role, c: PostChange, now: int)
    requires PostsInv(w.db.posts)
    ensures PostsInv(UpdatePost(env, w, id, requester, role, c, now).0.db.posts)
  {
    if Refusal(w, id, requester, role).None? {
      UpdatedRowKeepsPosts(w.db.posts, id, c, now);
    }
  }

  lemma ArchiveKeepsPosts(w: World, author: Id, now: int)
    requires PostsInv(w.db.posts)
    ensures PostsInv(ArchiveAuthor(w, author, now).db.posts)
  {
    var before, after := w.db.posts, ArchiveAuthor(w, author, now).db.posts;
    assert forall p :: p in after ==> p in before && after[p].slug == before[p].slug;
    forall p | p in after
      ensures RowInv(after[p])
    {
      assert RowInv(before[p]);
    }
  }

  lemma StepKeepsPosts(env: Environment, w: World, op: Op)
    requires PostsInv(w.db.posts) && w.db.posts.Keys <= w.past.drawn
    ensures PostsInv(Step(env, w, op).db.posts)
  {
    match op
    case Create(id, author, d, now) =>
      if id !in w.past.drawn { CreateKeepsPosts(env, w, id, author, d, now); }
    case Update(id, requester, role, c, now) => UpdateKeepsPosts(env, w, id, requester, role, c, now);
    case Delete(_, _, _) =>
    case Archive(author, now) => ArchiveKeepsPosts(w, author, now);
  }

  lemma AttachKeepsTagRows(db: Db, posts: map<Id, PostRow>, tagNames: set<string>, id: Id, names: seq<string>)
    requires TagRowsInv(db) && db.posts.Keys <= posts.Keys && id in posts && Distinct(names)
    ensures TagRowsInv(Db(posts, tagNames, db.postTags)) && TagRowsInv(Db(posts, tagNames, db.postTags - {id}))
    ensures names != [] ==> TagRowsInv(Db(posts, tagNames, db.postTags[id := names]))
  {
  }

  lemma CreateKeepsTagRows(env: Environment, w: World, op: Op)
    requires TagRowsInv(w.db) && op.Create?
    ensures TagRowsInv(Step(env, w, op).db)
  {
    var posts := w.db.posts[op.id := CreatedRow(w.db.posts, op.author, op.post, op.now)];
    var (tagNames, names) := AddTags(w.db.tagNames, Lowered(env.lower, op.post.tags));
    AttachKeepsTagRows(w.db, posts, tagNames, op.id, if names.Some? then names.value else []);
  }

  lemma UpdateKeepsTagRows(env: Environment, w: World, op: Op)
    requires TagRowsInv(w.db) && op.Update?
    ensures TagRowsInv(Step(env, w, op).db)
  {
    if Refusal(w, op.id, op.requester, op.role).None? {
      var posts := w.db.posts[op.id := UpdatedRow(w.db.posts, op.id, op.change, op.now)];
      if op.change.tags.Some? {
        var (tagNames, names) := AddTags(w.db.tagNames, Lowered(env.lower, op.change.tags.value));
        AttachKeepsTagRows(w.db, posts, tagNames, op.id, if names.Some? then names.value else []);
      } else {
        AttachKeepsTagRows(w.db, posts, w.db.tagNames, op.id, []);
      }
    }
  }

  lemma StepKeepsTagRows(env: Environment, w: World, op: Op)
    requires TagRowsInv(w.db)
    ensures TagRowsInv(Step(env, w, op).db)
  {
    if op.Create? {
      CreateKeepsTagRows(env, w, op);
    } else if op.Update? {
      UpdateKeepsTagRows(env, w, op);
    }
  }

  lemma StepKeepsColumn(env: Environment, w: World, op: Op)
    requires FitsColumn(w.db.tagNames)
    ensures FitsColumn(Step(env, w, op).db.tagNames)
  {
    if RequestTags(op).Some? {
      AddTagsKeepsColumn(w.db.tagNames, Lowered(env.lower, RequestTags(op).value));
    }
  }

  lemma StepKeepsDrawn(env: Environment, w: World, op: Op)
    requires w.db.posts.Keys <= w.past.drawn
    ensures Step(env, w, op).db.posts.Keys <= Step(env, w, op).past.drawn
  {
  }

  lemma StepKeepsTables(env: Environment, w: World, op: Op)
    requires TablesInv(w)
    ensures TablesInv(Step(env, w, op))
  {
    StepKeepsPosts(env, w, op);
    StepKeepsTagRows(env, w, op);
    StepKeepsColumn(env, w, op);
    StepKeepsDrawn(env, w, op);
  }

  /** Over every run, no two posts share a slug, and a published post has a publication date. */
  lemma {:induction false} RunKeepsTables(env: Environment, w: World, ops: seq<Op>)
    requires TablesInv(w)
    ensures TablesInv(Run(env, w, ops))
    decreases |ops|
  {
    if ops != [] {
      StepKeepsTables(env, w, ops[0]);
      RunKeepsTables(env, Step(env, w, ops[0]), ops[1..]);
    }
  }

  /** Retitling a post to the title it has never moves it to a later candidate than the one it holds. */
  lemma SameTitleKeepsOrImprovesSlug(posts: map<Id, PostRow>, id: Id, c: PostChange, now: int, k: nat)
    requires id in posts && forall q :: q in posts && q != id ==> posts[q].slug != posts[id].slug
    requires Given(c.title) && c.title.value == posts[id].title
    requires posts[id].slug == Candidate(Slugify(posts[id].title), k)
    ensures exists j: nat :: j <= k && UpdatedRow(posts, id, c, now).slug == Candidate(Slugify(posts[id].title), j)
  {
    var taken := OtherSlugs(posts, Some(id));
    assert posts[id].slug !in taken;
    var j := FirstFree(taken, Slugify(posts[id].title), 0);
    assert j <= k;
  }

  // ----- what every run keeps: the publication date -----

  lemma StepKeepsPublicationDate(env: Environment, w: World, op: Op, p: Id)
    requires w.db.posts.Keys <= w.past.drawn
    requires p in w.db.posts && w.db.posts[p].publishedAt.Some?
    ensures var posts := Step(env, w, op).db.posts;
            p in posts ==> posts[p].publishedAt == w.db.posts[p].publishedAt
  {
  }

  lemma StepNeverRevives(env: Environment, w: World, op: Op, p: Id)
    requires p in w.past.drawn && p !in w.db.posts
    ensures p in Step(env, w, op).past.drawn && p !in Step(env, w, op).db.posts
  {
  }

  lemma {:induction false} RunNeverRevives(env: Environment, w: World, ops: seq<Op>, p: Id)
    requires p in w.past.drawn && p !in w.db.posts
    ensures p !in Run(env, w, ops).db.posts
    decreases |ops|
  {
    if ops != [] {
      StepNeverRevives(env, w, ops[0], p);
      RunNeverRevives(env, Step(env, w, ops[0]), ops[1..], p);
    }
  }

  /** Once set, the publication date of a post never changes, across archiving and republishing too. */
  lemma {:induction false} PublicationDateIsFinal(env: Environment, w: World, ops: seq<Op>, p: Id)
    requires w.db.posts.Keys <= w.past.drawn
    requires p in w.db.posts && w.db.posts[p].publishedAt.Some?
    ensures var posts := Run(env, w, ops).db.posts;
            p in posts ==> posts[p].publishedAt == w.db.posts[p].publishedAt
    decreases |ops|
  {
    if ops != [] {
      var next := Step(env, w, ops[0]);
      StepKeepsDrawn(env, w, ops[0]);
      StepKeepsPublicationDate(env, w, ops[0], p);
      if p in next.db.posts {
        PublicationDateIsFinal(env, next, ops[1..], p);
      } else {
        assert p in next.past.drawn;
        RunNeverRevives(env, next, ops[1..], p);
      }
    }
  }
}
