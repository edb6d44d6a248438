/**
 What a run of calls leaves in the posts table, read off the calls alone: who may change a post, and that
 every column holds what was last given by someone who may.
 */
module PostHistory {
  import opened Basics
  import opened Events
  import opened Posts
  import opened Slugs
  import opened Tags
  import opened Text

  lemma {:induction false} RunSnoc(env: Environment, w: World, ops: seq<Op>, op: Op)
    ensures Run(env, w, ops + [op]) == Step(env, Run(env, w, ops), op)
    decreases |ops|
  {
    if ops == [] {
      assert ops + [op] == [op] && [op][1..] == [];
    } else {
      RunSnoc(env, Step(env, w, ops[0]), ops[1..], op);
      assert (ops + [op])[1..] == ops[1..] + [op];
    }
  }

  // ----- who may change a post -----

  predicate Entitled(requester: Id, role: Role, author: Id) {
    role == Admin || (role == Writer && requester == author)
  }

  // A creation of the post is among the calls; only the first one of them happens.
  predicate IsDrawn(ops: seq<Op>, p: Id) {
    ops != [] && (IsDrawn(Front(ops), p) || (Last(ops).Create? && Last(ops).id == p))
  }

  // The author named when the post was created, whatever happened since.
  function FirstAuthor(ops: seq<Op>, p: Id): Option<Id> {
    if ops == [] then None
    else if FirstAuthor(Front(ops), p).Some? then FirstAuthor(Front(ops), p)
    else if Last(ops).Create? && Last(ops).id == p then Some(Last(ops).author)
    else None
  }

  // The last call asks to change or delete the post, and its requester may.
  predicate IsRightful(op: Op, p: Id, author: Option<Id>) {
    (op.Update? || op.Delete?) && op.id == p && author.Some? && Entitled(op.requester, op.role, author.value)
  }

  // The post was created, and no rightful deletion followed.
  predicate IsLive(ops: seq<Op>, p: Id) {
    ops != [] &&
    if Last(ops).Create? && Last(ops).id == p && !IsDrawn(Front(ops), p) then true
    else IsLive(Front(ops), p) && !(Last(ops).Delete? && IsRightful(Last(ops), p, FirstAuthor(ops, p)))
  }

  // ----- what was last given -----

  // The last call writes the row: it creates the post, updates it rightfully or archives its author's posts.
  predicate WritesRow(ops: seq<Op>, p: Id)
    requires ops != []
  {
    var op, before := Last(ops), Front(ops);
    match op
    case Create(id, _, _, _) => id == p && !IsDrawn(before, p)
    case Update(_, _, _, _, _) => IsLive(before, p) && IsRightful(op, p, FirstAuthor(before, p))
    case Archive(author, _) => IsLive(before, p) && FirstAuthor(before, p) == Some(author)
    case Delete(_, _, _) => false
  }

  function LastGiven<T>(ops: seq<Op>, p: Id, give: Op -> Option<T>): Option<T> {
    if ops == [] then None
    else if WritesRow(ops, p) && give(Last(ops)).Some? then give(Last(ops))
    else LastGiven(Front(ops), p, give)
  }

  function FirstGiven<T>(ops: seq<Op>, p: Id, give: Op -> Option<T>): Option<T> {
    if ops == [] then None
    else if FirstGiven(Front(ops), p, give).Some? then FirstGiven(Front(ops), p, give)
    else if WritesRow(ops, p) then give(Last(ops))
    else None
  }

  function NonEmptyOf(field: Option<string>): Option<string> {
    if field == Some("") then None else field
  }

  function TitleGiven(op: Op): Option<string> {
    match op
    case Create(_, _, d, _) => Some(d.title)
    case Update(_, _, _, c, _) => NonEmptyOf(c.title)
    case _ => None
  }

  function ContentGiven(op: Op): Option<string> {
    match op
    case Create(_, _, d, _) => Some(d.content)
    case Update(_, _, _, c, _) => NonEmptyOf(c.content)
    case _ => None
  }

  function StatusGiven(op: Op): Option<Status> {
    match op
    case Create(_, _, d, _) => Some(d.status)
    case Update(_, _, _, c, _) => c.status
    case Archive(_, _) => Some(Archived)
    case Delete(_, _, _) => None
  }

  function TimeGiven(op: Op): Option<int> {
    if op.Delete? then None else Some(op.now)
  }

  function PublicationGiven(op: Op): Option<int> {
    if StatusGiven(op) == Some(Published) then Some(op.now) else None
  }

  // ----- the tables hold just that -----

  // The row of post p, column by column, the slug apart.
  predicate HoldsLastGiven(row: PostRow, ops: seq<Op>, p: Id) {
    && Some(row.authorId) == FirstAuthor(ops, p)
    && Some(row.title) == LastGiven(ops, p, TitleGiven)
    && Some(row.content) == LastGiven(ops, p, ContentGiven)
    && Some(row.status) == LastGiven(ops, p, StatusGiven)
    && Some(row.updatedAt) == LastGiven(ops, p, TimeGiven)
    && Some(row.createdAt) == FirstGiven(ops, p, TimeGiven)
    && row.publishedAt == FirstGiven(ops, p, PublicationGiven)
  }

  predicate MatchesCalls(w: World, ops: seq<Op>, p: Id) {
    && (p in w.past.drawn <==> IsDrawn(ops, p))
    && (FirstAuthor(ops, p).Some? <==> IsDrawn(ops, p))
    && (!IsDrawn(ops, p) ==> FirstGiven(ops, p, TimeGiven) == None && FirstGiven(ops, p, PublicationGiven) == None)
    && (p in w.db.posts <==> IsLive(ops, p))
    && (IsLive(ops, p) ==> IsDrawn(ops, p))
    && (p in w.db.posts ==> HoldsLastGiven(w.db.posts[p], ops, p))
  }

  lemma CreateWrites(env: Environment, w: World, op: Op)
    requires op.Create?
    ensures var v := Step(env, w, op);
            if op.id in w.past.drawn then v == w
            else v.past.drawn == w.past.drawn + {op.id} &&
                 v.db.posts == w.db.posts[op.id := CreatedRow(w.db.posts, op.author, op.post, op.now)]
  {
  }

  lemma NewRowMatches(v: World, w: World, ops: seq<Op>, op: Op, p: Id)
    requires MatchesCalls(w, ops, p) && op.Create? && op.id !in w.past.drawn
    requires v.past.drawn == w.past.drawn + {op.id}
    requires v.db.posts == w.db.posts[op.id := CreatedRow(w.db.posts, op.author, op.post, op.now)]
    ensures MatchesCalls(v, ops + [op], p)
  {
    FrontOfSnoc(ops, op);
  }

  lemma RepeatedCreationMatches(w: World, ops: seq<Op>, op: Op, p: Id)
    requires MatchesCalls(w, ops, p) && op.Create? && op.id in w.past.drawn
    ensures MatchesCalls(w, ops + [op], p)
  {
    FrontOfSnoc(ops, op);
  }

  lemma CreateMatches(env: Environment, w: World, ops: seq<Op>, op: Op, p: Id)
    requires MatchesCalls(w, ops, p) && op.Create?
    ensures MatchesCalls(Step(env, w, op), ops + [op], p)
  {
    CreateWrites(env, w, op);
    if op.id in w.past.drawn {
      RepeatedCreationMatches(w, ops, op, p);
    } else {
      NewRowMatches(Step(env, w, op), w, ops, op, p);
    }
  }

  lemma UpdateWrites(env: Environment, w: World, op: Op)
    requires op.Update?
    ensures var v := Step(env, w, op);
            && v.past.drawn == w.past.drawn
            && v.db.posts == if op.id in w.db.posts && Entitled(op.requester, op.role, w.db.posts[op.id].authorId)
                             then w.db.posts[op.id := UpdatedRow(w.db.posts, op.id, op.change, op.now)]
                             else w.db.posts
  {
  }

  lemma UpdatedRowHoldsLastGiven(row: PostRow, posts: map<Id, PostRow>, ops: seq<Op>, op: Op)
    requires op.Update? && op.id in posts && row == UpdatedRow(posts, op.id, op.change, op.now)
    requires HoldsLastGiven(posts[op.id], ops, op.id) && WritesRow(ops + [op], op.id)
    ensures HoldsLastGiven(row, ops + [op], op.id)
  {
    FrontOfSnoc(ops, op);
  }

  lemma UnwrittenRowHoldsLastGiven(row: PostRow, ops: seq<Op>, op: Op, p: Id)
    requires HoldsLastGiven(row, ops, p) && !WritesRow(ops + [op], p)
    ensures HoldsLastGiven(row, ops + [op], p)
  {
    FrontOfSnoc(ops, op);
  }

  lemma UpdateMatches(env: Environment, w: World, ops: seq<Op>, op: Op, p: Id)
    requires MatchesCalls(w, ops, p) && op.Update?
    ensures MatchesCalls(Step(env, w, op), ops + [op], p)
  {
    FrontOfSnoc(ops, op);
    UpdateWrites(env, w, op);
    if p in w.db.posts {
      if WritesRow(ops + [op], p) {
        UpdatedRowHoldsLastGiven(Step(env, w, op).db.posts[p], w.db.posts, ops, op);
      } else {
        UnwrittenRowHoldsLastGiven(w.db.posts[p], ops, op, p);
      }
    }
  }

  lemma DeleteMatches(env: Environment, w: World, ops: seq<Op>, op: Op, p: Id)
    requires MatchesCalls(w, ops, p) && op.Delete?
    ensures MatchesCalls(Step(env, w, op), ops + [op], p)
  {
    FrontOfSnoc(ops, op);
  }

  lemma ArchiveMatches(env: Environment, w: World, ops: seq<Op>, op: Op, p: Id)
    requires MatchesCalls(w, ops, p) && op.Archive?
    ensures MatchesCalls(Step(env, w, op), ops + [op], p)
  {
    FrontOfSnoc(ops, op);
  }

  lemma StepMatches(env: Environment, w: World, ops: seq<Op>, op: Op, p: Id)
    requires MatchesCalls(w, ops, p)
    ensures MatchesCalls(Step(env, w, op), ops + [op], p)
  {
    match op
    case Create(_, _, _, _) => CreateMatches(env, w, ops, op, p);
    case Update(_, _, _, _, _) => UpdateMatches(env, w, ops, op, p);
    case Delete(_, _, _) => DeleteMatches(env, w, ops, op, p);
    case Archive(_, _) => ArchiveMatches(env, w, ops, op, p);
  }

  lemma {:induction false} RunMatchesCalls(env: Environment, ops: seq<Op>, p: Id)
    ensures MatchesCalls(Run(env, EMPTY_WORLD, ops), ops, p)
  {
    if ops != [] {
      var before, op := Front(ops), Last(ops);
      RunMatchesCalls(env, before, p);
      RunSnoc(env, EMPTY_WORLD, before, op);
      assert ops == before + [op];
      StepMatches(env, Run(env, EMPTY_WORLD, before), before, op, p);
    }
  }

  /**
   Over every run: a post exists exactly if it was created and not rightfully deleted since; its author is
   the one named at its creation; title, content and status are the ones last given by the author as a
   writer, by an admin or by the archiving of the author; and the times are those of the first and the last
   such call, and of the first that published it.
   */
  lemma TableHoldsLastGiven(env: Environment, ops: seq<Op>, p: Id)
    ensures var posts := Run(env, EMPTY_WORLD, ops).db.posts;
            (p in posts <==> IsLive(ops, p)) && (p in posts ==> HoldsLastGiven(posts[p], ops, p))
  {
    RunMatchesCalls(env, ops, p);
  }

  // ----- the tags -----

  function TagsGiven(op: Op): Option<seq<string>> {
    RequestTags(op)
  }

  // The tags of a post are those last given, lower-cased and cut to the column, or none at all.
  predicate HoldsGivenTags(env: Environment, tags: seq<string>, given: Option<seq<string>>) {
    && given.Some?
    && (tags == [] || tags == Cuts(Lowered(env.lower, given.value)))
    && (SafeNames(Lowered(env.lower, given.value)) ==> tags == Lowered(env.lower, given.value))
  }

  lemma GivenTagsAreHeld(env: Environment, stored: set<string>, given: seq<string>, tags: seq<string>)
    requires FitsColumn(stored)
    requires var names := AddTags(stored, Lowered(env.lower, given)).1; tags == if names.Some? then names.value else []
    ensures HoldsGivenTags(env, tags, Some(given))
  {
    TagsArriveIff(stored, Lowered(env.lower, given));
    if SafeNames(Lowered(env.lower, given)) {
      SafeNamesArrive(stored, Lowered(env.lower, given));
    }
  }

  lemma CreateKeepsOtherTags(env: Environment, w: World, op: Op, p: Id)
    requires op.Create? && p in w.past.drawn
    ensures TagsOf(Step(env, w, op).db, p) == TagsOf(w.db, p)
  {
  }

  lemma CreateWritesTags(env: Environment, w: World, op: Op)
    requires op.Create? && op.id !in w.past.drawn && op.id !in w.db.postTags
    ensures var names := AddTags(w.db.tagNames, Lowered(env.lower, op.post.tags)).1;
            TagsOf(Step(env, w, op).db, op.id) == if names.Some? then names.value else []
  {
  }

  lemma UpdateWritesTags(env: Environment, w: World, op: Op, p: Id)
    requires op.Update?
    ensures var wrote := op.id == p && p in w.db.posts && Entitled(op.requester, op.role, w.db.posts[p].authorId);
            TagsOf(Step(env, w, op).db, p) ==
            if wrote && op.change.tags.Some? then
              var names := AddTags(w.db.tagNames, Lowered(env.lower, op.change.tags.value)).1;
              if names.Some? then names.value else []
            else TagsOf(w.db, p)
  {
  }

  predicate TagsMatchCalls(env: Environment, w: World, ops: seq<Op>, p: Id) {
    p in w.db.posts ==> HoldsGivenTags(env, TagsOf(w.db, p), LastGiven(ops, p, TagsGiven))
  }

  lemma GivenTagsMatch(env: Environment, w: World, v: World, ops: seq<Op>, op: Op, p: Id)
    requires FitsColumn(w.db.tagNames) && WritesRow(ops + [op], p) && TagsGiven(op).Some?
    requires var names := AddTags(w.db.tagNames, Lowered(env.lower, TagsGiven(op).value)).1;
             TagsOf(v.db, p) == if names.Some? then names.value else []
    ensures TagsMatchCalls(env, v, ops + [op], p)
  {
    FrontOfSnoc(ops, op);
    GivenTagsAreHeld(env, w.db.tagNames, TagsGiven(op).value, TagsOf(v.db, p));
  }

  lemma KeptTagsMatch(env: Environment, w: World, v: World, ops: seq<Op>, op: Op, p: Id)
    requires TagsMatchCalls(env, w, ops, p) && !(WritesRow(ops + [op], p) && TagsGiven(op).Some?)
    requires p in v.db.posts ==> p in w.db.posts && TagsOf(v.db, p) == TagsOf(w.db, p)
    ensures TagsMatchCalls(env, v, ops + [op], p)
  {
    FrontOfSnoc(ops, op);
  }

  lemma CreateMatchesTags(env: Environment, w: World, v: World, ops: seq<Op>, op: Op, p: Id)
    requires TablesInv(w) && MatchesCalls(w, ops, p) && TagsMatchCalls(env, w, ops, p)
    requires op.Create? && v == Step(env, w, op)
    ensures TagsMatchCalls(env, v, ops + [op], p)
  {
    FrontOfSnoc(ops, op);
    if op.id == p && p !in w.past.drawn {
      CreateWritesTags(env, w, op);
      GivenTagsMatch(env, w, v, ops, op, p);
    } else {
      CreateWrites(env, w, op);
      if p in w.past.drawn {
        CreateKeepsOtherTags(env, w, op, p);
      }
      KeptTagsMatch(env, w, v, ops, op, p);
    }
  }

  lemma UpdateMatchesTags(env: Environment, w: World, v: World, ops: seq<Op>, op: Op, p: Id)
    requires TablesInv(w) && MatchesCalls(w, ops, p) && TagsMatchCalls(env, w, ops, p)
    requires op.Update? && v == Step(env, w, op)
    ensures TagsMatchCalls(env, v, ops + [op], p)
  {
    FrontOfSnoc(ops, op);
    UpdateWrites(env, w, op);
    UpdateWritesTags(env, w, op, p);
    if WritesRow(ops + [op], p) && op.change.tags.Some? {
      GivenTagsMatch(env, w, v, ops, op, p);
    } else {
      KeptTagsMatch(env, w, v, ops, op, p);
    }
  }

  lemma OthersMatchTags(env: Environment, w: World, v: World, ops: seq<Op>, op: Op, p: Id)
    requires TagsMatchCalls(env, w, ops, p) && (op.Delete? || op.Archive?) && v == Step(env, w, op)
    ensures TagsMatchCalls(env, v, ops + [op], p)
  {
    KeptTagsMatch(env, w, v, ops, op, p);
  }

  lemma StepMatchesTags(env: Environment, w: World, v: World, ops: seq<Op>, op: Op, p: Id)
    requires TablesInv(w) && MatchesCalls(w, ops, p) && TagsMatchCalls(env, w, ops, p) && v == Step(env, w, op)
    ensures TagsMatchCalls(env, v, ops + [op], p)
  {
    if op.Create? {
      CreateMatchesTags(env, w, v, ops, op, p);
    } else if op.Update? {
      UpdateMatchesTags(env, w, v, ops, op, p);
    } else {
      OthersMatchTags(env, w, v, ops, op, p);
    }
  }

  lemma EmptyTablesInv()
    ensures TablesInv(EMPTY_WORLD)
  {
  }

  lemma LastCallMatchesTags(env: Environment, ops: seq<Op>, op: Op, p: Id)
    requires var w := Run(env, EMPTY_WORLD, ops);
             TablesInv(w) && MatchesCalls(w, ops, p) && TagsMatchCalls(env, w, ops, p)
    ensures TagsMatchCalls(env, Run(env, EMPTY_WORLD, ops + [op]), ops + [op], p)
  {
    RunSnoc(env, EMPTY_WORLD, ops, op);
    StepMatchesTags(env, Run(env, EMPTY_WORLD, ops), Run(env, EMPTY_WORLD, ops + [op]), ops, op, p);
  }

  lemma {:induction false} RunMatchesTags(env: Environment, ops: seq<Op>, p: Id)
    ensures TagsMatchCalls(env, Run(env, EMPTY_WORLD, ops), ops, p)
  {
    if ops != [] {
      var before, op := Front(ops), Last(ops);
      RunMatchesTags(env, before, p);
      EmptyTablesInv();
      RunKeepsTables(env, EMPTY_WORLD, before);
      RunMatchesCalls(env, before, p);
      LastCallMatchesTags(env, before, op, p);
      assert before + [op] == ops;
    }
  }

  /**
   Over every run, the tags of a live post are those of the last call that gave any and was entitled to:
   lower-cased and in their order if they are distinct, short and without NUL, and otherwise perhaps none.
   */
  lemma TagsHoldLastGiven(env: Environment, ops: seq<Op>, p: Id)
    ensures var db := Run(env, EMPTY_WORLD, ops).db;
            p in db.posts ==> HoldsGivenTags(env, TagsOf(db, p), LastGiven(ops, p, TagsGiven))
  {
    RunMatchesTags(env, ops, p);
  }

  // ----- the slug -----

  // Of the candidates for the title, the first that no other post holds.
  ghost predicate IsFirstFreeSlug(posts: map<Id, PostRow>, p: Id, slug: string, title: string) {
    exists k: nat ::
      && slug == Candidate(Slugify(title), k)
      && (forall q :: q in posts && q != p ==> posts[q].slug != slug)
      && (forall j :: 0 <= j < k ==> exists q :: q in posts && q != p && posts[q].slug == Candidate(Slugify(title), j))
  }

  lemma UniqueSlugIsFirstFree(posts: map<Id, PostRow>, p: Id, exclude: Option<Id>, title: string)
    requires exclude == Some(p) || (exclude == None && p !in posts)
    ensures IsFirstFreeSlug(posts, p, UniqueSlug(OtherSlugs(posts, exclude), Slugify(title)), title)
  {
    var taken, base := OtherSlugs(posts, exclude), Slugify(title);
    var k := FirstFree(taken, base, 0);
    SlugIsFree(posts, exclude, title);
    forall j | 0 <= j < k
      ensures exists q :: q in posts && q != p && posts[q].slug == Candidate(base, j)
    {
      assert Candidate(base, j) in taken;
    }
  }

  /**
   After any run, a call that gives a title and is entitled to gives the post the first candidate for that
   title that no other post holds; every other call leaves the slug of a post that stays.
   */
  lemma SlugFollowsTitle(env: Environment, ops: seq<Op>, op: Op, p: Id)
    ensures var before, after := Run(env, EMPTY_WORLD, ops).db.posts, Run(env, EMPTY_WORLD, ops + [op]).db.posts;
            p in after ==>
              if WritesRow(ops + [op], p) && TitleGiven(op).Some?
              then IsFirstFreeSlug(before, p, after[p].slug, TitleGiven(op).value)
              else p in before && after[p].slug == before[p].slug
  {
    FrontOfSnoc(ops, op);
    RunMatchesCalls(env, ops, p);
    RunSnoc(env, EMPTY_WORLD, ops, op);
    var w := Run(env, EMPTY_WORLD, ops);
    if op.Create? {
      CreateWrites(env, w, op);
      if p !in w.db.posts {
        UniqueSlugIsFirstFree(w.db.posts, p, None, op.post.title);
      }
    } else if op.Update? {
      UpdateWrites(env, w, op);
      if Given(op.change.title) {
        UniqueSlugIsFirstFree(w.db.posts, p, Some(p), op.change.title.value);
      }
    }
  }

  // ----- one more call -----

  /** The author of a live post is the one named at its creation, after any run. */
  lemma AuthorNeverChanges(env: Environment, ops: seq<Op>, more: seq<Op>, p: Id)
    ensures var before, after := Run(env, EMPTY_WORLD, ops).db.posts, Run(env, EMPTY_WORLD, ops + more).db.posts;
            p in before && p in after ==> after[p].authorId == before[p].authorId
  {
    TableHoldsLastGiven(env, ops, p);
    TableHoldsLastGiven(env, ops + more, p);
    FirstAuthorStays(ops, more, p);
  }

  lemma {:induction false} FirstAuthorStays(ops: seq<Op>, more: seq<Op>, p: Id)
    ensures FirstAuthor(ops, p).Some? ==> FirstAuthor(ops + more, p) == FirstAuthor(ops, p)
  {
    if more == [] {
      assert ops + more == ops;
    } else {
      FirstAuthorStays(ops, Front(more), p);
      assert Front(ops + more) == ops + Front(more);
    }
  }

  // What a step does to a post that is there.
  predicate ChangesByRight(w: World, v: World, op: Op, p: Id)
    requires p in w.db.posts
  {
    var author := Some(w.db.posts[p].authorId);
    && (p !in v.db.posts <==> op.Delete? && IsRightful(op, p, author))
    && (p in v.db.posts && v.db.posts[p] != w.db.posts[p] ==>
          (op.Update? && IsRightful(op, p, author)) || (op.Archive? && Some(op.author) == author))
    && (p in v.db.posts && TagsOf(v.db, p) != TagsOf(w.db, p) ==> op.Update? && IsRightful(op, p, author))
  }

  lemma UpdateIsEntitled(env: Environment, w: World, op: Op, p: Id)
    requires op.Update? && p in w.db.posts
    ensures ChangesByRight(w, Step(env, w, op), op, p)
  {
  }

  lemma CreateIsEntitled(env: Environment, w: World, op: Op, p: Id)
    requires op.Create? && p in w.db.posts && p in w.past.drawn
    ensures ChangesByRight(w, Step(env, w, op), op, p)
  {
    CreateWrites(env, w, op);
    CreateKeepsOtherTags(env, w, op, p);
    var v := Step(env, w, op);
    assert p in v.db.posts && v.db.posts[p] == w.db.posts[p];
  }

  lemma StepIsEntitled(env: Environment, w: World, op: Op, p: Id)
    requires p in w.db.posts && p in w.past.drawn
    ensures ChangesByRight(w, Step(env, w, op), op, p)
  {
    if op.Update? {
      UpdateIsEntitled(env, w, op, p);
    } else if op.Create? {
      CreateIsEntitled(env, w, op, p);
    }
  }

  /**
   After any run, a call removes a live post exactly if it is a deletion by an admin, or by the writer who
   is the author named at the post's creation; and it changes the row or the tags of the post at most if it
   is an update by one of those two, or archives the posts of that author (which leaves the tags).
   */
  lemma OnlyTheEntitledChange(env: Environment, ops: seq<Op>, op: Op, p: Id)
    requires IsLive(ops, p)
    ensures var w := Run(env, EMPTY_WORLD, ops);
            var v := Step(env, w, op);
            && p in w.db.posts
            && (p !in v.db.posts <==> op.Delete? && IsRightful(op, p, FirstAuthor(ops, p)))
            && (p in v.db.posts && v.db.posts[p] != w.db.posts[p] ==>
                  (op.Update? && IsRightful(op, p, FirstAuthor(ops, p))) ||
                  (op.Archive? && Some(op.author) == FirstAuthor(ops, p)))
            && (p in v.db.posts && TagsOf(v.db, p) != TagsOf(w.db, p) ==>
                  op.Update? && IsRightful(op, p, FirstAuthor(ops, p)))
  {
    RunMatchesCalls(env, ops, p);
    StepIsEntitled(env, Run(env, EMPTY_WORLD, ops), op, p);
  }

  /** The answers: which updates and deletions are refused, and how. */
  lemma RefusedIff(env: Environment, ops: seq<Op>, id: Id, requester: Id, role: Role, c: PostChange, now: int)
    ensures var w := Run(env, EMPTY_WORLD, ops);
            var change := Update(id, requester, role, c, now);
            var updated := UpdatePost(env, w, id, requester, role, c, now).1;
            var deleted := DeletePost(w, id, requester, role).1;
            && (updated == Err(NotFound) <==> (role == Writer || role == Admin) && !IsLive(ops, id))
            && (updated == Err(Forbidden) <==>
                  || (role != Writer && role != Admin)
                  || (IsLive(ops, id) && !IsRightful(change, id, FirstAuthor(ops, id))))
            && (deleted == Ok(()) <==> IsLive(ops, id) && IsRightful(change, id, FirstAuthor(ops, id)))
            && (deleted == Err(NotFound) <==> updated == Err(NotFound))
            && (deleted == Err(Forbidden) <==> updated == Err(Forbidden))
  {
    RunMatchesCalls(env, ops, id);
  }

  // A reply shows the post as the call leaves it.
  predicate Shows(v: World, id: Id, view: PostView) {
    id in v.db.posts && view == PostView(id, v.db.posts[id], TagsOf(v.db, id))
  }

  lemma CreateReplies(env: Environment, w: World, op: Op)
    requires op.Create? && op.id !in w.db.postTags
    ensures var (v, r) := CreatePost(env, w, op.id, op.author, op.post, op.now);
            (r.Ok? <==> CallArrives(env, w, op)) && (r.Ok? ==> Shows(v, op.id, r.value))
  {
  }

  lemma UpdateReplies(env: Environment, w: World, op: Op)
    requires op.Update?
    ensures var (v, r) := UpdatePost(env, w, op.id, op.requester, op.role, op.change, op.now);
            && (r.Ok? <==> op.id in w.db.posts && Entitled(op.requester, op.role, w.db.posts[op.id].authorId) &&
                           CallArrives(env, w, op))
            && (r.Ok? ==> Shows(v, op.id, r.value))
  {
  }

  /**
   After any run, a creation under a new id succeeds exactly if it arrives, an update exactly if it also is
   rightful; and the reply shows the row and the tags that the post then has.
   */
  lemma RepliesShowPost(env: Environment, ops: seq<Op>, op: Op)
    requires op.Update? || (op.Create? && !IsDrawn(ops, op.id))
    ensures var w := Run(env, EMPTY_WORLD, ops);
            var (v, r) := if op.Create? then CreatePost(env, w, op.id, op.author, op.post, op.now)
                          else UpdatePost(env, w, op.id, op.requester, op.role, op.change, op.now);
            && (r.Ok? <==>
                  && CallArrives(env, w, op)
                  && (op.Update? ==> IsLive(ops, op.id) && IsRightful(op, op.id, FirstAuthor(ops, op.id))))
            && (r.Ok? ==> Shows(v, op.id, r.value))
  {
    RunMatchesCalls(env, ops, op.id);
    RunKeepsTables(env, EMPTY_WORLD, ops);
    if op.Create? {
      CreateReplies(env, Run(env, EMPTY_WORLD, ops), op);
    } else {
      UpdateReplies(env, Run(env, EMPTY_WORLD, ops), op);
    }
  }

  /** Every event that a call appends describes the post as the call leaves it. */
  lemma AppendedEventsDescribePost(env: Environment, w: World, op: Op, k: nat)
    requires w.db.postTags.Keys <= w.past.drawn
    requires |w.log| <= k < |Step(env, w, op).log|
    ensures var v := Step(env, w, op);
            var e := v.log[k];
            && w.log <= v.log && IsPostEvent(e) && (op.Create? || op.Update? || op.Delete?) && e.postId == op.id
            && (e.PostDeleted? <==> op.Delete?) && (e.PostDeleted? <==> op.id !in v.db.posts)
            && (!e.PostDeleted? ==>
                  var row := v.db.posts[op.id];
                  && e.title == row.title && e.slug == row.slug
                  && (e.PostCreated? ==> op.Create? && e.authorId == row.authorId)
                  && (e.PostUpdated? ==> op.Update?)
                  && (e.PostPublished? ==> e.authorId == row.authorId && row.status == Published)
                  && (e.PostCreated? || e.PostUpdated? ==>
                        e.content == row.content && e.status == row.status && e.tags == TagsOf(v.db, op.id)))
  {
    if op.Create? {
      CreationIsDescribed(env, w, op, k);
    } else if op.Update? {
      UpdateIsDescribed(env, w, op, k);
    }
  }

  predicate Describes(e: Event, db: Db, id: Id) {
    && IsPostEvent(e) && !e.PostDeleted? && e.postId == id && id in db.posts
    && var row := db.posts[id];
       && e.title == row.title && e.slug == row.slug
       && (e.PostCreated? || e.PostPublished? ==> e.authorId == row.authorId)
       && (e.PostPublished? ==> row.status == Published)
       && (e.PostCreated? || e.PostUpdated? ==>
             e.content == row.content && e.status == row.status && e.tags == TagsOf(db, id))
  }

  lemma CreationIsDescribed(env: Environment, w: World, op: Op, k: nat)
    requires op.Create? && w.db.postTags.Keys <= w.past.drawn && |w.log| <= k < |Step(env, w, op).log|
    ensures var v := Step(env, w, op);
            w.log <= v.log && Describes(v.log[k], v.db, op.id) && !v.log[k].PostUpdated?
  {
    var row, v := CreatedRow(w.db.posts, op.author, op.post, op.now), Step(env, w, op);
    if CallArrives(env, w, op) && op.id !in w.past.drawn {
      NewPostHasNames(env, w, op);
      assert v.log == w.log + CreationEvents(op.id, row, NamesAfter(env, w, op));
    }
  }

  lemma NewPostHasNames(env: Environment, w: World, op: Op)
    requires op.Create? && w.db.postTags.Keys <= w.past.drawn && op.id !in w.past.drawn && TagsArrive(env, w, op)
    ensures TagsOf(Step(env, w, op).db, op.id) == NamesAfter(env, w, op)
  {
    assert op.id !in w.db.postTags;
  }

  lemma UpdateIsDescribed(env: Environment, w: World, op: Op, k: nat)
    requires op.Update? && |w.log| <= k < |Step(env, w, op).log|
    ensures var v := Step(env, w, op);
            w.log <= v.log && Describes(v.log[k], v.db, op.id) && !v.log[k].PostCreated?
  {
    var v := Step(env, w, op);
    if op.id in w.db.posts && CallArrives(env, w, op) {
      var row := UpdatedRow(w.db.posts, op.id, op.change, op.now);
      assert v.log == w.log || v.log == w.log + UpdateEvents(op.id, w.db.posts[op.id], row, NamesAfter(env, w, op));
    }
  }
}
