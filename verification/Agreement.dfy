/**
 The post service, the stream and the search indexer together: when the indexer has consumed the
 stream, the index agrees with the tables.
 */
module Agreement {
  import opened Basics
  import opened Events
  import opened Posts
  import opened Search
  import opened Slugs
  import opened Tags
  import opened Text

  // Document and row of one post show the same text. The author of a document is blank after updates.
  predicate Shows(doc: Doc, p: Id, row: PostRow, tags: seq<string>, silenced: bool) {
    && doc.postId == p
    && doc.title == row.title && doc.content == row.content && doc.slug == row.slug
    && doc.tags == Join(tags, ", ")
    && (doc.authorId == None || doc.authorId == Some(row.authorId))
    && (if silenced then row.status == Archived else doc.status == row.status)
  }

  predicate AgreesOn(w: World, index: map<Id, Doc>, p: Id) {
    && (p in index ==> p in w.db.posts)
    && (p in w.db.posts && p !in w.past.stale ==>
          p in index && Shows(index[p], p, w.db.posts[p], TagsOf(w.db, p), p in w.past.silenced))
  }

  ghost predicate AgreementInv(w: World) {
    && w.db.posts.Keys <= w.past.drawn
    && w.db.postTags.Keys <= w.db.posts.Keys
    && FitsColumn(w.db.tagNames)
    && (forall p :: p in w.past.silenced ==> p in w.past.drawn)
    && (forall p :: p in w.past.stale ==> p in w.past.drawn)
    && (forall p :: AgreesOn(w, Fold(w.log), p))
  }

  // ----- the four operations, one post at a time -----

  lemma FoldOfOneOrTwo(log: seq<Event>, events: seq<Event>)
    requires 1 <= |events| <= 2
    requires |events| == 2 ==> events[1].PostPublished?
    ensures Fold(log + events) == Apply(Fold(log), events[0])
  {
    assert Front(log + [events[0]]) == log;
    if |events| == 2 {
      assert log + events == (log + [events[0]]) + [events[1]];
      assert Front(log + events) == log + [events[0]];
    } else {
      assert events == [events[0]];
    }
  }

  lemma FoldOfCreation(log: seq<Event>, id: Id, row: PostRow, names: seq<string>)
    ensures Fold(log + CreationEvents(id, row, names)) ==
            Fold(log)[id := Doc(id, row.title, row.content, row.slug, Join(names, ", "), Some(row.authorId), row.status)]
  {
    FoldOfOneOrTwo(log, CreationEvents(id, row, names));
  }

  lemma AnnouncedCreationAgrees(env: Environment, w: World, op: Op)
    requires op.Create? && op.id !in w.past.drawn && AgreementInv(w) && CallArrives(env, w, op)
    ensures AgreesOn(Step(env, w, op), Fold(Step(env, w, op).log), op.id)
  {
    var row, names := CreatedRow(w.db.posts, op.author, op.post, op.now), NamesAfter(env, w, op);
    var v := Step(env, w, op);
    FoldOfCreation(w.log, op.id, row, names);
    assert v.log == w.log + CreationEvents(op.id, row, names);
    assert v.db.posts[op.id] == row && TagsOf(v.db, op.id) == names;
  }

  lemma AnnouncedCreationElsewhere(env: Environment, w: World, op: Op, p: Id)
    requires op.Create? && op.id !in w.past.drawn && AgreementInv(w) && p != op.id && CallArrives(env, w, op)
    ensures AgreesOn(Step(env, w, op), Fold(Step(env, w, op).log), p)
  {
    var row, names := CreatedRow(w.db.posts, op.author, op.post, op.now), NamesAfter(env, w, op);
    assert AgreesOn(w, Fold(w.log), p);
    FoldOfCreation(w.log, op.id, row, names);
    assert Step(env, w, op).log == w.log + CreationEvents(op.id, row, names);
  }

  lemma UnannouncedCreationElsewhere(env: Environment, w: World, op: Op, p: Id)
    requires op.Create? && op.id !in w.past.drawn && AgreementInv(w) && p != op.id && !CallArrives(env, w, op)
    ensures AgreesOn(Step(env, w, op), Fold(Step(env, w, op).log), p)
  {
    assert AgreesOn(w, Fold(w.log), p);
    assert Step(env, w, op).log == w.log;
  }

  lemma CreateAgrees(env: Environment, w: World, op: Op, p: Id)
    requires op.Create? && op.id !in w.past.drawn && AgreementInv(w)
    ensures AgreesOn(Step(env, w, op), Fold(Step(env, w, op).log), p)
  {
    if CallArrives(env, w, op) {
      if p == op.id {
        AnnouncedCreationAgrees(env, w, op);
      } else {
        AnnouncedCreationElsewhere(env, w, op, p);
      }
    } else if p != op.id {
      UnannouncedCreationElsewhere(env, w, op, p);
    }
  }

  lemma FoldOfUpdate(w: World, op: Op, row: PostRow, names: seq<string>)
    requires op.Update? && op.id in w.db.posts
    ensures Fold(w.log + UpdateEvents(op.id, w.db.posts[op.id], row, names)) ==
            Fold(w.log)[op.id := Doc(op.id, row.title, row.content, row.slug, Join(names, ", "), None, row.status)]
  {
    FoldOfOneOrTwo(w.log, UpdateEvents(op.id, w.db.posts[op.id], row, names));
  }

  lemma AnnouncedUpdateAgrees(env: Environment, w: World, op: Op)
    requires op.Update? && Refusal(w, op.id, op.requester, op.role).None? && CallArrives(env, w, op)
    ensures AgreesOn(Step(env, w, op), Fold(Step(env, w, op).log), op.id)
  {
    var row, names := UpdatedRow(w.db.posts, op.id, op.change, op.now), NamesAfter(env, w, op);
    var v := Step(env, w, op);
    FoldOfUpdate(w, op, row, names);
    assert v.log == w.log + UpdateEvents(op.id, w.db.posts[op.id], row, names);
    assert v.db.posts[op.id] == row && TagsOf(v.db, op.id) == names;
  }

  lemma UpdateAgreesHere(env: Environment, w: World, op: Op)
    requires op.Update? && AgreementInv(w)
    ensures AgreesOn(Step(env, w, op), Fold(Step(env, w, op).log), op.id)
  {
    assert AgreesOn(w, Fold(w.log), op.id);
    if Refusal(w, op.id, op.requester, op.role).None? && CallArrives(env, w, op) {
      AnnouncedUpdateAgrees(env, w, op);
    }
  }

  lemma UpdateAgreesElsewhere(env: Environment, w: World, op: Op, p: Id)
    requires op.Update? && AgreementInv(w) && p != op.id
    ensures AgreesOn(Step(env, w, op), Fold(Step(env, w, op).log), p)
  {
    assert AgreesOn(w, Fold(w.log), p);
    if Refusal(w, op.id, op.requester, op.role).None? && CallArrives(env, w, op) {
      var row := UpdatedRow(w.db.posts, op.id, op.change, op.now);
      FoldOfUpdate(w, op, row, NamesAfter(env, w, op));
    }
  }

  lemma UpdateAgrees(env: Environment, w: World, op: Op, p: Id)
    requires op.Update? && AgreementInv(w)
    ensures AgreesOn(Step(env, w, op), Fold(Step(env, w, op).log), p)
  {
    if p == op.id {
      UpdateAgreesHere(env, w, op);
    } else {
      UpdateAgreesElsewhere(env, w, op, p);
    }
  }

  lemma DeleteAgrees(env: Environment, w: World, op: Op, p: Id)
    requires op.Delete? && AgreementInv(w)
    ensures AgreesOn(Step(env, w, op), Fold(Step(env, w, op).log), p)
  {
    assert AgreesOn(w, Fold(w.log), p);
    FoldOfOneOrTwo(w.log, [PostDeleted(op.id)]);
  }

  lemma ArchiveAgrees(env: Environment, w: World, op: Op, p: Id)
    requires op.Archive? && AgreementInv(w)
    ensures AgreesOn(Step(env, w, op), Fold(Step(env, w, op).log), p)
  {
    assert AgreesOn(w, Fold(w.log), p);
  }

  lemma StepAgrees(env: Environment, w: World, op: Op, p: Id)
    requires AgreementInv(w)
    ensures AgreesOn(Step(env, w, op), Fold(Step(env, w, op).log), p)
  {
    assert AgreesOn(w, Fold(w.log), p);
    if op.Update? {
      UpdateAgrees(env, w, op, p);
    } else if op.Delete? {
      DeleteAgrees(env, w, op, p);
    } else if op.Archive? {
      ArchiveAgrees(env, w, op, p);
    } else if op.id !in w.past.drawn {
      CreateAgrees(env, w, op, p);
    }
  }

  lemma StepKeepsKeys(env: Environment, w: World, op: Op)
    requires AgreementInv(w)
    ensures var v := Step(env, w, op);
            && v.db.posts.Keys <= v.past.drawn && v.db.postTags.Keys <= v.db.posts.Keys
            && FitsColumn(v.db.tagNames)
            && (forall p :: p in v.past.silenced ==> p in v.past.drawn)
            && (forall p :: p in v.past.stale ==> p in v.past.drawn)
  {
    StepKeepsColumn(env, w, op);
  }

  lemma StepKeepsAgreement(env: Environment, w: World, op: Op)
    requires AgreementInv(w)
    ensures AgreementInv(Step(env, w, op))
  {
    StepKeepsKeys(env, w, op);
    forall p
      ensures AgreesOn(Step(env, w, op), Fold(Step(env, w, op).log), p)
    {
      StepAgrees(env, w, op, p);
    }
  }

  // ----- the whole system -----

  datatype System = System(w: World, ix: Indexer)

  datatype Move = PostCall(op: Op) | Index(act: Action)

  const EMPTY_SYSTEM := System(EMPTY_WORLD, EMPTY_INDEXER)

  // A service call publishes what it appended to the stream; the stream has no other publisher here.
  function Advance(env: Environment, s: System, m: Move): System {
    match m
    case PostCall(op) =>
      var w := Step(env, s.w, op);
      System(w, if s.w.log <= w.log then Act(s.ix, Publish(w.log[|s.w.log|..])) else s.ix)
    case Index(act) => if act.Publish? then s else s.(ix := Act(s.ix, act))
  }

  function RunSystem(env: Environment, s: System, moves: seq<Move>): System
    decreases |moves|
  {
    if moves == [] then s else RunSystem(env, Advance(env, s, moves[0]), moves[1..])
  }

  ghost predicate SystemInv(s: System) {
    s.ix.log == s.w.log && AgreementInv(s.w) && IndexerInv(s.ix)
  }

  lemma AdvanceKeepsInv(env: Environment, s: System, m: Move)
    requires SystemInv(s)
    ensures SystemInv(Advance(env, s, m))
  {
    match m
    case PostCall(op) =>
      StepKeepsAgreement(env, s.w, op);
      var w := Step(env, s.w, op);
      assert s.w.log <= w.log;
      ActKeepsInv(s.ix, Publish(w.log[|s.w.log|..]));
    case Index(act) =>
      ActKeepsInv(s.ix, act);
  }

  lemma {:induction false} RunSystemKeepsInv(env: Environment, s: System, moves: seq<Move>)
    requires SystemInv(s)
    ensures SystemInv(RunSystem(env, s, moves))
    decreases |moves|
  {
    if moves != [] {
      AdvanceKeepsInv(env, s, moves[0]);
      RunSystemKeepsInv(env, Advance(env, s, moves[0]), moves[1..]);
    }
  }

  lemma EmptySystemInv()
    ensures SystemInv(EMPTY_SYSTEM)
  {
    EmptyIndexerInv();
  }

  // What an index built from the base on holds of post p.
  predicate ShowsRow(w: World, index: map<Id, Doc>, base: nat, p: Id) {
    && (p in index ==> p in w.db.posts)
    && (p in w.db.posts && p !in w.past.stale ==>
          && (p in index <==> LastTouch(w.log, p) >= base)
          && (p in index ==> Shows(index[p], p, w.db.posts[p], TagsOf(w.db, p), p in w.past.silenced)))
  }

  lemma SuffixShowsRow(w: World, base: nat, p: Id)
    requires base <= |w.log| && AgreesOn(w, Fold(w.log), p)
    ensures ShowsRow(w, Fold(w.log[base..]), base, p)
  {
    SuffixFold(w.log, base, p);
  }

  /**
   In every reachable drained state, after any calls, crashes and new volumes: only live posts are indexed,
   those whose last write was announced with the text of their row; and of the latter exactly the ones are
   indexed whose last event lies at the base of the index or later.
   */
  lemma DrainedIndexShowsRows(env: Environment, moves: seq<Move>)
    ensures var s := RunSystem(env, EMPTY_SYSTEM, moves);
            && s.ix.base <= |s.w.log|
            && (s.ix.cursor == |s.w.log| ==>
                  && (forall p :: ShowsRow(s.w, s.ix.index, s.ix.base, p))
                  && (s.ix.index == Fold(s.w.log) <==> NothingLost(s.w.log, s.ix.base)))
  {
    EmptySystemInv();
    RunSystemKeepsInv(env, EMPTY_SYSTEM, moves);
    var s := RunSystem(env, EMPTY_SYSTEM, moves);
    if s.ix.cursor == |s.w.log| {
      CaughtUpIsExact(s.ix);
      assert s.w.log[s.ix.base..s.ix.high] == s.w.log[s.ix.base..];
      SuffixIsWholeIff(s.w.log, s.ix.base);
      forall p
        ensures ShowsRow(s.w, s.ix.index, s.ix.base, p)
      {
        assert AgreesOn(s.w, Fold(s.w.log), p);
        SuffixShowsRow(s.w, s.ix.base, p);
      }
    }
  }

  // The moves of the indexer leave a process that found its volume empty the time to delete its consumer.
  predicate CarefulMoves(env: Environment, s: System, moves: seq<Move>)
    decreases |moves|
  {
    moves != [] ==>
      (moves[0].Index? ==> Careful(s.ix, moves[0].act)) && CarefulMoves(env, Advance(env, s, moves[0]), moves[1..])
  }

  lemma {:induction false} CarefulMovesKeepBase(env: Environment, s: System, moves: seq<Move>)
    requires CarefulMoves(env, s, moves) && (s.ix.base == 0 || s.ix.foundEmpty)
    ensures var t := RunSystem(env, s, moves);
            t.ix.base == 0 || t.ix.foundEmpty
    decreases |moves|
  {
    if moves != [] {
      CarefulMovesKeepBase(env, Advance(env, s, moves[0]), moves[1..]);
    }
  }

  /** After careful moves, the drained index is the fold of the whole log and agrees with the tables. */
  lemma DrainedIndexAgrees(env: Environment, moves: seq<Move>)
    requires CarefulMoves(env, EMPTY_SYSTEM, moves)
    ensures var s := RunSystem(env, EMPTY_SYSTEM, moves);
            s.ix.running && s.ix.cursor == |s.w.log| ==>
              s.ix.index == Fold(s.w.log) && forall p :: AgreesOn(s.w, s.ix.index, p)
  {
    EmptySystemInv();
    RunSystemKeepsInv(env, EMPTY_SYSTEM, moves);
    CarefulMovesKeepBase(env, EMPTY_SYSTEM, moves);
    var s := RunSystem(env, EMPTY_SYSTEM, moves);
    if s.ix.running && s.ix.cursor == |s.w.log| {
      CaughtUpIsExact(s.ix);
      assert s.ix.log[0..s.ix.high] == s.w.log;
    }
  }

  // Every service call passes its check when its turn comes.
  predicate MovesArrive(env: Environment, s: System, moves: seq<Move>)
    decreases |moves|
  {
    moves != [] ==>
      (moves[0].PostCall? ==> CallArrives(env, s.w, moves[0].op)) && MovesArrive(env, Advance(env, s, moves[0]), moves[1..])
  }

  lemma {:induction false} ArrivingCallsLeaveNothingStale(env: Environment, s: System, moves: seq<Move>)
    requires MovesArrive(env, s, moves) && s.w.past.stale == {}
    ensures RunSystem(env, s, moves).w.past.stale == {}
    decreases |moves|
  {
    if moves != [] {
      ArrivingCallsLeaveNothingStale(env, Advance(env, s, moves[0]), moves[1..]);
    }
  }

  /** Calls with safe tags all arrive, as long as the broker carries their events. */
  lemma {:induction false} SafeMovesArrive(env: Environment, s: System, moves: seq<Move>)
    requires (forall e :: env.carries(e)) && forall m :: m in moves && m.PostCall? ==> TagsSafe(env, m.op)
    ensures MovesArrive(env, s, moves)
    decreases |moves|
  {
    if moves != [] {
      assert moves[0] in moves;
      if moves[0].PostCall? {
        SafeTagsArrive(env, s.w, moves[0].op);
      }
      SafeMovesArrive(env, Advance(env, s, moves[0]), moves[1..]);
    }
  }

  /**
   When all calls arrive, the drained index holds exactly the live posts if and only if none of them was
   written last before its base; and what it holds shows the rows.
   */
  lemma DrainedIndexIsCompleteIff(env: Environment, moves: seq<Move>)
    requires MovesArrive(env, EMPTY_SYSTEM, moves)
    ensures var s := RunSystem(env, EMPTY_SYSTEM, moves);
            s.ix.cursor == |s.w.log| ==>
              && (s.ix.index.Keys == s.w.db.posts.Keys <==>
                  forall p :: p in s.w.db.posts ==> LastTouch(s.w.log, p) >= s.ix.base)
              && forall p :: p in s.ix.index ==>
                   p in s.w.db.posts &&
                   Shows(s.ix.index[p], p, s.w.db.posts[p], TagsOf(s.w.db, p), p in s.w.past.silenced)
  {
    DrainedIndexShowsRows(env, moves);
    ArrivingCallsLeaveNothingStale(env, EMPTY_SYSTEM, moves);
    var s := RunSystem(env, EMPTY_SYSTEM, moves);
    if s.ix.cursor == |s.w.log| {
      forall p
        ensures p in s.w.db.posts ==> (p in s.ix.index <==> LastTouch(s.w.log, p) >= s.ix.base)
        ensures p in s.ix.index ==>
                  p in s.w.db.posts &&
                  Shows(s.ix.index[p], p, s.w.db.posts[p], TagsOf(s.w.db, p), p in s.w.past.silenced)
      {
        assert ShowsRow(s.w, s.ix.index, s.ix.base, p);
      }
      if forall p :: p in s.w.db.posts ==> LastTouch(s.w.log, p) >= s.ix.base {
        assert s.ix.index.Keys == s.w.db.posts.Keys;
      }
    }
  }

  /** And after careful moves it does hold exactly the live posts. */
  lemma DrainedIndexIsComplete(env: Environment, moves: seq<Move>)
    requires CarefulMoves(env, EMPTY_SYSTEM, moves) && MovesArrive(env, EMPTY_SYSTEM, moves)
    ensures var s := RunSystem(env, EMPTY_SYSTEM, moves);
            s.ix.running && s.ix.cursor == |s.w.log| ==>
              && s.ix.index.Keys == s.w.db.posts.Keys
              && forall p :: p in s.w.db.posts ==>
                   Shows(s.ix.index[p], p, s.w.db.posts[p], TagsOf(s.w.db, p), p in s.w.past.silenced)
  {
    DrainedIndexAgrees(env, moves);
    ArrivingCallsLeaveNothingStale(env, EMPTY_SYSTEM, moves);
    var s := RunSystem(env, EMPTY_SYSTEM, moves);
    if s.ix.running && s.ix.cursor == |s.w.log| {
      forall p
        ensures p in s.ix.index <==> p in s.w.db.posts
      {
        assert AgreesOn(s.w, s.ix.index, p);
      }
      forall p | p in s.w.db.posts
        ensures Shows(s.ix.index[p], p, s.w.db.posts[p], TagsOf(s.w.db, p), p in s.w.past.silenced)
      {
        assert AgreesOn(s.w, s.ix.index, p);
      }
    }
  }

  // ----- the exact condition -----

  /**
   A new post reaches the index exactly if its call passes the check: no tag holds a NUL or is too long once
   lower-cased, no two are the same, and the broker carries the event.
   */
  lemma NewPostIndexedIffPasses(env: Environment, w: World, op: Op)
    requires AgreementInv(w) && op.Create? && op.id !in w.past.drawn
    ensures op.id in Step(env, w, op).db.posts
    ensures op.id in Fold(Step(env, w, op).log) <==> CallPasses(env, w, op)
  {
    CallArrivesIffPasses(env, w, op);
    assert AgreesOn(w, Fold(w.log), op.id);
    assert AgreesOn(Step(env, w, op), Fold(Step(env, w, op).log), op.id) by { StepAgrees(env, w, op, op.id); }
  }

  // The tags that an update leaves its post with, whether it succeeds or not.
  function TagsLeft(env: Environment, w: World, op: Op): seq<string>
    requires op.Update?
  {
    if TagsArrive(env, w, op) then NamesAfter(env, w, op) else []
  }

  lemma UpdateLeaves(env: Environment, w: World, op: Op)
    requires op.Update? && Refusal(w, op.id, op.requester, op.role).None?
    ensures var v := Step(env, w, op);
            && op.id in v.db.posts && v.db.posts[op.id] == UpdatedRow(w.db.posts, op.id, op.change, op.now)
            && TagsOf(v.db, op.id) == TagsLeft(env, w, op)
            && (!CallArrives(env, w, op) ==> v.log == w.log && v.past.silenced == w.past.silenced)
            && (CallArrives(env, w, op) ==> op.id !in v.past.stale)
  {
  }

  /**
   An accepted update leaves index and row in agreement exactly if it passes the check, or if the indexed
   document shows already the row that the request asks for, with the tags that the post is left with.
   */
  lemma UpdateIndexedIff(env: Environment, w: World, op: Op)
    requires AgreementInv(w) && op.Update? && Refusal(w, op.id, op.requester, op.role).None?
    ensures var v := Step(env, w, op);
            var before, after := Fold(w.log), Fold(v.log);
            && op.id in v.db.posts
            && (op.id in after &&
                Shows(after[op.id], op.id, v.db.posts[op.id], TagsOf(v.db, op.id), op.id in v.past.silenced) <==>
                CallPasses(env, w, op) ||
                (op.id in before &&
                 Shows(before[op.id], op.id, UpdatedRow(w.db.posts, op.id, op.change, op.now),
                       TagsLeft(env, w, op), op.id in w.past.silenced)))
  {
    CallArrivesIffPasses(env, w, op);
    UpdateLeaves(env, w, op);
    if CallArrives(env, w, op) {
      UpdateAgrees(env, w, op, op.id);
    }
  }

  // The request gives no field, or gives it the value it has; a given title also finds its slug again.
  predicate AsksForNothingNew(posts: map<Id, PostRow>, id: Id, c: PostChange)
    requires id in posts
  {
    && (Given(c.title) ==>
          && c.title.value == posts[id].title
          && UniqueSlug(OtherSlugs(posts, Some(id)), Slugify(c.title.value)) == posts[id].slug)
    && (Given(c.content) ==> c.content.value == posts[id].content)
    && (c.status.Some? ==> c.status.value == posts[id].status)
  }

  /**
   For a post that index and row agree on, the condition is about the request: it passes the check, or it
   asks for nothing new and the tags that the post is left with join to the same text as before.
   */
  lemma CurrentUpdateIndexedIff(env: Environment, w: World, op: Op)
    requires AgreementInv(w) && op.Update? && Refusal(w, op.id, op.requester, op.role).None?
    requires op.id !in w.past.stale
    ensures var v := Step(env, w, op);
            var after := Fold(v.log);
            && op.id in v.db.posts && op.id in after
            && (Shows(after[op.id], op.id, v.db.posts[op.id], TagsOf(v.db, op.id), op.id in v.past.silenced) <==>
                CallPasses(env, w, op) ||
                (AsksForNothingNew(w.db.posts, op.id, op.change) &&
                 Join(TagsLeft(env, w, op), ", ") == Join(TagsOf(w.db, op.id), ", ")))
  {
    assert AgreesOn(w, Fold(w.log), op.id);
    UpdateIndexedIff(env, w, op);
    UpdateLeaves(env, w, op);
    CallArrivesIffPasses(env, w, op);
    if CallArrives(env, w, op) {
      UpdateAgrees(env, w, op, op.id);
    }
  }

  // ----- inputs that fail the check -----

  function DraftWith(tags: seq<string>): Op {
    Create(0, 0, NewPost("t", "c", tags, Draft), 0)
  }

  // The first post of an empty platform is live and in no index.
  predicate IsLost(env: Environment, tags: seq<string>) {
    var w := Step(env, EMPTY_WORLD, DraftWith(tags));
    0 in w.db.posts && Fold(w.log) == map[]
  }

  lemma RefusedTagsLosePost(env: Environment, tags: seq<string>)
    requires AddTags({}, Lowered(env.lower, tags)).1.None?
    ensures IsLost(env, tags)
  {
  }

  /** Two tags that lower-casing makes equal, such as capital and small e with an acute accent. */
  lemma EqualTagsLosePost(env: Environment, a: string, b: string)
    requires env.lower(a) == env.lower(b)
    ensures IsLost(env, [a, b])
  {
    EqualTagsAreRefused(env.lower, {}, a, b);
  }

  /** The tags "a" and "A". */
  lemma RepeatedTagLosesPost()
    ensures IsLost(GENEROUS, ["a", "A"])
  {
    assert GENEROUS.lower("a") == ToLower("a") == "a" == ToLower("A");
    EqualTagsLosePost(GENEROUS, "a", "A");
  }

  /** A tag that is a NUL. */
  lemma NulTagLosesPost()
    ensures IsLost(GENEROUS, [[NUL]])
  {
    NulIsRefused({});
    RefusedTagsLosePost(GENEROUS, [[NUL]]);
  }

  /** Twenty-six dotted capitals I, which become fifty-two characters. */
  lemma LongTagLosesPost()
    ensures IsLost(GENEROUS, [Repeat(DOTTED_I, 26)])
  {
    LongLoweredTagIsRefused({});
    RefusedTagsLosePost(GENEROUS, [Repeat(DOTTED_I, 26)]);
  }

  /** A broker with a limit on the content, and a content beyond it. */
  lemma LargeEventLosesPost(limit: nat, content: string)
    requires |content| > limit
    ensures var env := Environment(ToLower, (e: Event) => e.PostCreated? ==> |e.content| <= limit);
            var w := Step(env, EMPTY_WORLD, Create(0, 0, NewPost("t", content, [], Draft), 0));
            0 in w.db.posts && Fold(w.log) == map[]
  {
    var env := Environment(ToLower, (e: Event) => e.PostCreated? ==> |e.content| <= limit);
    assert Lowered(env.lower, []) == [];
  }
}
