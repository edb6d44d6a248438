/**
 The events that the post service appends about one post, over every run: their order, and how many
 of them announce a publication.
 */
module PostTraces {
  import opened Basics
  import opened Events
  import opened Posts
  import opened Tags
  import opened Text

  predicate About(e: Event, p: Id) {
    IsPostEvent(e) && e.postId == p
  }

  function Project(log: seq<Event>, p: Id): seq<Event> {
    if log == [] then []
    else Project(Front(log), p) + if About(Last(log), p) then [Last(log)] else []
  }

  lemma {:induction false} ProjectAppend(log: seq<Event>, more: seq<Event>, p: Id)
    ensures Project(log + more, p) == Project(log, p) + Project(more, p)
  {
    if more == [] {
      assert log + more == log;
    } else {
      ProjectAppend(log, Front(more), p);
      assert Front(log + more) == log + Front(more);
    }
  }

  lemma ProjectShort(a: Event, b: Event, p: Id)
    ensures Project([a], p) == if About(a, p) then [a] else []
    ensures Project([a, b], p) == Project([a], p) + Project([b], p)
  {
    assert Front([a]) == [];
    assert Front([a, b]) == [a];
    assert Project([b], p) == if About(b, p) then [b] else [] by { assert Front([b]) == []; }
  }

  /**
   The events of one post read Created, perhaps Published, then any number of Updated each perhaps
   followed by Published, then perhaps Deleted. Those of a post whose creation was not announced read
   the same without the Created and the first Published.
   */
  predicate GoodTrace(trace: seq<Event>, announced: bool) {
    && (trace != [] ==> if announced then trace[0].PostCreated? else trace[0].PostUpdated? || trace[0].PostDeleted?)
    && (forall i :: 0 < i < |trace| ==> !trace[i].PostCreated?)
    && (forall i :: 0 <= i < |trace| - 1 ==> !trace[i].PostDeleted?)
    && (forall i :: 0 < i < |trace| && trace[i].PostPublished? ==> !trace[i - 1].PostPublished?)
  }

  predicate Alive(trace: seq<Event>, announced: bool) {
    if trace == [] then !announced else !Last(trace).PostDeleted?
  }

  predicate TraceInv(w: World, p: Id) {
    var trace, announced := Project(w.log, p), p !in w.past.unannounced;
    && (p !in w.past.drawn ==> p !in w.db.posts && trace == [] && announced)
    && GoodTrace(trace, announced)
    && (p in w.db.posts <==> Alive(trace, announced))
  }

  function PublishedCount(trace: seq<Event>): nat {
    if trace == [] then 0
    else PublishedCount(Front(trace)) + if Last(trace).PostPublished? then 1 else 0
  }

  // What one operation appends to the stream about post p.
  function Announced(env: Environment, w: World, op: Op, p: Id): seq<Event> {
    Project(Step(env, w, op).log[|w.log|..], p)
  }

  lemma StepAppends(env: Environment, w: World, op: Op)
    ensures w.log <= Step(env, w, op).log
    ensures Step(env, w, op).log == w.log + Step(env, w, op).log[|w.log|..]
  {
  }

  lemma CreateAnnounces(env: Environment, w: World, op: Op, p: Id)
    requires op.Create? && op.id !in w.past.drawn
    ensures var row := CreatedRow(w.db.posts, op.author, op.post, op.now);
            Announced(env, w, op, p) ==
            if p == op.id && CallArrives(env, w, op) then CreationEvents(p, row, NamesAfter(env, w, op)) else []
  {
    var row := CreatedRow(w.db.posts, op.author, op.post, op.now);
    var after := Step(env, w, op);
    if CallArrives(env, w, op) {
      var events := CreationEvents(op.id, row, NamesAfter(env, w, op));
      assert after.log[|w.log|..] == events;
      ProjectShort(events[0], Last(events), p);
    } else {
      assert after.log[|w.log|..] == [];
    }
  }

  lemma UpdateAnnounces(env: Environment, w: World, op: Op, p: Id)
    requires op.Update?
    ensures Announced(env, w, op, p) ==
            if p == op.id && Refusal(w, p, op.requester, op.role).None? && CallArrives(env, w, op)
            then UpdateEvents(p, w.db.posts[p], UpdatedRow(w.db.posts, p, op.change, op.now), NamesAfter(env, w, op))
            else []
  {
    var after := Step(env, w, op);
    if Refusal(w, op.id, op.requester, op.role).None? && CallArrives(env, w, op) {
      var events := UpdateEvents(op.id, w.db.posts[op.id], UpdatedRow(w.db.posts, op.id, op.change, op.now),
                                 NamesAfter(env, w, op));
      assert after.log[|w.log|..] == events;
      ProjectShort(events[0], Last(events), p);
    } else {
      assert after.log[|w.log|..] == [];
    }
  }

  lemma DeleteAnnounces(env: Environment, w: World, op: Op, p: Id)
    requires op.Delete?
    ensures Announced(env, w, op, p) ==
            if p == op.id && Refusal(w, p, op.requester, op.role).None? then [PostDeleted(p)] else []
  {
    ProjectShort(PostDeleted(op.id), PostDeleted(op.id), p);
    var more := Step(env, w, op).log[|w.log|..];
    assert more == if Refusal(w, op.id, op.requester, op.role).None? then [PostDeleted(op.id)] else [];
  }

  lemma Announces(env: Environment, w: World, op: Op, p: Id)
    ensures Project(Step(env, w, op).log, p) == Project(w.log, p) + Announced(env, w, op, p)
    ensures op.Archive? || (op.Create? && op.id in w.past.drawn) ==> Announced(env, w, op, p) == []
  {
    StepAppends(env, w, op);
    ProjectAppend(w.log, Step(env, w, op).log[|w.log|..], p);
  }

  // ----- the order of the events -----

  lemma GoodTraceGrows(trace: seq<Event>, announced: bool, e: Event)
    requires GoodTrace(trace, announced)
    requires if trace == [] then (if announced then e.PostCreated? else e.PostUpdated? || e.PostDeleted?)
             else !e.PostCreated? && !Last(trace).PostDeleted? && (e.PostPublished? ==> !Last(trace).PostPublished?)
    ensures GoodTrace(trace + [e], announced)
    ensures Alive(trace + [e], announced) <==> !e.PostDeleted?
  {
    var t := trace + [e];
    if trace != [] {
      assert t[|trace| - 1] == Last(trace);
    }
  }

  lemma GoodTraceGrowsTwice(trace: seq<Event>, announced: bool, events: seq<Event>)
    requires GoodTrace(trace, announced) && 1 <= |events| <= 2
    requires if trace == [] && announced then events[0].PostCreated?
             else events[0].PostUpdated? && Alive(trace, announced)
    requires |events| == 2 ==> events[1].PostPublished?
    ensures GoodTrace(trace + events, announced) && Alive(trace + events, announced)
  {
    GoodTraceGrows(trace, announced, events[0]);
    if |events| == 2 {
      GoodTraceGrows(trace + [events[0]], announced, events[1]);
      assert trace + [events[0]] + [events[1]] == trace + events;
    } else {
      assert events == [events[0]];
    }
  }

  lemma AnnouncedCreationStartsTrace(env: Environment, w: World, op: Op)
    requires op.Create? && op.id !in w.past.drawn && TraceInv(w, op.id) && CallArrives(env, w, op)
    ensures TraceInv(Step(env, w, op), op.id)
  {
    Announces(env, w, op, op.id);
    CreateAnnounces(env, w, op, op.id);
    GoodTraceGrowsTwice(Project(w.log, op.id), true, Announced(env, w, op, op.id));
  }

  lemma CreateKeepsTrace(env: Environment, w: World, op: Op, p: Id)
    requires op.Create? && op.id !in w.past.drawn && TraceInv(w, p)
    ensures TraceInv(Step(env, w, op), p)
  {
    if p == op.id && CallArrives(env, w, op) {
      AnnouncedCreationStartsTrace(env, w, op);
    } else {
      Announces(env, w, op, p);
      CreateAnnounces(env, w, op, p);
      assert Project(w.log, p) + [] == Project(w.log, p);
      CreatePlaces(env, w, op, p);
      SilentCreationKeepsTrace(w, Step(env, w, op), op, p);
    }
  }

  // Where a creation of which no event tells of p leaves p.
  lemma CreatePlaces(env: Environment, w: World, op: Op, p: Id)
    requires op.Create? && op.id !in w.past.drawn && !(p == op.id && CallArrives(env, w, op))
    ensures var v := Step(env, w, op);
            && (p in v.db.posts <==> p in w.db.posts || p == op.id)
            && (p in v.past.drawn <==> p in w.past.drawn || p == op.id)
            && (p in v.past.unannounced <==> p in w.past.unannounced || p == op.id)
  {
  }

  lemma SilentCreationKeepsTrace(w: World, v: World, op: Op, p: Id)
    requires op.Create? && op.id !in w.past.drawn && TraceInv(w, p) && Project(v.log, p) == Project(w.log, p)
    requires p in v.db.posts <==> p in w.db.posts || p == op.id
    requires p in v.past.drawn <==> p in w.past.drawn || p == op.id
    requires p in v.past.unannounced <==> p in w.past.unannounced || p == op.id
    ensures TraceInv(v, p)
  {
  }

  // An update neither adds nor removes a post.
  lemma UpdateKeepsPlaces(env: Environment, w: World, op: Op)
    requires op.Update?
    ensures var v := Step(env, w, op);
            v.db.posts.Keys == w.db.posts.Keys && v.past.drawn == w.past.drawn && v.past.unannounced == w.past.unannounced
  {
  }

  lemma UpdateGrowsTrace(trace: seq<Event>, announced: bool, more: seq<Event>)
    requires GoodTrace(trace, announced) && |more| <= 2
    requires more != [] ==> Alive(trace, announced) && more[0].PostUpdated?
    requires |more| == 2 ==> more[1].PostPublished?
    ensures GoodTrace(trace + more, announced) && (Alive(trace + more, announced) <==> Alive(trace, announced))
  {
    if more == [] {
      assert trace + more == trace;
    } else {
      GoodTraceGrowsTwice(trace, announced, more);
    }
  }

  lemma UpdateKeepsTrace(env: Environment, w: World, op: Op, p: Id)
    requires op.Update? && TraceInv(w, p)
    ensures TraceInv(Step(env, w, op), p)
  {
    Announces(env, w, op, p);
    UpdateAnnounces(env, w, op, p);
    UpdateKeepsPlaces(env, w, op);
    UpdateGrowsTrace(Project(w.log, p), p !in w.past.unannounced, Announced(env, w, op, p));
  }

  lemma DeleteKeepsTrace(env: Environment, w: World, op: Op, p: Id)
    requires op.Delete? && TraceInv(w, p)
    ensures TraceInv(Step(env, w, op), p)
  {
    Announces(env, w, op, p);
    DeleteAnnounces(env, w, op, p);
    var trace, more := Project(w.log, p), Announced(env, w, op, p);
    if more == [] {
      assert trace + more == trace;
    } else {
      GoodTraceGrows(trace, p !in w.past.unannounced, PostDeleted(p));
    }
  }

  lemma StepKeepsTrace(env: Environment, w: World, op: Op, p: Id)
    requires TraceInv(w, p)
    ensures TraceInv(Step(env, w, op), p)
  {
    if op.Create? && op.id !in w.past.drawn {
      CreateKeepsTrace(env, w, op, p);
    } else if op.Update? {
      UpdateKeepsTrace(env, w, op, p);
    } else if op.Delete? {
      DeleteKeepsTrace(env, w, op, p);
    } else {
      Announces(env, w, op, p);
      assert Project(w.log, p) + [] == Project(w.log, p);
    }
  }

  /**
   Over every run, the events of every post come in the documented order, announced or not, and the
   post exists exactly if they do not end in a deletion.
   */
  lemma {:induction false} RunKeepsTrace(env: Environment, w: World, ops: seq<Op>, p: Id)
    requires TraceInv(w, p)
    ensures TraceInv(Run(env, w, ops), p)
    decreases |ops|
  {
    if ops != [] {
      StepKeepsTrace(env, w, ops[0], p);
      RunKeepsTrace(env, Step(env, w, ops[0]), ops[1..], p);
    }
  }

  /** When all calls of a run arrive, none of its posts stays unannounced. */
  lemma {:induction false} ArrivingCallsAnnounceEverything(env: Environment, w: World, ops: seq<Op>)
    requires AllArrive(env, w, ops)
    ensures Run(env, w, ops).past.unannounced == w.past.unannounced
    decreases |ops|
  {
    if ops != [] {
      ArrivingCallsAnnounceEverything(env, Step(env, w, ops[0]), ops[1..]);
    }
  }

  /** A new post begins its trace with its creation exactly if its call passes the check. */
  lemma CreationIsAnnouncedIffPasses(env: Environment, w: World, op: Op)
    requires op.Create? && op.id !in w.past.drawn && TraceInv(w, op.id) && FitsColumn(w.db.tagNames)
    ensures op.id in Step(env, w, op).db.posts
    ensures CallPasses(env, w, op) <==>
            Project(Step(env, w, op).log, op.id) != [] && Project(Step(env, w, op).log, op.id)[0].PostCreated?
  {
    CallArrivesIffPasses(env, w, op);
    Announces(env, w, op, op.id);
    CreateAnnounces(env, w, op, op.id);
    var more := Announced(env, w, op, op.id);
    assert [] + more == more;
  }

  // ----- counting publications -----

  predicate IsPublished(w: World, p: Id) {
    p in w.db.posts && w.db.posts[p].status == Published
  }

  // One entry of post p into the status published, between two states.
  function Entered(before: World, after: World, p: Id): nat {
    if IsPublished(after, p) && !IsPublished(before, p) then 1 else 0
  }

  function Entries(env: Environment, w: World, ops: seq<Op>, p: Id): nat
    decreases |ops|
  {
    if ops == [] then 0
    else Entered(w, Step(env, w, ops[0]), p) + Entries(env, Step(env, w, ops[0]), ops[1..], p)
  }

  // The entries among them that happened in a call whose tags or event were refused.
  function MissedEntries(env: Environment, w: World, ops: seq<Op>, p: Id): nat
    decreases |ops|
  {
    if ops == [] then 0
    else (if CallArrives(env, w, ops[0]) then 0 else Entered(w, Step(env, w, ops[0]), p)) +
         MissedEntries(env, Step(env, w, ops[0]), ops[1..], p)
  }

  lemma {:induction false} PublishedCountAppend(trace: seq<Event>, more: seq<Event>)
    ensures PublishedCount(trace + more) == PublishedCount(trace) + PublishedCount(more)
  {
    if more == [] {
      assert trace + more == trace;
    } else {
      PublishedCountAppend(trace, Front(more));
      assert Front(trace + more) == trace + Front(more);
    }
  }

  lemma PublishedCountShort(events: seq<Event>)
    requires 1 <= |events| <= 2 && !events[0].PostPublished?
    ensures PublishedCount(events) == if Last(events).PostPublished? then 1 else 0
  {
    assert Front([events[0]]) == [];
    assert PublishedCount([events[0]]) == 0;
    if |events| == 2 {
      assert Front(events) == [events[0]];
    } else {
      assert events == [events[0]];
    }
  }

  lemma CreationCounts(id: Id, row: PostRow, names: seq<string>)
    ensures PublishedCount(CreationEvents(id, row, names)) == if row.status == Published then 1 else 0
  {
    PublishedCountShort(CreationEvents(id, row, names));
  }

  lemma NewPostEnters(env: Environment, w: World, op: Op)
    requires w.db.posts.Keys <= w.past.drawn && op.Create? && op.id !in w.past.drawn
    ensures Entered(w, Step(env, w, op), op.id) == if op.post.status == Published then 1 else 0
  {
  }

  lemma CreationEntersNothingElse(env: Environment, w: World, op: Op, p: Id)
    requires op.Create? && op.id !in w.past.drawn && p != op.id
    ensures Entered(w, Step(env, w, op), p) == 0
  {
  }

  lemma CreateCountsEntries(env: Environment, w: World, op: Op, p: Id)
    requires w.db.posts.Keys <= w.past.drawn && op.Create? && op.id !in w.past.drawn
    ensures PublishedCount(Announced(env, w, op, p)) == if CallArrives(env, w, op) then Entered(w, Step(env, w, op), p) else 0
  {
    CreateAnnounces(env, w, op, p);
    if p != op.id {
      CreationEntersNothingElse(env, w, op, p);
    } else if CallArrives(env, w, op) {
      var row := CreatedRow(w.db.posts, op.author, op.post, op.now);
      CreationCounts(p, row, NamesAfter(env, w, op));
      NewPostEnters(env, w, op);
    }
  }

  lemma UpdateCounts(id: Id, before: PostRow, row: PostRow, names: seq<string>)
    ensures PublishedCount(UpdateEvents(id, before, row, names)) ==
            if before.status != Published && row.status == Published then 1 else 0
  {
    PublishedCountShort(UpdateEvents(id, before, row, names));
  }

  lemma UpdateEnters(env: Environment, w: World, op: Op)
    requires op.Update? && Refusal(w, op.id, op.requester, op.role).None?
    ensures Entered(w, Step(env, w, op), op.id) ==
            if w.db.posts[op.id].status != Published &&
               UpdatedRow(w.db.posts, op.id, op.change, op.now).status == Published then 1 else 0
  {
  }

  lemma UpdateEntersNothingElse(env: Environment, w: World, op: Op, p: Id)
    requires op.Update? && (p != op.id || Refusal(w, op.id, op.requester, op.role).Some?)
    ensures Entered(w, Step(env, w, op), p) == 0
  {
  }

  lemma UpdateCountsEntries(env: Environment, w: World, op: Op, p: Id)
    requires op.Update?
    ensures PublishedCount(Announced(env, w, op, p)) ==
            if CallArrives(env, w, op) then Entered(w, Step(env, w, op), p) else 0
  {
    UpdateAnnounces(env, w, op, p);
    if p != op.id || Refusal(w, op.id, op.requester, op.role).Some? {
      UpdateEntersNothingElse(env, w, op, p);
    } else if CallArrives(env, w, op) {
      UpdateEnters(env, w, op);
      UpdateCounts(p, w.db.posts[p], UpdatedRow(w.db.posts, p, op.change, op.now), NamesAfter(env, w, op));
    }
  }

  lemma DeleteEntersNothing(env: Environment, w: World, op: Op, p: Id)
    requires op.Delete?
    ensures Entered(w, Step(env, w, op), p) == 0
  {
    assert forall q :: q in Step(env, w, op).db.posts ==> q in w.db.posts && Step(env, w, op).db.posts[q] == w.db.posts[q];
  }

  lemma DeleteAnnouncesNoPublication(env: Environment, w: World, op: Op, p: Id)
    requires op.Delete?
    ensures PublishedCount(Announced(env, w, op, p)) == 0
  {
    DeleteAnnounces(env, w, op, p);
    assert Front([PostDeleted(p)]) == [];
  }

  lemma OthersEnterNothing(env: Environment, w: World, op: Op, p: Id)
    requires op.Archive? || (op.Create? && op.id in w.past.drawn)
    ensures PublishedCount(Announced(env, w, op, p)) == 0 && Entered(w, Step(env, w, op), p) == 0
  {
    Announces(env, w, op, p);
  }

  lemma AnnouncementsCountEntries(env: Environment, w: World, op: Op, p: Id)
    requires w.db.posts.Keys <= w.past.drawn
    ensures PublishedCount(Announced(env, w, op, p)) == if CallArrives(env, w, op) then Entered(w, Step(env, w, op), p) else 0
  {
    if op.Create? && op.id !in w.past.drawn {
      CreateCountsEntries(env, w, op, p);
    } else if op.Update? {
      UpdateCountsEntries(env, w, op, p);
    } else if op.Delete? {
      DeleteEntersNothing(env, w, op, p);
      DeleteAnnouncesNoPublication(env, w, op, p);
    } else {
      OthersEnterNothing(env, w, op, p);
    }
  }

  lemma StepCountsEntries(env: Environment, w: World, op: Op, p: Id)
    requires w.db.posts.Keys <= w.past.drawn
    ensures PublishedCount(Project(Step(env, w, op).log, p)) ==
            PublishedCount(Project(w.log, p)) + if CallArrives(env, w, op) then Entered(w, Step(env, w, op), p) else 0
  {
    Announces(env, w, op, p);
    PublishedCountAppend(Project(w.log, p), Announced(env, w, op, p));
    AnnouncementsCountEntries(env, w, op, p);
  }

  /**
   Publication accounting over every run: the published events of a post, together with the entries
   into published that failing calls made, number exactly its entries into published.
   */
  lemma {:induction false} PublicationsAreCounted(env: Environment, w: World, ops: seq<Op>, p: Id)
    requires w.db.posts.Keys <= w.past.drawn
    ensures PublishedCount(Project(Run(env, w, ops).log, p)) + MissedEntries(env, w, ops, p) ==
            PublishedCount(Project(w.log, p)) + Entries(env, w, ops, p)
    decreases |ops|
  {
    if ops != [] {
      StepCountsEntries(env, w, ops[0], p);
      StepKeepsDrawn(env, w, ops[0]);
      PublicationsAreCounted(env, Step(env, w, ops[0]), ops[1..], p);
    }
  }

  /** From the empty tables, when all calls arrive, each entry is announced exactly once. */
  lemma {:induction false} EveryPublicationAnnouncedOnce(env: Environment, w: World, ops: seq<Op>, p: Id)
    requires AllArrive(env, w, ops)
    ensures MissedEntries(env, w, ops, p) == 0
    ensures w == EMPTY_WORLD ==> PublishedCount(Project(Run(env, w, ops).log, p)) == Entries(env, w, ops, p)
    decreases |ops|
  {
    if ops != [] {
      EveryPublicationAnnouncedOnce(env, Step(env, w, ops[0]), ops[1..], p);
    }
    if w == EMPTY_WORLD {
      PublicationsAreCounted(env, w, ops, p);
    }
  }

  /**
   Without the check: a post created as published under two tags that lower-casing makes equal (such as
   "a" and "A") is never announced.
   */
  lemma EqualTagsLosePublication(env: Environment, a: string, b: string)
    requires env.lower(a) == env.lower(b)
    ensures var op := Create(0, 0, NewPost("t", "c", [a, b], Published), 0);
            var w := Step(env, EMPTY_WORLD, op);
            IsPublished(w, 0) && w.log == [] && Entries(env, EMPTY_WORLD, [op], 0) == 1
  {
    var op := Create(0, 0, NewPost("t", "c", [a, b], Published), 0);
    EqualTagsAreRefused(env.lower, {}, a, b);
    assert [op][1..] == [];
    var w := Step(env, EMPTY_WORLD, op);
    assert Entries(env, w, [], 0) == 0;
    assert Entries(env, EMPTY_WORLD, [op], 0) == Entered(EMPTY_WORLD, w, 0) + Entries(env, w, [op][1..], 0);
  }

  lemma RepeatedTagLosesPublication()
    ensures var op := Create(0, 0, NewPost("t", "c", ["a", "A"], Published), 0);
            var w := Step(GENEROUS, EMPTY_WORLD, op);
            IsPublished(w, 0) && w.log == [] && Entries(GENEROUS, EMPTY_WORLD, [op], 0) == 1
  {
    assert GENEROUS.lower("a") == ToLower("a") == "a" == ToLower("A");
    EqualTagsLosePublication(GENEROUS, "a", "A");
  }
}
