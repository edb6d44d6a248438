/**
 The search indexer: the keyed index it writes, the loop that feeds it from the stream, and the
 machine of deliveries, acknowledgements, crashes and fresh starts around that loop.
 */
module Search {
  import opened Basics
  import opened Events
  import opened Text

  // An indexed document. The author is blank (None) after an update: that event carries none.
  datatype Doc = Doc(postId: Id, title: string, content: string, slug: string, tags: string,
                     authorId: Option<Id>, status: Status)

  // ----- what one event does to the index -----

  function Apply(index: map<Id, Doc>, e: Event): map<Id, Doc> {
    match e
    case PostCreated(id, author, title, slug, content, tags, status) =>
      index[id := Doc(id, title, content, slug, Join(tags, ", "), Some(author), status)]
    case PostUpdated(id, title, slug, content, tags, status) =>
      index[id := Doc(id, title, content, slug, Join(tags, ", "), None, status)]
    case PostDeleted(id) => index - {id}
    case _ => index
  }

  // The index that a whole log describes.
  function Fold(log: seq<Event>): map<Id, Doc> {
    if log == [] then map[] else Apply(Fold(Front(log)), Last(log))
  }

  function Replay(index: map<Id, Doc>, events: seq<Event>): map<Id, Doc> {
    if events == [] then index else Apply(Replay(index, Front(events)), Last(events))
  }

  lemma {:induction false} FoldAppend(log: seq<Event>, more: seq<Event>)
    ensures Fold(log + more) == Replay(Fold(log), more)
  {
    if more == [] {
      assert log + more == log;
    } else {
      FoldAppend(log, Front(more));
      assert Front(log + more) == log + Front(more);
    }
  }

  predicate EqualOn(a: map<Id, Doc>, b: map<Id, Doc>, p: Id) {
    (p in a <==> p in b) && (p in a ==> a[p] == b[p])
  }

  // The events that replace or remove a document, and those that do so for post p.
  predicate Writes(e: Event) {
    e.PostCreated? || e.PostUpdated? || e.PostDeleted?
  }

  predicate Touches(e: Event, p: Id) {
    Writes(e) && e.postId == p
  }

  /**
   Each event either overwrites the whole document of p, whatever it was, or leaves it alone. All
   replays are harmless because of this.
   */
  lemma ApplyForgets(a: map<Id, Doc>, b: map<Id, Doc>, e: Event, p: Id)
    ensures Touches(e, p) ==> EqualOn(Apply(a, e), Apply(b, e), p)
    ensures !Touches(e, p) ==> EqualOn(Apply(a, e), a, p)
  {
  }

  lemma EqualEverywhere(a: map<Id, Doc>, b: map<Id, Doc>)
    requires forall p :: EqualOn(a, b, p)
    ensures a == b
  {
    forall p
      ensures p in a <==> p in b
      ensures p in a ==> a[p] == b[p]
    {
      assert EqualOn(a, b, p);
    }
  }

  function DocOf(index: map<Id, Doc>, p: Id): Option<Doc> {
    if p in index then Some(index[p]) else None
  }

  // What such an event makes of its post: a document, or nothing.
  function Written(e: Event): Option<Doc>
    requires Writes(e)
  {
    DocOf(Apply(map[], e), e.postId)
  }

  // The position of the last event that touches p, or -1.
  function LastTouch(log: seq<Event>, p: Id): (k: int)
    ensures -1 <= k < |log|
    ensures k >= 0 ==> Touches(log[k], p)
    ensures forall j :: k < j < |log| ==> !Touches(log[j], p)
  {
    if log == [] then -1 else if Touches(Last(log), p) then |log| - 1 else LastTouch(Front(log), p)
  }

  lemma {:induction false} FoldIsLastTouch(log: seq<Event>, p: Id)
    ensures DocOf(Fold(log), p) == if LastTouch(log, p) < 0 then None else Written(log[LastTouch(log, p)])
  {
    if log != [] {
      FoldIsLastTouch(Front(log), p);
      ApplyForgets(Fold(Front(log)), map[], Last(log), p);
    }
  }

  // ----- the machine -----

  /**
   cursor      the next position to deliver      acked    the position the durable consumer would resume at
   pending     a delivered event awaits its ack  high     the highest position ever processed
   foundEmpty  the process found its volume empty and has not reached the stream yet
   running     the subscriber receives messages
   base        the position from which on the index was built; the services keep no such record
   */
  datatype Indexer = Indexer(log: seq<Event>, cursor: nat, acked: nat, pending: bool, running: bool,
                             foundEmpty: bool, index: map<Id, Doc>, high: nat, base: nat)

  datatype Action =
    | Publish(events: seq<Event>)
    | Deliver
    | Ack
    | Restart
    | NewVolume
    | Connect(from: nat, dropped: bool)

  const EMPTY_INDEXER := Indexer([], 0, 0, false, false, false, map[], 0, 0)

  predicate Enabled(s: Indexer, a: Action) {
    match a
    case Publish(_) => true
    case Deliver => s.running && !s.pending && s.cursor < |s.log|
    case Ack => s.pending
    case Restart => true
    case NewVolume => true
    case Connect(from, _) => !s.running && from <= s.acked
  }

  function Min(a: nat, b: nat): nat {
    if a <= b then a else b
  }

  /**
   The process starts on the volume it has (Restart, also after a crash) or on an empty one (NewVolume),
   and writes to the volume at once, so that the next start finds it there. Only later does the
   subscriber reach the stream (Connect): if the process itself found the volume empty, it tries to
   delete the durable consumer, and goes on whether that works (dropped) or not. Delivery then resumes at
   the beginning or at an acknowledged position. The handler commits before it acknowledges; a crash in
   between is a Restart. A message that comes back alone, after newer ones, is the subject of the last
   section.
   */
  function Act(s: Indexer, a: Action): Indexer {
    if !Enabled(s, a) then s
    else match a
      case Publish(events) => s.(log := s.log + events)
      case Deliver =>
        s.(index := Apply(s.index, s.log[s.cursor]), cursor := s.cursor + 1, pending := true,
           high := if s.high <= s.cursor then s.cursor + 1 else s.high)
      case Ack => s.(acked := s.cursor, pending := false)
      case Restart => s.(running := false, pending := false, foundEmpty := false)
      case NewVolume =>
        s.(running := false, pending := false, foundEmpty := true, index := map[], cursor := s.acked, base := s.acked)
      case Connect(from, dropped) =>
        if s.foundEmpty && dropped then s.(running := true, foundEmpty := false, cursor := 0, acked := 0, base := 0)
        else s.(running := true, foundEmpty := false, cursor := from, acked := from, base := Min(s.base, from))
  }

  function RunIndexer(s: Indexer, acts: seq<Action>): Indexer
    decreases |acts|
  {
    if acts == [] then s else RunIndexer(Act(s, acts[0]), acts[1..])
  }

  // The document of p is the one that the events from base up to some position describe.
  ghost predicate FreshOn(s: Indexer, p: Id)
    requires s.base <= s.cursor && s.high <= |s.log|
  {
    exists n: nat :: s.cursor <= n <= s.high && EqualOn(s.index, Fold(s.log[s.base..n]), p)
  }

  ghost predicate IndexerInv(s: Indexer) {
    && s.base <= s.cursor && s.acked <= s.cursor <= s.high <= |s.log|
    && (s.foundEmpty ==> s.index == map[] && !s.running)
    && forall p :: FreshOn(s, p)
  }

  /** Whatever a post was before some events, they overwrite its document or leave it alone. */
  lemma {:induction false} ReplayForgets(a: map<Id, Doc>, b: map<Id, Doc>, events: seq<Event>, p: Id)
    ensures EqualOn(Replay(a, events), Replay(b, events), p) ||
            (EqualOn(Replay(a, events), a, p) && EqualOn(Replay(b, events), b, p))
  {
    if events != [] {
      ReplayForgets(a, b, Front(events), p);
      ApplyForgets(Replay(a, Front(events)), Replay(b, Front(events)), Last(events), p);
      ApplyForgets(Replay(b, Front(events)), Replay(b, Front(events)), Last(events), p);
    }
  }

  lemma ReplayOfNothing(events: seq<Event>)
    ensures Replay(map[], events) == Fold(events)
  {
    assert [] + events == events;
    FoldAppend([], events);
  }

  lemma FoldOneMore(log: seq<Event>, base: nat, c: nat)
    requires base <= c < |log|
    ensures Fold(log[base..c + 1]) == Apply(Fold(log[base..c]), log[c])
  {
    assert Front(log[base..c + 1]) == log[base..c];
  }

  lemma DeliverKeepsFresh(s: Indexer, p: Id)
    requires IndexerInv(s) && Enabled(s, Deliver)
    ensures FreshOn(Act(s, Deliver), p)
  {
    var after := Act(s, Deliver);
    var c, e := s.cursor, s.log[s.cursor];
    assert FreshOn(s, p);
    var n: nat :| c <= n <= s.high && EqualOn(s.index, Fold(s.log[s.base..n]), p);
    var before := Fold(s.log[s.base..c]);
    FoldOneMore(s.log, s.base, c);
    ApplyForgets(s.index, before, e, p);
    ApplyForgets(before, before, e, p);
    var m := if Touches(e, p) || n == c then c + 1 else n;
    assert EqualOn(after.index, Fold(after.log[after.base..m]), p);
  }

  // What the events behind an earlier start add is overwritten by the later ones, or they leave no trace.
  lemma FoldFromEarlier(log: seq<Event>, from: nat, base: nat, n: nat, p: Id)
    requires from <= base <= n <= |log|
    ensures EqualOn(Fold(log[base..n]), Fold(log[from..n]), p) || p !in Fold(log[base..n])
  {
    var events := log[base..n];
    ReplayForgets(map[], Fold(log[from..base]), events, p);
    ReplayOfNothing(events);
    FoldAppend(log[from..base], events);
    assert log[from..base] + events == log[from..n];
  }

  lemma GoingBackKeepsFresh(s: Indexer, from: nat, p: Id)
    requires IndexerInv(s) && from < s.base
    ensures exists n: nat :: from <= n <= s.high && EqualOn(s.index, Fold(s.log[from..n]), p)
  {
    assert FreshOn(s, p);
    var n: nat :| s.cursor <= n <= s.high && EqualOn(s.index, Fold(s.log[s.base..n]), p);
    FoldFromEarlier(s.log, from, s.base, n, p);
    if EqualOn(s.index, Fold(s.log[from..n]), p) {
      assert from <= n;
    } else {
      assert EqualOn(s.index, Fold(s.log[from..from]), p);
    }
  }

  lemma ConnectKeepsFresh(s: Indexer, from: nat, dropped: bool, p: Id)
    requires IndexerInv(s) && Enabled(s, Connect(from, dropped))
    ensures FreshOn(Act(s, Connect(from, dropped)), p)
  {
    var after := Act(s, Connect(from, dropped));
    assert FreshOn(s, p);
    if s.foundEmpty && dropped {
      assert EqualOn(after.index, Fold(after.log[0..0]), p);
    } else if from < s.base {
      GoingBackKeepsFresh(s, from, p);
    }
  }

  lemma ActKeepsFresh(s: Indexer, a: Action, p: Id)
    requires IndexerInv(s)
    ensures var after := Act(s, a);
            after.base <= after.cursor && after.high <= |after.log| && FreshOn(after, p)
  {
    var after := Act(s, a);
    assert FreshOn(s, p);
    if a.Deliver? && Enabled(s, a) {
      DeliverKeepsFresh(s, p);
    } else if a.Connect? && Enabled(s, a) {
      ConnectKeepsFresh(s, a.from, a.dropped, p);
    } else if a.NewVolume? {
      assert EqualOn(after.index, Fold(after.log[s.acked..s.acked]), p);
    } else {
      var n: nat :| s.cursor <= n <= s.high && EqualOn(s.index, Fold(s.log[s.base..n]), p);
      assert after.log[s.base..n] == s.log[s.base..n];
      assert EqualOn(after.index, Fold(after.log[after.base..n]), p);
    }
  }

  lemma ActKeepsInv(s: Indexer, a: Action)
    requires IndexerInv(s)
    ensures IndexerInv(Act(s, a))
  {
    forall p
      ensures FreshOn(Act(s, a), p)
    {
      ActKeepsFresh(s, a, p);
    }
  }

  /**
   Bounded staleness: in every reachable state, whatever crashes and new volumes there were, each document
   is the one that the events from the base up to some position between cursor and high describe.
   */
  lemma {:induction false} RunKeepsInv(s: Indexer, acts: seq<Action>)
    requires IndexerInv(s)
    ensures IndexerInv(RunIndexer(s, acts))
    decreases |acts|
  {
    if acts != [] {
      ActKeepsInv(s, acts[0]);
      RunKeepsInv(Act(s, acts[0]), acts[1..]);
    }
  }

  lemma CaughtUpIsExact(s: Indexer)
    requires IndexerInv(s) && s.cursor == s.high
    ensures s.index == Fold(s.log[s.base..s.high])
  {
    forall p
      ensures EqualOn(s.index, Fold(s.log[s.base..s.high]), p)
    {
      assert FreshOn(s, p);
    }
    EqualEverywhere(s.index, Fold(s.log[s.base..s.high]));
  }

  lemma EmptyIndexerInv()
    ensures IndexerInv(EMPTY_INDEXER)
  {
    forall p
      ensures FreshOn(EMPTY_INDEXER, p)
    {
      assert EqualOn(EMPTY_INDEXER.index, Fold(EMPTY_INDEXER.log[0..0]), p);
    }
  }

  // ----- what a new volume may lose -----

  // Every post whose last write lies before the base was deleted by it.
  ghost predicate NothingLost(log: seq<Event>, base: nat) {
    forall p :: 0 <= LastTouch(log, p) < base ==> log[LastTouch(log, p)].PostDeleted?
  }

  lemma {:induction false} LastTouchOfSuffix(log: seq<Event>, base: nat, p: Id)
    requires base <= |log|
    ensures LastTouch(log[base..], p) == if LastTouch(log, p) < base then -1 else LastTouch(log, p) - base
  {
    var k, j := LastTouch(log, p), LastTouch(log[base..], p);
    if j >= 0 {
      assert Touches(log[base + j], p);
    }
    if k >= base {
      assert Touches(log[base..][k - base], p);
    }
  }

  // The index built from the base on has exactly the documents last written from there on.
  lemma SuffixFold(log: seq<Event>, base: nat, p: Id)
    requires base <= |log|
    ensures DocOf(Fold(log[base..]), p) == if LastTouch(log, p) < base then None else DocOf(Fold(log), p)
  {
    LastTouchOfSuffix(log, base, p);
    FoldIsLastTouch(log, p);
    FoldIsLastTouch(log[base..], p);
  }

  /** An index built from the base on is the fold of the whole log exactly if nothing was lost. */
  lemma SuffixIsWholeIff(log: seq<Event>, base: nat)
    requires base <= |log|
    ensures Fold(log[base..]) == Fold(log) <==> NothingLost(log, base)
  {
    forall p
      ensures EqualOn(Fold(log[base..]), Fold(log), p) <==>
              (0 <= LastTouch(log, p) < base ==> log[LastTouch(log, p)].PostDeleted?)
    {
      SuffixFold(log, base, p);
      FoldIsLastTouch(log, p);
    }
    if NothingLost(log, base) {
      EqualEverywhere(Fold(log[base..]), Fold(log));
    }
  }

  /**
   Crash-replay refinement, for every run: whenever the indexer is back at the highest position it ever
   processed, the index is the fold of the log from its base up to there; and that is the fold of the
   whole log exactly if nothing was lost.
   */
  lemma CrashReplayRefinesFold(acts: seq<Action>)
    ensures var s := RunIndexer(EMPTY_INDEXER, acts);
            && s.base <= s.high <= |s.log|
            && (s.cursor == s.high ==>
                  && s.index == Fold(s.log[s.base..s.high])
                  && (s.index == Fold(s.log[..s.high]) <==> NothingLost(s.log[..s.high], s.base)))
  {
    EmptyIndexerInv();
    RunKeepsInv(EMPTY_INDEXER, acts);
    var s := RunIndexer(EMPTY_INDEXER, acts);
    if s.cursor == s.high {
      CaughtUpIsExact(s);
      assert s.log[..s.high][s.base..] == s.log[s.base..s.high];
      SuffixIsWholeIff(s.log[..s.high], s.base);
    }
  }

  // A process that found its volume empty gets to delete the consumer: it is not stopped before, and the
  // deletion works.
  predicate Careful(s: Indexer, a: Action) {
    s.foundEmpty ==> !a.Restart? && (a.Connect? ==> a.dropped)
  }

  predicate CarefulRun(s: Indexer, acts: seq<Action>)
    decreases |acts|
  {
    acts != [] ==> Careful(s, acts[0]) && CarefulRun(Act(s, acts[0]), acts[1..])
  }

  lemma CarefulActKeepsBase(s: Indexer, a: Action)
    requires Careful(s, a) && (s.base == 0 || s.foundEmpty)
    ensures Act(s, a).base == 0 || Act(s, a).foundEmpty
  {
  }

  lemma {:induction false} CarefulRunKeepsBase(s: Indexer, acts: seq<Action>)
    requires CarefulRun(s, acts) && (s.base == 0 || s.foundEmpty)
    ensures var t := RunIndexer(s, acts);
            t.base == 0 || t.foundEmpty
    decreases |acts|
  {
    if acts != [] {
      CarefulActKeepsBase(s, acts[0]);
      CarefulRunKeepsBase(Act(s, acts[0]), acts[1..]);
    }
  }

  /** In careful runs nothing is lost: a subscriber that is caught up has the fold of the whole log. */
  lemma CarefulReplayRefinesFold(acts: seq<Action>)
    requires CarefulRun(EMPTY_INDEXER, acts)
    ensures var s := RunIndexer(EMPTY_INDEXER, acts);
            s.high <= |s.log| && (s.running && s.cursor == s.high ==> s.index == Fold(s.log[..s.high]))
  {
    EmptyIndexerInv();
    RunKeepsInv(EMPTY_INDEXER, acts);
    CarefulRunKeepsBase(EMPTY_INDEXER, acts);
    var s := RunIndexer(EMPTY_INDEXER, acts);
    if s.running && s.cursor == s.high {
      CaughtUpIsExact(s);
      assert s.log[0..s.high] == s.log[..s.high];
    }
  }

  // A first start and one event; then the volume is replaced, and the process stops before it reaches the stream.
  function FirstStart(e: Event): seq<Action> {
    [NewVolume, Connect(0, true), Publish([e]), Deliver]
  }

  const INTERRUPTED_START := [Ack, NewVolume, Restart, Connect(1, false)]

  lemma FirstStartIndexes(e: Event)
    ensures RunIndexer(EMPTY_INDEXER, FirstStart(e)) ==
            Indexer([e], 1, 0, true, true, false, Apply(map[], e), 1, 0)
  {
    var t := RunFour(EMPTY_INDEXER, FirstStart(e));
    assert [] + [e] == [e] && FirstStart(e)[4..] == [];
  }

  lemma InterruptedStartForgets(e: Event)
    ensures RunIndexer(Indexer([e], 1, 0, true, true, false, Apply(map[], e), 1, 0), INTERRUPTED_START) ==
            Indexer([e], 1, 1, false, true, false, map[], 1, 1)
  {
    var t := RunFour(Indexer([e], 1, 0, true, true, false, Apply(map[], e), 1, 0), INTERRUPTED_START);
    assert INTERRUPTED_START[4..] == [];
  }

  lemma {:induction false} RunConcat(s: Indexer, first: seq<Action>, second: seq<Action>)
    ensures RunIndexer(s, first + second) == RunIndexer(RunIndexer(s, first), second)
    decreases |first|
  {
    if first == [] {
      assert first + second == second;
    } else {
      RunConcat(Act(s, first[0]), first[1..], second);
      assert (first + second)[1..] == first[1..] + second;
    }
  }

  /** Otherwise a subscriber can be caught up for good with an empty index. */
  lemma InterruptedStartLosesPost(e: Event)
    requires e.PostCreated?
    ensures var s := RunIndexer(EMPTY_INDEXER, FirstStart(e) + INTERRUPTED_START);
            s.running && s.cursor == |s.log| == 1 && s.index == map[] && e.postId in Fold(s.log)
  {
    RunConcat(EMPTY_INDEXER, FirstStart(e), INTERRUPTED_START);
    FirstStartIndexes(e);
    InterruptedStartForgets(e);
    assert Front([e]) == [];
  }

  lemma RunFour(s: Indexer, acts: seq<Action>) returns (t: Indexer)
    requires |acts| >= 4
    ensures t == Act(Act(Act(Act(s, acts[0]), acts[1]), acts[2]), acts[3])
    ensures RunIndexer(s, acts) == RunIndexer(t, acts[4..])
  {
    t := Act(Act(Act(Act(s, acts[0]), acts[1]), acts[2]), acts[3]);
    var s1 := Act(s, acts[0]);
    var s2 := Act(s1, acts[1]);
    assert acts[1..][1..] == acts[2..] && acts[2..][1..] == acts[3..] && acts[3..][1..] == acts[4..];
    assert RunIndexer(s1, acts[1..]) == RunIndexer(s2, acts[2..]);
    assert RunIndexer(s2, acts[2..]) == RunIndexer(Act(s2, acts[2]), acts[3..]);
  }

  lemma {:induction false} ReplaySplits(index: map<Id, Doc>, e: Event, events: seq<Event>)
    ensures Replay(index, [e] + events) == Replay(Apply(index, e), events)
  {
    if events == [] {
      assert [e] + events == [e] && Front([e]) == [];
    } else {
      ReplaySplits(index, e, Front(events));
      assert Front([e] + events) == [e] + Front(events);
    }
  }

  lemma ReplayStep(index: map<Id, Doc>, log: seq<Event>, k: nat)
    requires k < |log|
    ensures Replay(index, log[k..]) == Replay(Apply(index, log[k]), log[k + 1..])
  {
    ReplaySplits(index, log[k], log[k + 1..]);
    assert [log[k]] + log[k + 1..] == log[k..];
  }

  lemma TurnKeepsInv(s: Indexer)
    requires IndexerInv(s) && Enabled(s, Deliver)
    ensures var t := Act(Act(s, Deliver), Ack);
            IndexerInv(t) && t == s.(index := Apply(s.index, s.log[s.cursor]), cursor := s.cursor + 1,
                                     acked := s.cursor + 1, high := t.high)
  {
    ActKeepsInv(s, Deliver);
    ActKeepsInv(Act(s, Deliver), Ack);
  }

  /** From any reachable state, consuming the rest of the stream makes the index the fold from the base on. */
  lemma {:induction false} DrainingIsExact(s: Indexer)
    requires IndexerInv(s) && s.running && !s.pending
    ensures Replay(s.index, s.log[s.cursor..]) == Fold(s.log[s.base..])
    decreases |s.log| - s.cursor
  {
    if s.cursor == |s.log| {
      CaughtUpIsExact(s);
      assert s.log[s.base..s.high] == s.log[s.base..];
    } else {
      TurnKeepsInv(s);
      DrainingIsExact(Act(Act(s, Deliver), Ack));
      ReplayStep(s.index, s.log, s.cursor);
    }
  }

  // ----- one message delivered again after newer ones -----

  /**
   An acknowledgement that got lost brings its message back alone, when the whole log was applied. That
   changes nothing exactly if the last event of its post writes the same document (or deletion).
   */
  lemma LateRedeliveryIsHarmlessIff(log: seq<Event>, i: nat)
    requires i < |log|
    ensures var e := log[i];
            Apply(Fold(log), e) == Fold(log) <==>
            (Writes(e) ==> Written(log[LastTouch(log, e.postId)]) == Written(e))
  {
    var e, before := log[i], Fold(log);
    if Writes(e) {
      FoldIsLastTouch(log, e.postId);
      ApplyForgets(before, map[], e, e.postId);
      if Written(log[LastTouch(log, e.postId)]) == Written(e) {
        forall q
          ensures EqualOn(Apply(before, e), before, q)
        {
          ApplyForgets(before, before, e, q);
        }
        EqualEverywhere(Apply(before, e), before);
      }
    }
  }

  /** When it does harm, the next event of the post repairs it. */
  lemma NextEventRepairs(log: seq<Event>, i: nat, next: Event)
    requires i < |log| && Writes(log[i]) && Touches(next, log[i].postId)
    ensures Apply(Apply(Fold(log), log[i]), next) == Fold(log + [next])
  {
    var late, exact := Apply(Apply(Fold(log), log[i]), next), Apply(Fold(log), next);
    assert Front(log + [next]) == log;
    forall q
      ensures EqualOn(late, exact, q)
    {
      ApplyForgets(Apply(Fold(log), log[i]), Fold(log), next, q);
      ApplyForgets(Fold(log), Fold(log), log[i], q);
      ApplyForgets(Fold(log), Fold(log), next, q);
    }
    EqualEverywhere(late, exact);
  }

  /** A created event that comes back after an update puts the old text into the index. */
  lemma LateRedeliveryDoesHarm()
    ensures var log := [PostCreated(0, 0, "t", "t", "old", [], Draft), PostUpdated(0, "t", "t", "new", [], Draft)];
            0 in Fold(log) && Fold(log)[0].content == "new" && Apply(Fold(log), log[0])[0].content == "old"
  {
    var a, b := PostCreated(0, 0, "t", "t", "old", [], Draft), PostUpdated(0, "t", "t", "new", [], Draft);
    assert Front([a, b]) == [a] && Front([a]) == [];
  }
}
