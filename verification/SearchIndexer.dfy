/** The index writer and the subscriber loop of the search service. */
module SearchIndexer {
  import opened Basics
  import opened Events
  import opened Search
  import opened Text

  predicate OneDocPerPost(docs: seq<Doc>) {
    forall i, j :: 0 <= i < j < |docs| ==> docs[i].postId != docs[j].postId
  }

  function Without(docs: seq<Doc>, id: Id): (r: seq<Doc>)
    ensures forall d :: d in r <==> d in docs && d.postId != id
  {
    if docs == [] then [] else (if docs[0].postId == id then [] else [docs[0]]) + Without(docs[1..], id)
  }

  lemma {:induction false} WithoutKeepsOneDocPerPost(docs: seq<Doc>, id: Id)
    requires OneDocPerPost(docs)
    ensures OneDocPerPost(Without(docs, id))
  {
    if docs != [] {
      WithoutKeepsOneDocPerPost(docs[1..], id);
      assert forall d :: d in Without(docs[1..], id) ==> d.postId != docs[0].postId;
    }
  }

  // The stored documents as a map from post id to document.
  ghost function View(docs: seq<Doc>): map<Id, Doc> {
    if docs == [] then map[] else View(docs[1..])[docs[0].postId := docs[0]]
  }

  lemma PutThenRemove(m: map<Id, Doc>, key: Id, doc: Doc, id: Id)
    ensures m[key := doc] - {id} == if key == id then m - {id} else (m - {id})[key := doc]
  {
  }

  lemma {:induction false} ViewOfWithout(docs: seq<Doc>, id: Id)
    ensures View(Without(docs, id)) == View(docs) - {id}
  {
    if docs == [] {
      assert View(docs) - {id} == map[];
    } else {
      var d, rest := docs[0], docs[1..];
      ViewOfWithout(rest, id);
      PutThenRemove(View(rest), d.postId, d, id);
      if d.postId == id {
        assert Without(docs, id) == Without(rest, id);
      } else {
        assert Without(docs, id) == [d] + Without(rest, id);
        assert ([d] + Without(rest, id))[1..] == Without(rest, id);
      }
    }
  }

  lemma {:induction false} ViewOfAppended(docs: seq<Doc>, doc: Doc)
    requires forall d :: d in docs ==> d.postId != doc.postId
    ensures View(docs + [doc]) == View(docs)[doc.postId := doc]
  {
    if docs == [] {
      assert docs + [doc] == [doc];
    } else {
      ViewOfAppended(docs[1..], doc);
      assert (docs + [doc])[1..] == docs[1..] + [doc];
      assert docs[0] in docs;
    }
  }

  lemma AppendKeepsOneDocPerPost(docs: seq<Doc>, doc: Doc)
    requires OneDocPerPost(docs) && forall d :: d in docs ==> d.postId != doc.postId
    ensures OneDocPerPost(docs + [doc])
  {
    var after := docs + [doc];
    forall i, j | 0 <= i < j < |after|
      ensures after[i].postId != after[j].postId
    {
      assert after[i] in docs;
    }
  }

  lemma ViewOfReplaced(docs: seq<Doc>, doc: Doc)
    requires OneDocPerPost(docs)
    ensures var after := Without(docs, doc.postId) + [doc];
            OneDocPerPost(after) && View(after) == View(docs)[doc.postId := doc]
  {
    WithoutKeepsOneDocPerPost(docs, doc.postId);
    ViewOfWithout(docs, doc.postId);
    ViewOfAppended(Without(docs, doc.postId), doc);
    AppendKeepsOneDocPerPost(Without(docs, doc.postId), doc);
    assert (View(docs) - {doc.postId})[doc.postId := doc] == View(docs)[doc.postId := doc];
  }

  datatype IndexError = ReadOnly

  class SearchIndex {
    // The committed documents, in the order of their last writing.
    var docs: seq<Doc>
    const writable: bool

    ghost predicate Valid()
      reads this
    {
      OneDocPerPost(docs)
    }

    ghost function Index(): map<Id, Doc>
      reads this
    {
      View(docs)
    }

    constructor (writable: bool)
      ensures Valid() && Index() == map[] && this.writable == writable
    {
      this.writable := writable;
      docs := [];
    }

    // Delete by key, add, commit: afterwards the index holds exactly one document of this post.
    method AddPost(id: Id, title: string, content: string, slug: string, tags: seq<string>,
                   authorId: Option<Id>, status: Status) returns (r: Result<(), IndexError>)
      requires Valid()
      modifies this
      ensures Valid()
      ensures r == if writable then Ok(()) else Err(ReadOnly)
      ensures writable ==>
                Index() == old(Index())[id := Doc(id, title, content, slug, Join(tags, ", "), authorId, status)]
      ensures !writable ==> docs == old(docs)
    {
      if !writable {
        return Err(ReadOnly);
      }
      var doc := Doc(id, title, content, slug, Join(tags, ", "), authorId, status);
      ViewOfReplaced(docs, doc);
      docs := Without(docs, id) + [doc];
      return Ok(());
    }

    method DeletePost(id: Id) returns (r: Result<(), IndexError>)
      requires Valid()
      modifies this
      ensures Valid()
      ensures r == if writable then Ok(()) else Err(ReadOnly)
      ensures writable ==> Index() == old(Index()) - {id}
      ensures !writable ==> docs == old(docs)
    {
      if !writable {
        return Err(ReadOnly);
      }
      ViewOfWithout(docs, id);
      WithoutKeepsOneDocPerPost(docs, id);
      docs := Without(docs, id);
      return Ok(());
    }

    // The dispatch on the subject of a message and the four handlers.
    method Handle(e: Event) returns (r: Result<(), IndexError>)
      requires Valid()
      modifies this
      ensures Valid()
      ensures r.Ok? ==> Index() == Apply(old(Index()), e)
      ensures r.Err? ==> docs == old(docs)
      ensures writable ==> r.Ok?
    {
      match e
      case PostCreated(id, author, title, slug, content, tags, status) =>
        r := AddPost(id, title, content, slug, tags, Some(author), status);
      case PostUpdated(id, title, slug, content, tags, status) =>
        r := AddPost(id, title, content, slug, tags, None, status);
      case PostDeleted(id) =>
        r := DeletePost(id);
      case _ =>
        r := Ok(());
    }
  }

  // The durable consumer: where the stream resumes delivery to the indexer.
  class Consumer {
    var acked: nat

    constructor ()
      ensures acked == 0
    {
      acked := 0;
    }
  }

  /**
   One life of the subscriber. If the process found an empty volume, it tries to delete the durable
   consumer (dropped tells whether that works) and then has every event delivered again; otherwise
   delivery resumes at the acknowledged position. Each event is applied and committed before it is
   acknowledged. An index that was empty ends as the fold of the log from the start of delivery, and that
   is the fold of the whole log exactly if nothing was lost; from every state that module Search shows to
   be reachable, the index ends as the fold of the log from its base.
   */
  method Subscribe(log: seq<Event>, index: SearchIndex, consumer: Consumer, freshIndex: bool, dropped: bool)
    requires index.Valid() && index.writable
    requires consumer.acked <= |log|
    modifies index, consumer
    ensures index.Valid()
    ensures consumer.acked == |log|
    ensures var start := if freshIndex && dropped then 0 else old(consumer.acked);
            && index.Index() == Replay(old(index.Index()), log[start..])
            && (old(index.Index()) == map[] ==>
                  && index.Index() == Fold(log[start..])
                  && (index.Index() == Fold(log) <==> NothingLost(log, start)))
    ensures !freshIndex ==>
              forall high: nat, base: nat ::
                IndexerInv(Indexer(log, old(consumer.acked), old(consumer.acked), false, true, false,
                                   old(index.Index()), high, base)) ==>
                index.Index() == Fold(log[base..])
  {
    if freshIndex && dropped {
      consumer.acked := 0;
    }
    ghost var start := consumer.acked;
    ghost var first := index.Index();
    var cursor := consumer.acked;
    while cursor < |log|
      invariant start <= cursor <= |log| && consumer.acked == cursor
      invariant index.Valid()
      invariant index.Index() == Replay(first, log[start..cursor])
    {
      assert Front(log[start..cursor + 1]) == log[start..cursor];
      var r := index.Handle(log[cursor]);
      cursor := cursor + 1;
      if r.Ok? {
        consumer.acked := cursor;
      }
    }
    assert log[start..cursor] == log[start..];
    ReplayOfNothing(log[start..]);
    SuffixIsWholeIff(log, start);
    if !freshIndex {
      forall high: nat, base: nat | IndexerInv(Indexer(log, start, start, false, true, false, first, high, base))
        ensures index.Index() == Fold(log[base..])
      {
        DrainingIsExact(Indexer(log, start, start, false, true, false, first, high, base));
      }
    }
  }
}
