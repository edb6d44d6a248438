/** The post service over its three tables, proved to take the steps of module Posts. */
module PostService {
  import opened Basics
  import opened Events
  import opened Posts
  import opened Slugs
  import opened Tags
  import opened Text

  function NamesOf(tags: map<Id, string>, ids: seq<Id>): (r: seq<string>)
    requires forall i :: 0 <= i < |ids| ==> ids[i] in tags
    ensures |r| == |ids|
  {
    seq(|ids|, i requires 0 <= i < |ids| => tags[ids[i]])
  }

  // The column tags.name is unique.
  predicate UniqueNames(tags: map<Id, string>) {
    forall a, b :: a in tags && b in tags && tags[a] == tags[b] ==> a == b
  }

  lemma DistinctIdsIffDistinctNames(tags: map<Id, string>, ids: seq<Id>)
    requires UniqueNames(tags)
    requires forall i :: 0 <= i < |ids| ==> ids[i] in tags
    ensures Distinct(ids) <==> Distinct(NamesOf(tags, ids))
  {
    var names := NamesOf(tags, ids);
    if !Distinct(ids) {
      var i, j :| 0 <= i < j < |ids| && ids[i] == ids[j];
      assert names[i] == names[j];
    }
    if !Distinct(names) {
      var i, j :| 0 <= i < j < |names| && names[i] == names[j];
      assert tags[ids[i]] == tags[ids[j]];
    }
  }

  predicate Extends(tags: map<Id, string>, older: map<Id, string>) {
    forall t :: t in older ==> t in tags && tags[t] == older[t]
  }

  lemma NamesOfExtended(tags: map<Id, string>, older: map<Id, string>, ids: seq<Id>)
    requires Extends(tags, older)
    requires forall i :: 0 <= i < |ids| ==> ids[i] in older
    ensures forall i :: 0 <= i < |ids| ==> ids[i] in tags
    ensures NamesOf(tags, ids) == NamesOf(older, ids)
  {
  }

  lemma NamesOfSnoc(tags: map<Id, string>, older: map<Id, string>, ids: seq<Id>, id: Id)
    requires Extends(tags, older) && id in tags
    requires forall i :: 0 <= i < |ids| ==> ids[i] in older
    ensures forall i :: 0 <= i < |ids + [id]| ==> (ids + [id])[i] in tags
    ensures NamesOf(tags, ids + [id]) == NamesOf(older, ids) + [tags[id]]
  {
  }

  lemma InsertedValues(tags: map<Id, string>, id: Id, name: string)
    requires id !in tags
    ensures tags[id := name].Values == tags.Values + {name}
  {
    var more := tags[id := name];
    assert more[id] == name;
    forall v | v in tags.Values
      ensures v in more.Values
    {
      var t :| t in tags && tags[t] == v;
      assert more[t] == v;
    }
  }

  // The outcome for a request whose first names were entered already.
  function Prefixed(names: seq<string>, r: (set<string>, Option<seq<string>>)): (set<string>, Option<seq<string>>) {
    (r.0, if r.1.None? then None else Some(names + r.1.value))
  }

  lemma EnterAll(stored: set<string>, lowered: seq<string>)
    ensures Prefixed([], EnterTags(stored, lowered[0..])) == EnterTags(stored, lowered)
  {
    var r := EnterTags(stored, lowered).1;
    assert lowered[0..] == lowered;
    assert r.Some? ==> [] + r.value == r.value;
  }

  lemma EnterNoMore(stored: set<string>, lowered: seq<string>, names: seq<string>)
    ensures Prefixed(names, EnterTags(stored, lowered[|lowered|..])) == (stored, Some(names))
  {
    assert names + [] == names;
  }

  lemma EnterOneMore(stored: set<string>, lowered: seq<string>, k: nat, names: seq<string>)
    requires k < |lowered|
    ensures var t := TagFor(stored, lowered[k]);
            Prefixed(names, EnterTags(stored, lowered[k..])) ==
            if t.None? then (stored, None)
            else Prefixed(names + [t.value], EnterTags(stored + {t.value}, lowered[k + 1..]))
  {
    assert lowered[k..][1..] == lowered[k + 1..];
    var t := TagFor(stored, lowered[k]);
    if t.Some? {
      var more := EnterTags(stored + {t.value}, lowered[k + 1..]).1;
      if more.Some? {
        ConcatAssoc(names, [t.value], more.value);
      }
    }
  }

  class PostService {
    var posts: map<Id, PostRow>
    // tags: id to name; post_tags: post id to tag ids
    var tags: map<Id, string>
    var postTags: map<Id, seq<Id>>
    const stream: EventStream
    const env: Environment
    ghost var past: History

    ghost predicate TagsValid()
      reads this
    {
      && UniqueNames(tags)
      && forall p, i :: p in postTags && 0 <= i < |postTags[p]| ==> postTags[p][i] in tags
    }

    ghost predicate Valid()
      reads this
    {
      postTags.Keys <= posts.Keys <= past.drawn && TagsValid()
    }

    ghost function NamedPostTags(): map<Id, seq<string>>
      reads this
      requires TagsValid()
    {
      map p | p in postTags :: NamesOf(tags, postTags[p])
    }

    ghost function State(): World
      reads this, stream
      requires Valid()
    {
      World(Db(posts, tags.Values, NamedPostTags()), stream.log, past)
    }

    constructor (stream: EventStream, env: Environment)
      requires stream.log == []
      ensures Valid() && this.stream == stream && this.env == env && State() == EMPTY_WORLD
    {
      posts, tags, postTags := map[], map[], map[];
      this.stream, this.env := stream, env;
      past := History({}, {}, {}, {});
    }

    // The search runs until a candidate is free, and it ends because the table is finite.
    method EnsureUniqueSlug(slug: string, exclude: Option<Id>) returns (candidate: string)
      ensures candidate == UniqueSlug(OtherSlugs(posts, exclude), slug)
    {
      ghost var taken := OtherSlugs(posts, exclude);
      candidate := slug;
      var counter := 1;
      while true
        invariant counter >= 1 && candidate == Candidate(slug, counter - 1)
        invariant forall j :: 0 <= j < counter - 1 ==> Candidate(slug, j) in taken
        decreases |taken| + 1 - counter
      {
        var existing := exists id :: id in posts && exclude != Some(id) && posts[id].slug == candidate;
        if !existing {
          FirstFreeIsUnique(taken, slug, counter - 1);
          return;
        }
        TakenCandidatesFit(taken, slug, counter);
        candidate := slug + "-" + Decimal(counter);
        counter := counter + 1;
      }
    }

    // The tag row of a lower-cased name; None if the database refuses the name.
    method EnsureTag(name: string) returns (id: Option<Id>)
      requires UniqueNames(tags)
      modifies this`tags
      ensures UniqueNames(tags) && Extends(tags, old(tags))
      ensures id.Some? == TagFor(old(tags).Values, name).Some?
      ensures id.Some? ==> id.value in tags && tags[id.value] == TagFor(old(tags).Values, name).value
      ensures tags.Values == old(tags).Values + if id.Some? then {tags[id.value]} else {}
    {
      // the database takes no NUL, not even in the query
      if NUL in name {
        return None;
      }
      if t :| t in tags && tags[t] == name {
        return Some(t);
      }
      var text := ColumnText(name);
      // the column is too short for the name, or its unique constraint refuses it
      if text.None? || text.value in tags.Values {
        return None;
      }
      SomeIdIsUnused(tags.Keys);
      var drawn: Id :| drawn !in tags.Keys;
      tags := tags[drawn := text.value];
      InsertedValues(old(tags), drawn, text.value);
      return Some(drawn);
    }

    // Looks up or inserts each lower-cased name in turn, up to the first that is refused.
    method EnsureTags(names: seq<string>) returns (ids: Option<seq<Id>>)
      requires UniqueNames(tags)
      modifies this`tags
      ensures UniqueNames(tags) && Extends(tags, old(tags))
      ensures ids.Some? ==> forall i :: 0 <= i < |ids.value| ==> ids.value[i] in tags
      ensures (tags.Values, if ids.None? then None else Some(NamesOf(tags, ids.value))) ==
              EnterTags(old(tags).Values, Lowered(env.lower, names))
    {
      var tagIds: seq<Id> := [];
      ghost var lowered := Lowered(env.lower, names);
      ghost var outcome, arrived := EnterTags(tags.Values, lowered), NamesOf(tags, tagIds);
      EnterAll(tags.Values, lowered);
      for k := 0 to |names|
        invariant UniqueNames(tags) && Extends(tags, old(tags))
        invariant forall i :: 0 <= i < |tagIds| ==> tagIds[i] in tags
        invariant arrived == NamesOf(tags, tagIds)
        invariant outcome == Prefixed(arrived, EnterTags(tags.Values, lowered[k..]))
      {
        ghost var before := tags;
        var id := EnsureTag(env.lower(names[k]));
        EnterOneMore(before.Values, lowered, k, arrived);
        if id.None? {
          assert tags.Values == before.Values;
          return None;
        }
        NamesOfSnoc(tags, before, tagIds, id.value);
        tagIds, arrived := tagIds + [id.value], arrived + [tags[id.value]];
      }
      EnterNoMore(tags.Values, lowered, arrived);
      return Some(tagIds);
    }

    // The join of post_tags with tags, in insertion order.
    method GetPostTags(id: Id) returns (names: seq<string>)
      requires TagsValid()
      ensures names == if id in NamedPostTags() then NamedPostTags()[id] else []
    {
      if id in postTags {
        names := NamesOf(tags, postTags[id]);
      } else {
        names := [];
      }
    }

    // Insertion of the post_tags rows of a post that has none; false if a tag is refused or repeated.
    method AttachTags(id: Id, names: seq<string>) returns (ok: bool)
      requires TagsValid() && id !in postTags
      modifies this`tags, this`postTags
      ensures TagsValid()
      ensures var (stored, arrived) := AddTags(old(tags).Values, Lowered(env.lower, names));
              && tags.Values == stored && ok == arrived.Some?
              && NamedPostTags() == if ok && arrived.value != [] then old(NamedPostTags())[id := arrived.value]
                                    else old(NamedPostTags())
      ensures postTags.Keys == NamedPostTags().Keys
    {
      var tagIds := EnsureTags(names);
      forall p | p in postTags
        ensures NamesOf(tags, postTags[p]) == old(NamesOf(tags, postTags[p]))
      {
        NamesOfExtended(tags, old(tags), postTags[p]);
      }
      if tagIds.None? {
        return false;
      }
      DistinctIdsIffDistinctNames(tags, tagIds.value);
      ok := Distinct(tagIds.value);
      if |tagIds.value| > 0 && ok {
        postTags := postTags[id := tagIds.value];
      }
    }

    // False if the broker refuses the event that holds the content.
    method AnnounceCreation(id: Id, row: PostRow, names: seq<string>) returns (sent: bool)
      modifies stream
      ensures sent == env.carries(CreationEvents(id, row, names)[0])
      ensures stream.log == if sent then old(stream.log) + CreationEvents(id, row, names) else old(stream.log)
    {
      var created := PostCreated(id, row.authorId, row.title, row.slug, row.content, names, row.status);
      if !env.carries(created) {
        return false;
      }
      stream.Publish(created);
      sent := true;
      if row.status == Published {
        stream.Publish(PostPublished(id, row.authorId, row.title, row.slug));
      }
    }

    // The row of a new post and its tags; None for the tags if one of them is refused or repeated.
    method StoreNewPost(id: Id, author: Id, data: NewPost, now: int)
      returns (row: PostRow, names: Option<seq<string>>)
      requires Valid() && id !in past.drawn
      modifies this
      ensures Valid() && row == CreatedRow(old(posts), author, data, now)
      ensures var (stored, arrived) := AddTags(old(tags).Values, Lowered(env.lower, data.tags));
              && names == arrived
              && State() == World(Db(old(posts)[id := row], stored,
                                     if arrived.Some? && arrived.value != [] then old(NamedPostTags())[id := arrived.value]
                                     else old(NamedPostTags())),
                                  stream.log, old(past).(drawn := old(past).drawn + {id}))
    {
      var slug := EnsureUniqueSlug(Slugify(data.title), None);
      var publishedAt := if data.status == Published then Some(now) else None;
      row := PostRow(author, data.title, slug, data.content, data.status, now, now, publishedAt);
      posts := posts[id := row];
      past := past.(drawn := past.drawn + {id});
      var ok := AttachTags(id, data.tags);
      if !ok {
        return row, None;
      }
      var tagNames := GetPostTags(id);
      names := Some(tagNames);
    }

    method CreatePost(id: Id, author: Id, data: NewPost, now: int) returns (r: Result<PostView, PostError>)
      requires Valid() && id !in past.drawn
      modifies this, stream
      ensures Valid()
      ensures (State(), r) == Posts.CreatePost(env, old(State()), id, author, data, now)
    {
      var row, names := StoreNewPost(id, author, data, now);
      if names.None? {
        past := past.(unannounced := past.unannounced + {id}, stale := past.stale + {id});
        return Err(TagsRefused);
      }
      var sent := AnnounceCreation(id, row, names.value);
      if !sent {
        past := past.(unannounced := past.unannounced + {id}, stale := past.stale + {id});
        return Err(EventRefused);
      }
      return Ok(PostView(id, row, names.value));
    }

    // The row that an update writes.
    method Rewrite(id: Id, data: PostChange, now: int) returns (row: PostRow)
      requires id in posts
      ensures row == UpdatedRow(posts, id, data, now)
    {
      var existing := posts[id];
      row := existing.(updatedAt := now);
      if Given(data.title) {
        var slug := EnsureUniqueSlug(Slugify(data.title.value), Some(id));
        row := row.(title := data.title.value, slug := slug);
      }
      if Given(data.content) {
        row := row.(content := data.content.value);
      }
      if data.status.Some? {
        row := row.(status := data.status.value);
        if data.status.value == Published && existing.publishedAt.None? {
          row := row.(publishedAt := Some(now));
        }
      }
    }

    // Replaces the tags of a post, if new ones are given; false if one of them is refused or repeated.
    method ReplaceTags(id: Id, given: Option<seq<string>>) returns (ok: bool)
      requires TagsValid()
      modifies this`tags, this`postTags
      ensures TagsValid()
      ensures given.None? ==> ok && tags == old(tags) && postTags == old(postTags)
      ensures given.Some? ==>
                var (stored, arrived) := AddTags(old(tags).Values, Lowered(env.lower, given.value));
                && tags.Values == stored && ok == arrived.Some?
                && NamedPostTags() == if ok && arrived.value != [] then old(NamedPostTags())[id := arrived.value]
                                      else old(NamedPostTags()) - {id}
      ensures postTags.Keys == NamedPostTags().Keys
    {
      if given.None? {
        return true;
      }
      postTags := postTags - {id};
      assert NamedPostTags() == old(NamedPostTags()) - {id};
      ok := AttachTags(id, given.value);
    }

    method AnnounceUpdate(id: Id, wasPublished: bool, row: PostRow, names: seq<string>) returns (sent: bool)
      modifies stream
      ensures forall before: PostRow :: wasPublished == (before.status == Published) ==>
                && sent == env.carries(UpdateEvents(id, before, row, names)[0])
                && stream.log == if sent then old(stream.log) + UpdateEvents(id, before, row, names) else old(stream.log)
    {
      var changed := PostUpdated(id, row.title, row.slug, row.content, names, row.status);
      if !env.carries(changed) {
        return false;
      }
      stream.Publish(changed);
      sent := true;
      if !wasPublished && row.status == Published {
        stream.Publish(PostPublished(id, row.authorId, row.title, row.slug));
      }
    }

    method UpdatePost(id: Id, requester: Id, data: PostChange, role: Role, now: int)
      returns (r: Result<PostView, PostError>)
      requires Valid()
      modifies this, stream
      ensures Valid()
      ensures (State(), r) == Posts.UpdatePost(env, old(State()), id, requester, role, data, now)
    {
      if role != Writer && role != Admin {
        return Err(Forbidden);
      }
      if id !in posts {
        return Err(NotFound);
      }
      if posts[id].authorId != requester && role != Admin {
        return Err(Forbidden);
      }
      var wasPublished := posts[id].status == Published;
      var row := Rewrite(id, data, now);
      posts := posts[id := row];
      var ok := ReplaceTags(id, data.tags);
      if !ok {
        past := past.(stale := past.stale + {id});
        return Err(TagsRefused);
      }
      var names := GetPostTags(id);
      assert names == if data.tags.Some? then AddTags(old(tags).Values, Lowered(env.lower, data.tags.value)).1.value
                      else TagsOf(old(State()).db, id);
      var sent := AnnounceUpdate(id, wasPublished, row, names);
      assert sent == env.carries(UpdateEvents(id, old(posts[id]), row, names)[0]);
      if !sent {
        past := past.(stale := past.stale + {id});
        return Err(EventRefused);
      }
      past := past.(stale := past.stale - {id}, silenced := past.silenced - {id});
      return Ok(PostView(id, row, names));
    }

    method DeletePost(id: Id, requester: Id, role: Role) returns (r: Result<(), PostError>)
      requires Valid()
      modifies this, stream
      ensures Valid()
      ensures (State(), r) == Posts.DeletePost(old(State()), id, requester, role)
    {
      if role != Writer && role != Admin {
        return Err(Forbidden);
      }
      if id !in posts {
        return Err(NotFound);
      }
      if posts[id].authorId != requester && role != Admin {
        return Err(Forbidden);
      }
      // the foreign key of post_tags cascades
      posts := posts - {id};
      postTags := postTags - {id};
      assert NamedPostTags() == old(NamedPostTags()) - {id};
      stream.Publish(PostDeleted(id));
      past := past.(stale := past.stale - {id}, silenced := past.silenced - {id});
      return Ok(());
    }

    method HandleUserDeleted(userId: Id, now: int)
      requires Valid()
      modifies this
      ensures Valid()
      ensures State() == ArchiveAuthor(old(State()), userId, now)
    {
      past := past.(silenced := past.silenced + set id | id in posts && posts[id].authorId == userId);
      posts := map id | id in posts :: ArchivedRow(posts[id], userId, now);
    }
  }
}
