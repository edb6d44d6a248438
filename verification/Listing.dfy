/**
 Listing posts page by page: who sees which posts, how the pages fit together, and the client that
 fetches every page.
 */
module Listing {
  import opened Basics
  import opened Events
  import opened Posts
  import opened Text

  // The caller, as the identity headers of the request name it.
  datatype Caller = Caller(userId: Option<Id>, role: Role)

  // The query string: a free-text status and an author.
  datatype Query = Query(status: Option<string>, author: Option<Id>)

  datatype Entry = Entry(id: Id, row: PostRow)

  function StatusText(s: Status): string {
    match s
    case Draft => "draft"
    case Published => "published"
    case Archived => "archived"
  }

  // Direct access to one post; a refusal reads as not found.
  predicate MayFetch(row: PostRow, who: Caller) {
    row.status == Published || who.role == Admin || (who.role == Writer && who.userId == Some(row.authorId))
  }

  // ----- the list query -----

  datatype Condition = StatusIs(text: string) | AuthorIs(id: Id)

  predicate Holds(c: Condition, row: PostRow) {
    match c
    case StatusIs(text) => StatusText(row.status) == text
    case AuthorIs(id) => row.authorId == id
  }

  // A writer who asks for the posts of the author it is itself.
  predicate WriterOwnPosts(q: Query, who: Caller) {
    who.role == Writer && q.author.Some? && q.author == who.userId
  }

  predicate AllStatuses(q: Query, who: Caller) {
    (who.role == Admin && !Given(q.status)) || WriterOwnPosts(q, who)
  }

  function Conditions(q: Query, who: Caller): seq<Condition> {
    var refused := Given(q.status) && q.status != Some("published") && who.role != Admin && !WriterOwnPosts(q, who);
    var status := if refused then Some("published") else q.status;
    var all := !refused && AllStatuses(q, who);
    (if !all || Given(status) then [StatusIs(if Given(status) then status.value else "published")] else []) +
    (if q.author.Some? then [AuthorIs(q.author.value)] else [])
  }

  predicate Selected(row: PostRow, q: Query, who: Caller) {
    forall c :: c in Conditions(q, who) ==> Holds(c, row)
  }

  function Matching(table: seq<Entry>, q: Query, who: Caller): (r: seq<Entry>)
    ensures forall e :: e in r <==> e in table && Selected(e.row, q, who)
  {
    if table == [] then []
    else (if Selected(table[0].row, q, who) then [table[0]] else []) + Matching(table[1..], q, who)
  }

  lemma StatusDecides(s: Status)
    ensures StatusText(s) == "published" <==> s == Published
  {
    assert StatusText(Draft)[0] == 'd' && StatusText(Archived)[0] == 'a' && StatusText(Published)[0] == 'p';
  }

  lemma ListedMayBeFetched(row: PostRow, q: Query, who: Caller)
    requires Selected(row, q, who)
    ensures MayFetch(row, who)
  {
    StatusDecides(row.status);
    var cs := Conditions(q, who);
    assert forall i :: 0 <= i < |cs| ==> Holds(cs[i], row);
    if who.role != Admin {
      if WriterOwnPosts(q, who) {
        assert Last(cs) == AuthorIs(q.author.value);
      } else {
        assert cs[0] == StatusIs("published");
      }
    }
  }

  // The query under which a caller finds a post that it may fetch.
  function FindingQuery(row: PostRow, who: Caller): Query {
    if row.status == Published then Query(Some("published"), None)
    else if who.role == Admin then Query(None, None)
    else Query(None, Some(row.authorId))
  }

  lemma FetchableIsListed(row: PostRow, who: Caller)
    requires MayFetch(row, who)
    ensures Selected(row, FindingQuery(row, who), who)
  {
  }

  /**
   Listing agrees with direct access: a post is returned by some query of the caller exactly if the
   caller may fetch it directly.
   */
  lemma ListedIffFetchable(row: PostRow, who: Caller)
    ensures (exists q :: Selected(row, q, who)) <==> MayFetch(row, who)
  {
    if q :| Selected(row, q, who) {
      ListedMayBeFetched(row, q, who);
    }
    if MayFetch(row, who) {
      FetchableIsListed(row, who);
    }
  }

  // ----- what a query lists -----

  // The caller is an admin, or the writer whose posts it asks for.
  predicate SeesAllStatuses(q: Query, who: Caller) {
    who.role == Admin || (who.role == Writer && q.author.Some? && q.author == who.userId)
  }

  predicate IsNamed(s: Status, text: string) {
    match s
    case Draft => text == "draft"
    case Published => text == "published"
    case Archived => text == "archived"
  }

  /**
   The author asked for is honoured for every caller. The status asked for is honoured for an admin and for
   the writer whose posts are asked for; with none these two see every status. Others see published posts.
   */
  predicate Answers(row: PostRow, q: Query, who: Caller) {
    && (q.author.Some? ==> row.authorId == q.author.value)
    && (if !SeesAllStatuses(q, who) then row.status == Published
        else if Given(q.status) then IsNamed(row.status, q.status.value)
        else true)
  }

  lemma SelectedIffAnswers(row: PostRow, q: Query, who: Caller)
    ensures Selected(row, q, who) <==> Answers(row, q, who)
  {
    StatusDecides(row.status);
    var cs := Conditions(q, who);
    assert Selected(row, q, who) <==> forall i :: 0 <= i < |cs| ==> Holds(cs[i], row);
    assert cs == [] || cs == [cs[0]] || cs == [cs[0], cs[1]];
  }

  /** A listing is the table in its order, without the posts that do not answer the query. */
  lemma {:induction false} ListIsFilteredTable(table: seq<Entry>, q: Query, who: Caller)
    ensures Matching(table, q, who) == Filter((e: Entry) => Answers(e.row, q, who), table)
  {
    if table != [] {
      SelectedIffAnswers(table[0].row, q, who);
      ListIsFilteredTable(table[1..], q, who);
    }
  }

  lemma ListedIff(table: seq<Entry>, q: Query, who: Caller, e: Entry)
    ensures e in Matching(table, q, who) <==>
            && e in table
            && (q.author.Some? ==> e.row.authorId == q.author.value)
            && (e.row.status == Published || SeesAllStatuses(q, who))
            && (Given(q.status) && SeesAllStatuses(q, who) ==> IsNamed(e.row.status, q.status.value))
  {
    SelectedIffAnswers(e.row, q, who);
  }

  // ----- pages -----

  function Clip(n: nat, length: nat): nat {
    if n <= length then n else length
  }

  // limit and offset of the database query
  function Page<T>(list: seq<T>, page: nat, limit: nat): seq<T>
    requires page >= 1
  {
    list[Clip((page - 1) * limit, |list|)..Clip(page * limit, |list|)]
  }

  function Pages<T>(list: seq<T>, count: nat, limit: nat): seq<T> {
    if count == 0 then [] else Pages(list, count - 1, limit) + Page(list, count, limit)
  }

  lemma {:induction false} PagesArePrefix<T>(list: seq<T>, count: nat, limit: nat)
    ensures Pages(list, count, limit) == list[..Clip(count * limit, |list|)]
  {
    if count > 0 {
      PagesArePrefix(list, count - 1, limit);
      assert count * limit == (count - 1) * limit + limit;
    }
  }

  /** The pages one to ceil(total / limit), put together, are the whole filtered list. */
  lemma PagesCoverList<T>(list: seq<T>, limit: nat)
    requires limit >= 1
    ensures Pages(list, (|list| + limit - 1) / limit, limit) == list
  {
    var count := (|list| + limit - 1) / limit;
    PagesArePrefix(list, count, limit);
    assert count * limit >= |list|;
  }

  // ----- the service and the client -----

  datatype PageReply = PageReply(posts: seq<Entry>, total: nat, page: nat, limit: nat)

  // table is the posts table in the order of the query, newest first
  method ListPosts(table: seq<Entry>, page: nat, limit: nat, q: Query, who: Caller) returns (r: PageReply)
    requires page >= 1 && limit >= 1
    ensures r == PageReply(Page(Matching(table, q, who), page, limit), |Matching(table, q, who)|, page, limit)
  {
    var offset := (page - 1) * limit;
    var conditions: seq<Condition> := [];
    var status, all := q.status, AllStatuses(q, who);
    if Given(status) && status.value != "published" {
      var isAdmin := who.role == Admin;
      var isOwnWriter := who.role == Writer && q.author.Some? && who.userId.Some? && q.author == who.userId;
      if !isAdmin && !isOwnWriter {
        status, all := Some("published"), false;
      }
    }
    if !all || Given(status) {
      conditions := conditions + [StatusIs(if Given(status) then status.value else "published")];
    }
    if q.author.Some? {
      conditions := conditions + [AuthorIs(q.author.value)];
    }
    assert conditions == Conditions(q, who);
    var matching := Matching(table, q, who);
    assert page * limit == offset + limit;
    var posts := matching[Clip(offset, |matching|)..Clip(offset + limit, |matching|)];
    return PageReply(posts, |matching|, page, limit);
  }

  const FETCH_LIMIT := 100

  lemma NextPage<T>(list: seq<T>, page: nat, limit: nat)
    requires page >= 1 && limit >= 1
    ensures var front := list[..Clip((page - 1) * limit, |list|)];
            && front + Page(list, page, limit) == list[..Clip(page * limit, |list|)]
            && (Page(list, page, limit) == [] <==> front == list)
            && (Page(list, page, limit) != [] ==> (page - 1) * limit < |list|)
  {
    assert page * limit == (page - 1) * limit + limit;
  }

  /** The media tab's loop: it ends, and returns every matching post exactly once, in order. */
  method FetchAllPosts(table: seq<Entry>, q: Query, who: Caller) returns (all: seq<Entry>)
    ensures all == Matching(table, q, who)
  {
    ghost var list := Matching(table, q, who);
    all := [];
    var p := 1;
    while true
      invariant p >= 1 && all == list[..Clip((p - 1) * FETCH_LIMIT, |list|)]
      decreases |list| + FETCH_LIMIT - (p - 1) * FETCH_LIMIT
    {
      var data := ListPosts(table, p, FETCH_LIMIT, q, who);
      NextPage(list, p, FETCH_LIMIT);
      if |data.posts| == 0 {
        return;
      }
      all := all + data.posts;
      if |all| >= (if data.total != 0 then data.total else |data.posts|) {
        return;
      }
      p := p + 1;
    }
  }
}
