/**
 The media tab of the admin page: which media ids the posts mention, and which media files are
 therefore offered for deletion as orphans.
 */
module MediaLibrary {
  import opened Basics
  import opened Events
  import opened Listing
  import opened Posts
  import opened Text

  const PREFIX := "/api/media/"

  // The class [a-f0-9-] of the regular expression.
  predicate IsIdChar(c: char) {
    'a' <= c <= 'f' || '0' <= c <= '9' || c == '-'
  }

  predicate PrefixAt(content: string, i: nat) {
    i + |PREFIX| <= |content| && content[i..i + |PREFIX|] == PREFIX
  }

  predicate MatchAt(content: string, i: nat) {
    PrefixAt(content, i) && i + |PREFIX| < |content| && IsIdChar(content[i + |PREFIX|])
  }

  // The end of the longest run of id characters from position i on.
  function RunEnd(content: string, i: nat): (end: nat)
    requires i <= |content|
    ensures i <= end <= |content|
    ensures forall k :: i <= k < end ==> IsIdChar(content[k])
    ensures end < |content| ==> !IsIdChar(content[end])
    ensures i < |content| && IsIdChar(content[i]) ==> i < end
    decreases |content| - i
  {
    if i < |content| && IsIdChar(content[i]) then RunEnd(content, i + 1) else i
  }

  // The captured ids of all matches, leftmost first, each search resuming where the last match ended.
  function IdsFrom(content: string, i: nat): seq<string>
    decreases |content| - i
  {
    if i >= |content| then []
    else if MatchAt(content, i) then
      var end := RunEnd(content, i + |PREFIX|);
      [content[i + |PREFIX|..end]] + IdsFrom(content, end)
    else IdsFrom(content, i + 1)
  }

  method ExtractAllMediaIds(content: string) returns (ids: seq<string>)
    ensures ids == IdsFrom(content, 0)
  {
    ids := [];
    var lastIndex := 0;
    while lastIndex < |content|
      invariant ids + IdsFrom(content, lastIndex) == IdsFrom(content, 0)
      decreases |content| - lastIndex
    {
      if MatchAt(content, lastIndex) {
        var start := lastIndex + |PREFIX|;
        lastIndex := RunEnd(content, start);
        ids := ids + [content[start..lastIndex]];
      } else {
        lastIndex := lastIndex + 1;
      }
    }
  }

  // The content holds a Markdown link target (/api/media/<id>).
  ghost predicate Embeds(content: string, id: string) {
    && IsMediaId(id)
    && exists before: string, after: string :: content == before + "(" + "/api/media/" + id + ")" + after
  }

  // Lower-case hexadecimal digits and dashes.
  predicate IsMediaId(id: string) {
    id != [] && forall c :: c in id ==> 'a' <= c <= 'f' || '0' <= c <= '9' || c == '-'
  }

  // The same with the position of the slash: a parenthesis before it, the id and a parenthesis after.
  predicate EmbeddedAt(content: string, i: nat, id: string) {
    && id != [] && (forall c :: c in id ==> IsIdChar(c))
    && 1 <= i && i + |PREFIX| + |id| < |content|
    && content[i - 1] == '(' && PrefixAt(content, i)
    && content[i + |PREFIX|..i + |PREFIX| + |id|] == id
    && content[i + |PREFIX| + |id|] == ')'
  }

  lemma EmbedsSomewhere(content: string, id: string) returns (i: nat)
    requires Embeds(content, id)
    ensures EmbeddedAt(content, i, id)
  {
    var before: string, after: string :| content == before + "(" + "/api/media/" + id + ")" + after;
    i := |before| + 1;
    var head := before + "(";
    assert content == head + PREFIX + id + ")" + after;
    assert content[i - 1] == head[|before|];
    assert content[i..i + |PREFIX|] == PREFIX;
    assert content[i + |PREFIX|..i + |PREFIX| + |id|] == id;
    assert content[i + |PREFIX| + |id|] == ')';
  }

  lemma PrefixHasNoParenthesis(content: string, s: nat, k: nat)
    requires PrefixAt(content, s) && s <= k < s + |PREFIX|
    ensures content[k] != '('
  {
    assert content[k] == PREFIX[k - s];
  }

  // The greedy run of an embedded id ends at the closing parenthesis.
  lemma {:induction false} RunStopsAt(content: string, i: nat, stop: nat)
    requires i <= stop < |content| && !IsIdChar(content[stop])
    requires forall k :: i <= k < stop ==> IsIdChar(content[k])
    ensures RunEnd(content, i) == stop
    decreases stop - i
  {
    if i < stop {
      RunStopsAt(content, i + 1, stop);
    }
  }

  /**
   No earlier match can swallow the start of an embedded link, because a match contains no
   parenthesis; so the scan arrives at the link and captures exactly its id.
   */
  lemma {:induction false} EmbeddedIsCaptured(content: string, s: nat, i: nat, id: string)
    requires EmbeddedAt(content, i, id) && s <= i
    ensures id in IdsFrom(content, s)
    decreases i - s
  {
    if s == i {
      var start, stop := i + |PREFIX|, i + |PREFIX| + |id|;
      forall k | start <= k < stop
        ensures IsIdChar(content[k])
      {
        assert content[k] == content[start..stop][k - start];
        assert id[k - start] in id;
      }
      RunStopsAt(content, start, stop);
      assert MatchAt(content, i);
    } else if MatchAt(content, s) {
      var end := RunEnd(content, s + |PREFIX|);
      if i - 1 < s + |PREFIX| {
        PrefixHasNoParenthesis(content, s, i - 1);
      }
      assert end <= i - 1;
      EmbeddedIsCaptured(content, end, i, id);
    } else {
      EmbeddedIsCaptured(content, s + 1, i, id);
    }
  }

  // The address of a media file occurs in the content.
  ghost predicate Mentions(content: string, id: string) {
    exists i: nat :: PrefixAt(content, i) && i + |PREFIX| + |id| <= |content| &&
                     content[i + |PREFIX|..i + |PREFIX| + |id|] == id
  }

  /** Conversely, every captured text is a nonempty id that follows the prefix somewhere. */
  lemma {:induction false} CapturedIsPresent(content: string, s: nat, id: string)
    requires id in IdsFrom(content, s)
    ensures IsMediaId(id)
    ensures Mentions(content, id)
    decreases |content| - s
  {
    if MatchAt(content, s) {
      var start := s + |PREFIX|;
      var end := RunEnd(content, start);
      if id == content[start..end] {
        assert PrefixAt(content, s) && content[s + |PREFIX|..s + |PREFIX| + |id|] == id;
      } else {
        CapturedIsPresent(content, end, id);
      }
    } else {
      CapturedIsPresent(content, s + 1, id);
    }
  }

  // ----- orphans -----

  function ReferencedIds(posts: seq<Entry>): set<string> {
    set e, id | e in posts && id in IdsFrom(e.row.content, 0) :: id
  }

  function Orphans(media: seq<string>, referenced: set<string>): (r: seq<string>)
    ensures forall id :: id in r <==> id in media && id !in referenced
  {
    if media == [] then []
    else (if media[0] in referenced then [] else [media[0]]) + Orphans(media[1..], referenced)
  }

  lemma {:induction false} OrphansAreFiltered(media: seq<string>, referenced: set<string>)
    ensures Orphans(media, referenced) == Filter((id: string) => id !in referenced, media)
  {
    if media != [] {
      OrphansAreFiltered(media[1..], referenced);
    }
  }

  lemma {:induction false} AdminSeesWholeTable(table: seq<Entry>, who: Caller)
    requires who.role == Admin
    ensures Matching(table, Query(None, None), who) == table
  {
    if table != [] {
      AdminSeesWholeTable(table[1..], who);
    }
  }

  /** Every file of which no post holds the address is offered. */
  lemma UnmentionedIsOffered(table: seq<Entry>, media: seq<string>, id: string)
    requires id in media && forall e :: e in table ==> !Mentions(e.row.content, id)
    ensures id in Orphans(media, ReferencedIds(table))
  {
    if id in ReferencedIds(table) {
      var e :| e in table && id in IdsFrom(e.row.content, 0);
      CapturedIsPresent(e.row.content, 0, id);
    }
  }

  // What is offered when the posts were fetched, and when that failed: then no id counts as referenced.
  function Offered(media: seq<string>, posts: Option<seq<Entry>>): seq<string> {
    Orphans(media, if posts.Some? then ReferencedIds(posts.value) else {})
  }

  ghost predicate SomeEmbeds(table: seq<Entry>, id: string) {
    exists e :: e in table && Embeds(e.row.content, id)
  }

  // The request for the posts; it fails as a whole if one of its pages fails.
  method RequestPosts(table: seq<Entry>, who: Caller, reachable: bool) returns (posts: Option<seq<Entry>>)
    requires who.role == Admin
    ensures posts == if reachable then Some(table) else None
  {
    if !reachable {
      return None;
    }
    var all := FetchAllPosts(table, Query(None, None), who);
    AdminSeesWholeTable(table, who);
    return Some(all);
  }

  /**
   What the admin's media tab offers for deletion. Nothing of it is embedded in a post exactly if the posts
   could be fetched, or none of them embeds any of the files; lemma UnmentionedIsOffered says what it does
   contain.
   */
  method FindOrphans(table: seq<Entry>, media: seq<string>, who: Caller, reachable: bool) returns (orphans: seq<string>)
    requires who.role == Admin
    ensures orphans == Offered(media, if reachable then Some(table) else None)
    ensures (forall id :: id in orphans ==> !SomeEmbeds(table, id)) <==>
            reachable || forall id :: id in media ==> !SomeEmbeds(table, id)
  {
    var posts := RequestPosts(table, who, reachable);
    var referenced: set<string> := {};
    if posts.Some? {
      for k := 0 to |posts.value|
        invariant referenced == ReferencedIds(posts.value[..k])
      {
        var ids := ExtractAllMediaIds(posts.value[k].row.content);
        assert posts.value[..k + 1] == posts.value[..k] + [posts.value[k]];
        referenced := referenced + set id | id in ids;
      }
      assert posts.value[..|posts.value|] == posts.value;
    }
    orphans := Orphans(media, referenced);
    FetchedProtects(table, media);
  }

  /** As long as the posts were fetched, no file that one of them embeds is offered. */
  lemma FetchedProtects(table: seq<Entry>, media: seq<string>)
    ensures forall id :: id in Offered(media, Some(table)) ==> !SomeEmbeds(table, id)
  {
    forall id, e | id in Offered(media, Some(table)) && e in table
      ensures !Embeds(e.row.content, id)
    {
      if Embeds(e.row.content, id) {
        var i := EmbedsSomewhere(e.row.content, id);
        EmbeddedIsCaptured(e.row.content, 0, i, id);
      }
    }
  }

  /** When they were not, every file is offered, such as one that the only post shows. */
  lemma FailedFetchOffersEmbedded(row: PostRow)
    ensures var table := [Entry(0, row.(content := "(/api/media/ab)"))];
            SomeEmbeds(table, "ab") && Offered(["ab"], None) == ["ab"]
  {
    var content := "(/api/media/ab)";
    assert content == "" + "(" + "/api/media/" + "ab" + ")" + "";
    assert Embeds(content, "ab");
    var table := [Entry(0, row.(content := content))];
    assert table[0] in table;
    var media := ["ab"];
    assert media[0] == "ab" && media[1..] == [];
    assert Orphans(media, {}) == [media[0]] + Orphans(media[1..], {});
  }
}
