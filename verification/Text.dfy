/**
 The string operations of the TypeScript services and the front end: white space, lower-casing,
 splitting and trimming, the tag field of the editor and the slug of a title.
 */
module Text {
  import opened Basics

  // The characters that ECMAScript's \s and trim() treat as white space.
  predicate IsSpace(c: char) {
    var n := c as int;
    9 <= n <= 13 || n == 0x20 || n == 0xA0 || n == 0x1680 || 0x2000 <= n <= 0x200A ||
    n == 0x2028 || n == 0x2029 || n == 0x202F || n == 0x205F || n == 0x3000 || n == 0xFEFF
  }

  predicate IsWord(c: char) {
    'a' <= c <= 'z' || 'A' <= c <= 'Z' || '0' <= c <= '9' || c == '_'
  }

  /**
   Lower-casing of one character. Two characters outside ASCII have a lower-case form that contains
   an ASCII letter: the Kelvin sign and the dotted capital I.
   */
  function LowerChar(c: char): string {
    if 'A' <= c <= 'Z' then [(c as int + 32) as char]
    else if c as int == 0x212A then "k"
    else if c as int == 0x130 then ['i', 0x307 as char]
    else [c]
  }

  function ToLower(s: string): string {
    if s == [] then [] else LowerChar(s[0]) + ToLower(s[1..])
  }

  // JavaScript's test of an optional string: the empty string counts as absent.
  predicate Given(field: Option<string>) {
    field.Some? && field.value != []
  }

  // ----- trimming -----

  function TrimLeft(drop: char -> bool, s: string): (r: string)
    ensures |r| <= |s|
    ensures r != [] ==> !drop(r[0])
    ensures forall c :: c in r ==> c in s
    ensures s != [] && drop(s[0]) ==> |r| < |s|
  {
    if s != [] && drop(s[0]) then TrimLeft(drop, s[1..]) else s
  }

  function TrimRight(drop: char -> bool, s: string): (r: string)
    ensures r <= s
    ensures r != [] ==> !drop(Last(r))
  {
    if s != [] && drop(Last(s)) then TrimRight(drop, Front(s)) else s
  }

  function Strip(drop: char -> bool, s: string): (r: string)
    ensures r != [] ==> !drop(r[0]) && !drop(Last(r))
    ensures forall c :: c in r ==> c in s
    ensures |r| <= |s|
  {
    TrimRight(drop, TrimLeft(drop, s))
  }

  function Trim(s: string): string {
    Strip(IsSpace, s)
  }

  // ----- splitting -----

  function Push(c: char, pieces: seq<string>): (r: seq<string>)
    requires pieces != []
    ensures |r| == |pieces|
  {
    [[c] + pieces[0]] + pieces[1..]
  }

  lemma PushAppend(c: char, p: seq<string>, q: seq<string>)
    requires p != []
    ensures Push(c, p + q) == Push(c, p) + q
  {
  }

  function Split(s: string, sep: char): (r: seq<string>)
    ensures |r| >= 1
  {
    if s == [] then [[]]
    else
      var rest := Split(s[1..], sep);
      if s[0] == sep then [[]] + rest else Push(s[0], rest)
  }

  lemma {:induction false} PiecesHoldNoSeparator(s: string, sep: char)
    ensures forall piece :: piece in Split(s, sep) ==> sep !in piece
  {
    if s != [] {
      PiecesHoldNoSeparator(s[1..], sep);
    }
  }

  lemma SplitCons(c: char, s: string, sep: char)
    ensures Split([c] + s, sep) == if c == sep then [[]] + Split(s, sep) else Push(c, Split(s, sep))
  {
    assert ([c] + s)[1..] == s;
  }

  lemma {:induction false} SplitOfOnePiece(s: string, sep: char)
    requires sep !in s
    ensures Split(s, sep) == [s]
  {
    if s != [] {
      SplitOfOnePiece(s[1..], sep);
      assert s == [s[0]] + s[1..];
    }
  }

  lemma ConsAppend(c: char, a: string, mid: string, b: string)
    ensures [c] + a + mid + b == [c] + (a + mid + b)
  {
    ConcatAssoc([c], a, mid);
    ConcatAssoc([c], a + mid, b);
  }

  /** A separator between two texts separates the pieces of the one from the pieces of the other. */
  lemma {:induction false} SplitAppend(a: string, b: string, sep: char)
    ensures Split(a + [sep] + b, sep) == Split(a, sep) + Split(b, sep)
  {
    if a == [] {
      assert a + [sep] == [sep];
      SplitCons(sep, b, sep);
    } else {
      var c, rest := a[0], a[1..];
      assert a == [c] + rest;
      SplitAppend(rest, b, sep);
      ConsAppend(c, rest, [sep], b);
      SplitCons(c, rest + [sep] + b, sep);
      SplitCons(c, rest, sep);
      ConcatAssoc([[]], Split(rest, sep), Split(b, sep));
      PushAppend(c, Split(rest, sep), Split(b, sep));
    }
  }

  function MapTrim(pieces: seq<string>): (r: seq<string>)
    ensures |r| == |pieces|
    ensures forall i :: 0 <= i < |r| ==> r[i] == Trim(pieces[i])
  {
    seq(|pieces|, i requires 0 <= i < |pieces| => Trim(pieces[i]))
  }

  // ----- the tag field of the editor -----

  predicate NonEmpty(s: string) {
    s != []
  }

  function Join(parts: seq<string>, glue: string): string {
    if parts == [] then []
    else if |parts| == 1 then parts[0]
    else parts[0] + glue + Join(parts[1..], glue)
  }

  function PrintTags(tags: seq<string>): string {
    Join(tags, ", ")
  }

  function ParseTags(field: string): seq<string> {
    Filter(NonEmpty, MapTrim(Split(field, ',')))
  }

  // A tag that survives being printed into the comma-separated field.
  predicate PlainTag(tag: string) {
    tag != [] && ',' !in tag && !IsSpace(tag[0]) && !IsSpace(Last(tag))
  }

  lemma ParsedTagsArePlain(field: string)
    ensures forall tag :: tag in ParseTags(field) ==> PlainTag(tag)
  {
    var pieces := Split(field, ',');
    PiecesHoldNoSeparator(field, ',');
    forall tag | tag in ParseTags(field)
      ensures PlainTag(tag)
    {
      var i :| 0 <= i < |pieces| && MapTrim(pieces)[i] == tag;
      assert pieces[i] in pieces;
    }
  }

  lemma {:induction false} TrimOfPlain(tag: string)
    requires PlainTag(tag)
    ensures Trim(tag) == tag
  {
  }

  lemma {:induction false} LeadingBlankIsTrimmed(rest: string)
    ensures MapTrim(Split(" " + rest, ',')) == MapTrim(Split(rest, ','))
  {
    var pieces := Split(rest, ',');
    SplitCons(' ', rest, ',');
    assert [' '] + rest == " " + rest;
    assert Trim([' '] + pieces[0]) == Trim(pieces[0]) by {
      assert ([' '] + pieces[0])[1..] == pieces[0];
    }
  }

  lemma ParseOfPlain(tag: string)
    requires PlainTag(tag)
    ensures MapTrim(Split(tag, ',')) == [tag] && ParseTags(tag) == [tag]
  {
    TrimOfPlain(tag);
    SplitOfOnePiece(tag, ',');
    FilterKeepsAll(NonEmpty, [tag]);
  }

  lemma MapTrimAppend(p: seq<string>, q: seq<string>)
    ensures MapTrim(p + q) == MapTrim(p) + MapTrim(q)
  {
  }

  /** A comma between two fields puts the tags of the one before the tags of the other. */
  lemma ParseTagsAppend(front: string, back: string)
    ensures ParseTags(front + [','] + back) == ParseTags(front) + ParseTags(back)
  {
    SplitAppend(front, back, ',');
    MapTrimAppend(Split(front, ','), Split(back, ','));
    FilterAppend(NonEmpty, MapTrim(Split(front, ',')), MapTrim(Split(back, ',')));
  }

  /** What parsing one more printed tag yields. */
  lemma ParsePrintedHead(tag: string, rest: string)
    requires PlainTag(tag)
    ensures ParseTags(tag + ", " + rest) == [tag] + ParseTags(rest)
    ensures ParseTags(tag) == [tag]
  {
    assert ", " == [','] + " ";
    ConcatAssoc(tag, [','], " ");
    ConcatAssoc(tag + [','], " ", rest);
    ParseTagsAppend(tag, " " + rest);
    LeadingBlankIsTrimmed(rest);
    ParseOfPlain(tag);
  }

  lemma {:induction false} PlainTagsRoundTrip(tags: seq<string>)
    requires forall tag :: tag in tags ==> PlainTag(tag)
    ensures ParseTags(PrintTags(tags)) == tags
  {
    if tags == [] {
      assert MapTrim(Split("", ',')) == [""];
    } else if |tags| == 1 {
      ParsePrintedHead(tags[0], "");
    } else {
      PlainTagsRoundTrip(tags[1..]);
      ParsePrintedHead(tags[0], PrintTags(tags[1..]));
    }
  }

  /** Opening a post in the editor and saving it keeps the tag list exactly when every tag is plain. */
  lemma TagFieldRoundTrip(tags: seq<string>)
    ensures ParseTags(PrintTags(tags)) == tags <==> forall tag :: tag in tags ==> PlainTag(tag)
  {
    ParsedTagsArePlain(PrintTags(tags));
    if forall tag :: tag in tags ==> PlainTag(tag) {
      PlainTagsRoundTrip(tags);
    }
  }

  /** The list the editor parsed is the list it shows the next time the post is opened. */
  lemma ParsedTagsRoundTrip(field: string)
    ensures ParseTags(PrintTags(ParseTags(field))) == ParseTags(field)
  {
    ParsedTagsArePlain(field);
    PlainTagsRoundTrip(ParseTags(field));
  }

  // ----- lower-casing keeps tags plain -----

  lemma {:induction false} LowerEnds(s: string)
    requires s != []
    ensures ToLower(s) != []
    ensures ToLower(s)[0] == LowerChar(s[0])[0] && Last(ToLower(s)) == Last(LowerChar(Last(s)))
  {
    if |s| > 1 {
      LowerEnds(s[1..]);
    } else {
      assert ToLower(s) == LowerChar(s[0]) + [];
    }
  }

  lemma {:induction false} LowerAddsNoComma(s: string)
    requires ',' !in s
    ensures ',' !in ToLower(s)
  {
    if s != [] {
      LowerAddsNoComma(s[1..]);
      assert s[0] in s;
    }
  }

  lemma LowerKeepsPlain(tag: string)
    requires PlainTag(tag)
    ensures PlainTag(ToLower(tag))
  {
    LowerEnds(tag);
    LowerAddsNoComma(tag);
  }

  // ----- slugs -----

  predicate IsSlugInput(c: char) {
    IsWord(c) || IsSpace(c) || c == '-'
  }

  predicate IsSeparator(c: char) {
    IsSpace(c) || c == '_'
  }

  predicate IsDash(c: char) {
    c == '-'
  }

  // Every maximal run of white space and underscores becomes one dash.
  function CollapseRuns(s: string): string
    decreases |s|
  {
    if s == [] then []
    else if IsSeparator(s[0]) then "-" + CollapseRuns(TrimLeft(IsSeparator, s))
    else [s[0]] + CollapseRuns(s[1..])
  }

  const SLUG_LIMIT := 200

  // The slug before it is cut.
  function Uncut(text: string): string {
    Strip(IsDash, CollapseRuns(Filter(IsSlugInput, ToLower(text))))
  }

  function Slugify(text: string): string {
    var trimmed := Uncut(text);
    if |trimmed| <= SLUG_LIMIT then trimmed else trimmed[..SLUG_LIMIT]
  }

  predicate IsSlugChar(c: char) {
    'a' <= c <= 'z' || '0' <= c <= '9' || c == '-'
  }

  predicate SlugText(s: string) {
    forall c :: c in s ==> IsSlugChar(c)
  }

  predicate NoUpper(s: string) {
    forall c :: c in s ==> !('A' <= c <= 'Z')
  }

  lemma {:induction false} ToLowerHasNoUpper(s: string)
    ensures NoUpper(ToLower(s))
  {
    if s != [] {
      ToLowerHasNoUpper(s[1..]);
    }
  }

  lemma {:induction false} CollapsedIsSlugText(s: string)
    requires NoUpper(s)
    requires forall c :: c in s ==> IsSlugInput(c)
    ensures SlugText(CollapseRuns(s))
    decreases |s|
  {
    if s != [] {
      assert s[0] in s && forall c :: c in s[1..] ==> c in s;
      if IsSeparator(s[0]) {
        CollapsedIsSlugText(TrimLeft(IsSeparator, s));
      } else {
        CollapsedIsSlugText(s[1..]);
      }
    }
  }

  /** The shape of every slug base. */
  lemma SlugifyShape(text: string)
    ensures SlugText(Slugify(text))
    ensures |Slugify(text)| <= SLUG_LIMIT
    ensures Slugify(text) != [] ==> Slugify(text)[0] != '-'
    ensures Slugify(text) != [] && Last(Slugify(text)) == '-' ==> |Slugify(text)| == SLUG_LIMIT
  {
    var lower := ToLower(text);
    ToLowerHasNoUpper(text);
    CollapsedIsSlugText(Filter(IsSlugInput, lower));
  }

  lemma {:induction false} SlugTextIsUntouched(s: string)
    requires SlugText(s)
    ensures ToLower(s) == s && CollapseRuns(s) == s
  {
    if s != [] {
      SlugTextIsUntouched(s[1..]);
      assert s == [s[0]] + s[1..];
      assert s[0] in s;
    }
  }

  lemma SlugifyOfSlugText(s: string)
    requires SlugText(s) && |s| <= SLUG_LIMIT && (s != [] ==> s[0] != '-')
    ensures Slugify(s) == TrimRight(IsDash, s)
  {
    SlugTextIsUntouched(s);
    FilterKeepsAll(IsSlugInput, s);
  }

  lemma DashIsTrimmed(text: string)
    ensures var slug := Slugify(text);
            Slugify(slug) == slug <==> (slug == [] || Last(slug) != '-')
  {
    SlugifyShape(text);
    SlugifyOfSlugText(Slugify(text));
  }

  /** A slug base is its own slug base exactly unless the limit cuts it right behind a dash. */
  lemma SlugifyAgain(text: string)
    ensures Slugify(Slugify(text)) == Slugify(text) <==>
            !(|Uncut(text)| > SLUG_LIMIT && Uncut(text)[SLUG_LIMIT - 1] == '-')
  {
    DashIsTrimmed(text);
  }

  lemma {:induction false} LowerKeepsSlugInputShort(text: string)
    ensures |Filter(IsSlugInput, ToLower(text))| <= |text|
  {
    if text != [] {
      LowerKeepsSlugInputShort(text[1..]);
      FilterAppend(IsSlugInput, LowerChar(text[0]), ToLower(text[1..]));
      var c := LowerChar(text[0]);
      assert |c| == 1 || c == ['i', 0x307 as char];
      if |c| == 2 {
        assert c == ['i'] + [0x307 as char];
        FilterAppend(IsSlugInput, ['i'], [0x307 as char]);
        assert !IsSlugInput(0x307 as char);
      }
    }
  }

  lemma {:induction false} CollapseShrinks(s: string)
    ensures |CollapseRuns(s)| <= |s|
    decreases |s|
  {
    if s != [] {
      CollapseShrinks(if IsSeparator(s[0]) then TrimLeft(IsSeparator, s) else s[1..]);
    }
  }

  /** A title within the limit of the request schema is never cut, so its slug base is final. */
  lemma ShortTitleIsNotCut(text: string)
    requires |text| <= SLUG_LIMIT
    ensures Slugify(text) == Uncut(text) && Slugify(Slugify(text)) == Slugify(text)
  {
    LowerKeepsSlugInputShort(text);
    CollapseShrinks(Filter(IsSlugInput, ToLower(text)));
    SlugifyAgain(text);
  }

  function Letters(n: nat): string {
    seq(n, _ => 'a')
  }

  /** A longer title for which it is not: 199 letters, a dash and one letter more. */
  lemma CutLeavesDash()
    ensures var title := Letters(199) + "-b";
            Slugify(Slugify(title)) != Slugify(title)
  {
    var title := Letters(SLUG_LIMIT - 1) + "-b";
    SlugTextIsUntouched(title);
    FilterKeepsAll(IsSlugInput, title);
    assert title[0] == 'a' && Last(title) == 'b';
    assert Uncut(title) == title;
    SlugifyAgain(title);
  }

  /** From the second application on, the slug base no longer changes. */
  lemma SlugifyStabilizes(text: string)
    ensures Slugify(Slugify(Slugify(text))) == Slugify(Slugify(text))
  {
    SlugifyShape(text);
    var once := Slugify(text);
    SlugifyOfSlugText(once);
    DashIsTrimmed(once);
  }
}
