/**
 The tags table: what its name column takes, how a request's tags are looked up or inserted one by one,
 and when all of them arrive.
 */
module Tags {
  import opened Basics
  import opened Text

  // Lower-casing is the runtime's; every statement holds for any function in its place.
  type Lowering = string -> string

  function Lowered(lower: Lowering, names: seq<string>): (r: seq<string>)
    ensures |r| == |names|
  {
    seq(|names|, i requires 0 <= i < |names| => lower(names[i]))
  }

  function NameSet(names: seq<string>): set<string> {
    set name | name in names
  }

  // ----- the column -----

  const TAG_COLUMN := 50
  const NUL: char := 0 as char

  predicate IsBlank(c: char) {
    c == ' '
  }

  // The text without what exceeds the column.
  function Cut(name: string): string {
    if |name| <= TAG_COLUMN then name else name[..TAG_COLUMN]
  }

  // A text too long for the column is refused, unless all that exceeds is blanks, which are cut off.
  function ColumnText(name: string): Option<string> {
    if |name| <= TAG_COLUMN || forall c :: c in name[TAG_COLUMN..] ==> IsBlank(c) then Some(Cut(name)) else None
  }

  // ----- one tag, and the tags of a request -----

  /**
   The name of the row that is found or inserted for a lower-cased tag. The database takes no NUL, not
   even in a query, and the column is unique.
   */
  function TagFor(stored: set<string>, name: string): Option<string> {
    if NUL in name then None
    else if name in stored then Some(name)
    else if ColumnText(name).None? || ColumnText(name).value in stored then None
    else ColumnText(name)
  }

  // The names stored afterwards and those of the request, in order; the first refusal ends it.
  function EnterTags(stored: set<string>, names: seq<string>): (r: (set<string>, Option<seq<string>>))
    ensures stored <= r.0
    decreases |names|
  {
    if names == [] then (stored, Some([]))
    else
      var t := TagFor(stored, names[0]);
      if t.None? then (stored, None)
      else
        var (after, more) := EnterTags(stored + {t.value}, names[1..]);
        (after, if more.None? then None else Some([t.value] + more.value))
  }

  // The rows of post_tags have a primary key, so the same tag twice makes their insertion fail.
  function AddTags(stored: set<string>, names: seq<string>): (r: (set<string>, Option<seq<string>>))
    ensures stored <= r.0
  {
    var (after, entered) := EnterTags(stored, names);
    (after, if entered.Some? && Distinct(entered.value) then entered else None)
  }

  // ----- when the tags arrive -----

  predicate FitsColumn(names: set<string>) {
    forall name :: name in names ==> |name| <= 50
  }

  predicate Taken(stored: set<string>, name: string) {
    && NUL !in name
    && (|name| > TAG_COLUMN ==> (forall c :: c in name[TAG_COLUMN..] ==> IsBlank(c)) && Cut(name) !in stored)
  }

  function Cuts(names: seq<string>): (r: seq<string>)
    ensures |r| == |names|
  {
    seq(|names|, i requires 0 <= i < |names| => Cut(names[i]))
  }

  // The check a caller can make beforehand.
  predicate TagsFit(stored: set<string>, names: seq<string>) {
    (forall i :: 0 <= i < |names| ==> Taken(stored, names[i])) && Distinct(Cuts(names))
  }

  lemma {:induction false} EnteredAreCuts(stored: set<string>, names: seq<string>)
    requires FitsColumn(stored) && EnterTags(stored, names).1.Some?
    ensures EnterTags(stored, names).1.value == Cuts(names)
    ensures forall i :: 0 <= i < |names| ==> Taken(stored, names[i])
    decreases |names|
  {
    if names != [] {
      var t := TagFor(stored, names[0]).value;
      EnteredAreCuts(stored + {t}, names[1..]);
      assert Cuts(names) == [Cut(names[0])] + Cuts(names[1..]);
      forall i | 0 <= i < |names|
        ensures Taken(stored, names[i])
      {
        assert i > 0 ==> Taken(stored + {t}, names[1..][i - 1]);
      }
    }
  }

  lemma {:induction false} FittingAreEntered(stored: set<string>, names: seq<string>)
    requires FitsColumn(stored) && TagsFit(stored, names)
    ensures EnterTags(stored, names).1.Some?
    decreases |names|
  {
    if names != [] {
      var t, rest := Cut(names[0]), names[1..];
      assert Taken(stored, names[0]);
      assert TagFor(stored, names[0]) == Some(t);
      assert Cuts(rest) == Cuts(names)[1..];
      forall i | 0 <= i < |rest|
        ensures Taken(stored + {t}, rest[i])
      {
        assert Taken(stored, names[i + 1]);
        assert Cuts(names)[0] != Cuts(names)[i + 1];
      }
      FittingAreEntered(stored + {t}, rest);
    }
  }

  /**
   The tags of a request arrive exactly if they hold no NUL, exceed the column by blanks at most (and
   then not onto a stored name), and are distinct once cut; and then they arrive as cut.
   */
  lemma TagsArriveIff(stored: set<string>, names: seq<string>)
    requires FitsColumn(stored)
    ensures AddTags(stored, names).1 == if TagsFit(stored, names) then Some(Cuts(names)) else None
  {
    if EnterTags(stored, names).1.Some? {
      EnteredAreCuts(stored, names);
    }
    if TagsFit(stored, names) {
      FittingAreEntered(stored, names);
    }
  }

  lemma {:induction false} EnteredAreStored(stored: set<string>, names: seq<string>) returns (k: nat)
    requires FitsColumn(stored)
    ensures k <= |names| && EnterTags(stored, names).0 == stored + NameSet(Cuts(names[..k]))
    ensures EnterTags(stored, names).1.Some? ==> k == |names|
    decreases |names|
  {
    k := 0;
    if names == [] || TagFor(stored, names[0]).None? {
      assert NameSet(Cuts(names[..0])) == {};
    } else {
      var t, rest := TagFor(stored, names[0]).value, names[1..];
      assert t == Cut(names[0]);
      var j := EnteredAreStored(stored + {t}, rest);
      k := j + 1;
      assert Cuts(names[..k]) == [t] + Cuts(rest[..j]);
      assert NameSet([t] + Cuts(rest[..j])) == {t} + NameSet(Cuts(rest[..j]));
    }
  }

  /** The tags table grows by the tags entered: by all of them, or by those before the first refused one. */
  lemma AddTagsStores(stored: set<string>, names: seq<string>)
    requires FitsColumn(stored)
    ensures exists k :: 0 <= k <= |names| && AddTags(stored, names).0 == stored + NameSet(Cuts(names[..k]))
    ensures AddTags(stored, names).1.Some? ==> AddTags(stored, names).0 == stored + NameSet(Cuts(names))
  {
    var k := EnteredAreStored(stored, names);
    assert names[..|names|] == names;
  }

  lemma {:induction false} AddTagsKeepsColumn(stored: set<string>, names: seq<string>)
    requires FitsColumn(stored)
    ensures FitsColumn(EnterTags(stored, names).0)
    decreases |names|
  {
    if names != [] && TagFor(stored, names[0]).Some? {
      AddTagsKeepsColumn(stored + {TagFor(stored, names[0]).value}, names[1..]);
    }
  }

  // A check that needs no look at the table.
  predicate SafeNames(names: seq<string>) {
    Distinct(names) && forall i :: 0 <= i < |names| ==> NUL !in names[i] && |names[i]| <= 50
  }

  lemma {:induction false} SafeNamesEnter(stored: set<string>, names: seq<string>)
    requires forall i :: 0 <= i < |names| ==> NUL !in names[i] && |names[i]| <= TAG_COLUMN
    ensures EnterTags(stored, names).1 == Some(names)
    decreases |names|
  {
    if names != [] {
      SafeNamesEnter(stored + {names[0]}, names[1..]);
      assert names == [names[0]] + names[1..];
    }
  }

  /** Distinct short names without NUL arrive unchanged, whatever the table holds. */
  lemma SafeNamesArrive(stored: set<string>, names: seq<string>)
    requires SafeNames(names)
    ensures AddTags(stored, names).1 == Some(names)
  {
    SafeNamesEnter(stored, names);
  }

  // ----- from the editor to the search page -----

  lemma LongTextIsNotTaken(stored: set<string>, name: string)
    requires |name| > TAG_COLUMN && !IsBlank(Last(name))
    ensures !Taken(stored, name)
  {
    var excess := name[TAG_COLUMN..];
    assert Last(excess) == Last(name) && Last(excess) in excess;
  }

  /**
   The tags that the editor parses, the post service lower-cases and stores, and the indexer joins are
   the tags that the search page parses, if lower-casing keeps plain tags plain.
   */
  lemma EditedTagsAreShown(lower: Lowering, stored: set<string>, field: string)
    requires FitsColumn(stored) && forall tag :: PlainTag(tag) ==> PlainTag(lower(tag))
    requires AddTags(stored, Lowered(lower, ParseTags(field))).1.Some?
    ensures var names := AddTags(stored, Lowered(lower, ParseTags(field))).1.value;
            names == Lowered(lower, ParseTags(field)) && ParseTags(PrintTags(names)) == names
  {
    ParsedTagsArePlain(field);
    var names := Lowered(lower, ParseTags(field));
    TagsArriveIff(stored, names);
    forall i | 0 <= i < |names|
      ensures PlainTag(names[i]) && Cut(names[i]) == names[i]
    {
      assert ParseTags(field)[i] in ParseTags(field);
      if |names[i]| > TAG_COLUMN {
        LongTextIsNotTaken(stored, names[i]);
      }
      assert Taken(stored, names[i]);
    }
    assert Cuts(names) == names;
    PlainTagsRoundTrip(names);
  }

  /** Lower-casing as module Text models it does keep plain tags plain. */
  lemma ToLowerKeepsPlain()
    ensures forall tag :: PlainTag(tag) ==> PlainTag(ToLower(tag))
  {
    forall tag: string | PlainTag(tag)
      ensures PlainTag(ToLower(tag))
    {
      LowerKeepsPlain(tag);
    }
  }

  // ----- inputs that do not arrive -----

  /** Two tags that become equal. */
  lemma EqualTagsAreRefused(lower: Lowering, stored: set<string>, a: string, b: string)
    requires FitsColumn(stored) && lower(a) == lower(b)
    ensures AddTags(stored, Lowered(lower, [a, b])).1.None?
  {
    var names := Lowered(lower, [a, b]);
    assert Cuts(names)[0] == Cuts(names)[1];
    TagsArriveIff(stored, names);
  }

  /** A NUL. */
  lemma NulIsRefused(stored: set<string>)
    ensures AddTags(stored, Lowered(ToLower, [[NUL]])).1.None?
  {
    assert ToLower([NUL]) == [NUL] + [];
    assert Lowered(ToLower, [[NUL]])[0] == [NUL];
  }

  const DOTTED_I: char := 0x130 as char

  function Repeat(c: char, n: nat): string {
    seq(n, _ => c)
  }

  lemma {:induction false} LowerDoubles(s: string, c: char)
    requires |LowerChar(c)| == 2 && forall k :: 0 <= k < |s| ==> s[k] == c
    ensures |ToLower(s)| == 2 * |s|
  {
    if s != [] {
      LowerDoubles(s[1..], c);
    }
  }

  /** Twenty-six dotted capitals I: short enough for the request schema, too long once lower-cased. */
  lemma LongLoweredTagIsRefused(stored: set<string>)
    requires FitsColumn(stored)
    ensures AddTags(stored, Lowered(ToLower, [Repeat(DOTTED_I, 26)])).1.None?
  {
    var names := Lowered(ToLower, [Repeat(DOTTED_I, 26)]);
    var name := names[0];
    LowerDoubles(Repeat(DOTTED_I, 26), DOTTED_I);
    LowerEnds(Repeat(DOTTED_I, 26));
    LongTextIsNotTaken(stored, name);
    TagsArriveIff(stored, names);
  }
}
