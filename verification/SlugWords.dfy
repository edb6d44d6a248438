/** The slug base of a title, read off its words: what stands between blanks and underscores, joined by dashes. */
module SlugWords {
  import opened Basics
  import opened Text

  // ----- the words of a text -----

  // Every blank and every underscore as an underscore.
  function Unified(s: string): (r: string)
    ensures |r| == |s|
  {
    if s == [] then [] else [if IsSpace(s[0]) || s[0] == '_' then '_' else s[0]] + Unified(s[1..])
  }

  // The nonempty pieces between blanks and underscores.
  function Words(s: string): seq<string> {
    Filter(NonEmpty, Split(Unified(s), '_'))
  }

  // What the slug keeps of a title.
  function Kept(text: string): string {
    Filter(IsSlugInput, ToLower(text))
  }

  lemma WordsAfterSeparator(s: string)
    requires s != [] && IsSeparator(s[0])
    ensures Words(s) == Words(s[1..])
  {
    assert Unified(s) == ['_'] + Unified(s[1..]);
    SplitCons('_', Unified(s[1..]), '_');
    FilterCons(NonEmpty, [], Split(Unified(s[1..]), '_'));
  }

  lemma {:induction false} WordsOfTrimmed(s: string)
    ensures Words(TrimLeft(IsSeparator, s)) == Words(s)
  {
    if s != [] && IsSeparator(s[0]) {
      WordsAfterSeparator(s);
      WordsOfTrimmed(s[1..]);
    }
  }

  lemma PushedPieces(c: char, pieces: seq<string>)
    requires pieces != []
    ensures Filter(NonEmpty, Push(c, pieces)) == [[c] + pieces[0]] + Filter(NonEmpty, pieces[1..])
    ensures Filter(NonEmpty, pieces) ==
            (if pieces[0] == [] then [] else [pieces[0]]) + Filter(NonEmpty, pieces[1..])
  {
    assert pieces == [pieces[0]] + pieces[1..];
    FilterCons(NonEmpty, pieces[0], pieces[1..]);
    FilterCons(NonEmpty, [c] + pieces[0], pieces[1..]);
  }

  lemma FirstPieceIsEmptyIff(s: string, sep: char)
    ensures Split(s, sep)[0] == [] <==> s == [] || s[0] == sep
  {
  }

  lemma PiecesAfterLetter(c: char, s: string)
    requires c != '_'
    ensures var pieces := Split(s, '_');
            && Filter(NonEmpty, Split([c] + s, '_')) == [[c] + pieces[0]] + Filter(NonEmpty, pieces[1..])
            && Filter(NonEmpty, pieces) == (if pieces[0] == [] then [] else [pieces[0]]) + Filter(NonEmpty, pieces[1..])
            && (pieces[0] == [] <==> s == [] || s[0] == '_')
  {
    SplitCons(c, s, '_');
    PushedPieces(c, Split(s, '_'));
    FirstPieceIsEmptyIff(s, '_');
  }

  // A letter before a separator or at the end is a word of its own; another one joins the next word.
  lemma WordsAfterLetter(s: string)
    requires s != [] && !IsSeparator(s[0])
    ensures var rest := s[1..];
            if rest == [] || IsSeparator(rest[0]) then Words(s) == [[s[0]]] + Words(rest)
            else Words(rest) != [] && Words(s) == [[s[0]] + Words(rest)[0]] + Words(rest)[1..]
  {
    var c, rest := s[0], Unified(s[1..]);
    assert Unified(s) == [c] + rest;
    PiecesAfterLetter(c, rest);
    var first, tail := Split(rest, '_')[0], Filter(NonEmpty, Split(rest, '_')[1..]);
    if first == [] {
      assert Words(s[1..]) == [] + tail == tail && [c] + [] == [c];
    } else {
      assert Words(s[1..]) == [first] + tail;
      assert ([first] + tail)[1..] == tail;
    }
  }

  // ----- trimming -----

  lemma {:induction false} TrimsCommute(drop: char -> bool, s: string)
    ensures TrimRight(drop, TrimLeft(drop, s)) == TrimLeft(drop, TrimRight(drop, s))
    decreases |s|
  {
    if s != [] && drop(s[0]) && drop(Last(s)) {
      if |s| > 1 {
        var inner := s[1..|s| - 1];
        assert Front(s)[1..] == inner && Front(s[1..]) == inner && Front(s)[0] == s[0] && Last(s[1..]) == Last(s);
        TrimsCommute(drop, s[1..]);
        TrimsCommute(drop, Front(s));
        TrimsCommute(drop, inner);
      }
    } else if s != [] && drop(s[0]) {
      TrimsCommute(drop, s[1..]);
      assert s[1..] != [] && Last(s[1..]) == Last(s);
    } else if s != [] && drop(Last(s)) {
      TrimsCommute(drop, Front(s));
      assert Front(s) != [] && Front(s)[0] == s[0];
    }
  }

  lemma {:induction false} TrimRightAfterCons(drop: char -> bool, c: char, s: string)
    ensures TrimRight(drop, [c] + s) ==
            if TrimRight(drop, s) == [] then TrimRight(drop, [c]) else [c] + TrimRight(drop, s)
    decreases |s|
  {
    if s == [] {
      assert [c] + s == [c];
    } else {
      assert Last([c] + s) == Last(s) && Front([c] + s) == [c] + Front(s);
      if drop(Last(s)) {
        TrimRightAfterCons(drop, c, Front(s));
      }
    }
  }

  lemma TrimRightCongruence(drop: char -> bool, c: char, s: string, t: string)
    requires TrimRight(drop, s) == TrimRight(drop, t)
    ensures TrimRight(drop, [c] + s) == TrimRight(drop, [c] + t)
  {
    TrimRightAfterCons(drop, c, s);
    TrimRightAfterCons(drop, c, t);
  }

  // ----- the collapsed text -----

  // The words joined by dashes, behind a dash if the text begins with a separator.
  function Dashed(s: string): string {
    (if s != [] && IsSeparator(s[0]) then "-" else "") + Join(Words(s), "-")
  }

  lemma DashedAfterSeparator(s: string)
    requires s != [] && IsSeparator(s[0])
    ensures Dashed(s) == "-" + Dashed(TrimLeft(IsSeparator, s))
  {
    WordsOfTrimmed(s);
    var t := TrimLeft(IsSeparator, s);
    assert Dashed(t) == Join(Words(t), "-");
  }

  lemma DashedAfterLetter(s: string)
    requires s != [] && !IsSeparator(s[0])
    ensures TrimRight(IsDash, Dashed(s)) == TrimRight(IsDash, [s[0]] + Dashed(s[1..]))
  {
    var c, rest := s[0], s[1..];
    WordsAfterLetter(s);
    assert Dashed(s) == Join(Words(s), "-");
    if rest == [] {
      assert Dashed(rest) == [] && [c] + Dashed(rest) == [c];
    } else if IsSeparator(rest[0]) {
      if Words(rest) == [] {
        assert Dashed(rest) == "-" && Dashed(s) == [c];
        assert [c] + "-" == [c, '-'] && Front([c, '-']) == [c];
      } else {
        assert Words(s)[1..] == Words(rest);
        assert Dashed(s) == [c] + "-" + Join(Words(rest), "-");
        ConcatAssoc([c], "-", Join(Words(rest), "-"));
      }
    } else {
      JoinAfterLetter(c, Words(rest));
      assert Dashed(rest) == Join(Words(rest), "-");
    }
  }

  lemma JoinAfterLetter(c: char, words: seq<string>)
    requires words != []
    ensures Join([[c] + words[0]] + words[1..], "-") == [c] + Join(words, "-")
  {
    var more := [[c] + words[0]] + words[1..];
    assert more[1..] == words[1..];
    if |words| > 1 {
      ConcatAssoc([c], words[0], "-");
      ConcatAssoc([c], words[0] + "-", Join(words[1..], "-"));
    }
  }

  lemma {:induction false} CollapsedIsDashed(s: string)
    ensures TrimRight(IsDash, CollapseRuns(s)) == TrimRight(IsDash, Dashed(s))
    decreases |s|
  {
    if s != [] {
      if IsSeparator(s[0]) {
        var t := TrimLeft(IsSeparator, s);
        CollapsedIsDashed(t);
        DashedAfterSeparator(s);
        TrimRightCongruence(IsDash, '-', CollapseRuns(t), Dashed(t));
      } else {
        CollapsedIsDashed(s[1..]);
        DashedAfterLetter(s);
        TrimRightCongruence(IsDash, s[0], CollapseRuns(s[1..]), Dashed(s[1..]));
      }
    } else {
      assert Words([]) == [] by { assert Split("", '_') == [""]; }
    }
  }

  /**
   The slug base of every title before it is cut: the words of what is kept of the title, joined by one dash
   each, without the dashes at both ends.
   */
  lemma UncutJoinsWords(text: string)
    ensures Uncut(text) == Strip(IsDash, Join(Words(Kept(text)), "-"))
  {
    var s := Kept(text);
    CollapsedIsDashed(s);
    TrimsCommute(IsDash, CollapseRuns(s));
    TrimsCommute(IsDash, Dashed(s));
    var joined := Join(Words(s), "-");
    assert Dashed(s) == "-" + joined || Dashed(s) == joined;
    assert ("-" + joined)[1..] == joined;
  }

  predicate Dashes(s: string) {
    forall c :: c in s ==> c == '-'
  }

  lemma {:induction false} TrimLeftDropsDashes(s: string) returns (i: nat)
    ensures i <= |s| && Dashes(s[..i]) && TrimLeft(IsDash, s) == s[i..]
  {
    i := 0;
    if s != [] && IsDash(s[0]) {
      var k := TrimLeftDropsDashes(s[1..]);
      i := k + 1;
      assert s[..i] == [s[0]] + s[1..][..k] && s[i..] == s[1..][k..];
    }
  }

  lemma {:induction false} TrimRightDropsDashes(s: string) returns (j: nat)
    ensures j <= |s| && Dashes(s[j..]) && TrimRight(IsDash, s) == s[..j]
  {
    j := |s|;
    if s != [] && IsDash(Last(s)) {
      j := TrimRightDropsDashes(Front(s));
      assert s[j..] == Front(s)[j..] + [Last(s)] && s[..j] == Front(s)[..j];
    }
  }

  lemma SliceOfTail(s: string, i: nat, k: nat)
    requires i <= |s| && k <= |s[i..]|
    ensures s[i..][..k] == s[i..i + k] && s[i..][k..] == s[i + k..]
  {
  }

  lemma StripDropsDashes(s: string) returns (i: nat, j: nat)
    ensures i <= j <= |s| && Dashes(s[..i]) && Dashes(s[j..]) && Strip(IsDash, s) == s[i..j]
  {
    i := TrimLeftDropsDashes(s);
    var rest := TrimLeft(IsDash, s);
    var k := TrimRightDropsDashes(rest);
    SliceOfTail(s, i, k);
    j := i + k;
    assert Strip(IsDash, s) == rest[..k];
  }

  /** Only dashes are missing from the joined words, at both ends, and there all of them. */
  lemma DashesAreStripped(text: string)
    ensures var joined, slug := Join(Words(Kept(text)), "-"), Uncut(text);
            && (exists i, j :: 0 <= i <= j <= |joined| && Dashes(joined[..i]) && Dashes(joined[j..]) &&
                               slug == joined[i..j])
            && (slug != [] ==> slug[0] != '-' && Last(slug) != '-')
  {
    UncutJoinsWords(text);
    var i, j := StripDropsDashes(Join(Words(Kept(text)), "-"));
  }

  // ----- titles without dashes -----

  lemma {:induction false} WordsHoldNoOther(s: string, c: char)
    requires c !in s && c != '_'
    ensures forall word :: word in Words(s) ==> word != [] && c !in word
  {
    UnifiedHoldsNoOther(s, c);
    PiecesHoldNoOther(Unified(s), '_', c);
  }

  lemma {:induction false} UnifiedHoldsNoOther(s: string, c: char)
    requires c !in s && c != '_'
    ensures c !in Unified(s)
  {
    if s != [] {
      UnifiedHoldsNoOther(s[1..], c);
    }
  }

  lemma {:induction false} PiecesHoldNoOther(s: string, sep: char, c: char)
    requires c !in s
    ensures forall piece :: piece in Split(s, sep) ==> c !in piece
  {
    if s != [] {
      PiecesHoldNoOther(s[1..], sep, c);
    }
  }

  lemma {:induction false} JoinEnds(words: seq<string>, glue: string)
    requires words != [] && words[0] != [] && forall i :: 0 <= i < |words| ==> words[i] != []
    ensures Join(words, glue) != [] && Join(words, glue)[0] == words[0][0]
    ensures Last(Join(words, glue)) == Last(Last(words))
  {
    if |words| > 1 {
      JoinEnds(words[1..], glue);
      assert Last(words[1..]) == Last(words);
    }
  }

  /** Without dashes in the title, nothing is stripped: the slug base is exactly its words and the dashes between. */
  lemma UncutWithoutDashes(text: string)
    requires '-' !in Kept(text)
    ensures Uncut(text) == Join(Words(Kept(text)), "-")
  {
    UncutJoinsWords(text);
    var words := Words(Kept(text));
    if words != [] {
      WordsHoldNoOther(Kept(text), '-');
      JoinEnds(words, "-");
      assert words[0] in words && Last(words) in words;
      assert words[0][0] in words[0] && Last(Last(words)) in Last(words);
    }
  }

  predicate Alphanumeric(s: string) {
    forall c :: c in s ==> 'a' <= c <= 'z' || '0' <= c <= '9'
  }

  lemma {:induction false} UnifiedAppend(s: string, t: string)
    ensures Unified(s + t) == Unified(s) + Unified(t)
  {
    if s == [] {
      assert s + t == t;
    } else {
      assert (s + t)[1..] == s[1..] + t;
      UnifiedAppend(s[1..], t);
    }
  }

  lemma {:induction false} PlainTextIsKept(s: string)
    requires forall c :: c in s ==> 'a' <= c <= 'z' || '0' <= c <= '9' || IsSpace(c) || c == '_'
    ensures Kept(s) == s
  {
    NoCapitalsAreLowered(s);
    FilterKeepsAll(IsSlugInput, s);
  }

  lemma {:induction false} NoCapitalsAreLowered(s: string)
    requires forall c :: c in s ==> !('A' <= c <= 'Z') && c as int != 0x212A && c as int != 0x130
    ensures ToLower(s) == s
  {
    if s != [] {
      assert forall c :: c in s[1..] ==> c in s;
      NoCapitalsAreLowered(s[1..]);
      assert s[0] in s && s == [s[0]] + s[1..];
    }
  }

  lemma {:induction false} WordIsUnchanged(a: string)
    requires Alphanumeric(a)
    ensures Unified(a) == a
  {
    if a != [] {
      assert forall c :: c in a[1..] ==> c in a;
      WordIsUnchanged(a[1..]);
      assert a[0] in a;
    }
  }

  lemma {:induction false} WordsOfTwo(a: string, s: string, b: string)
    requires a != [] && Alphanumeric(a) && b != [] && Alphanumeric(b)
    requires s != [] && forall c :: c in s ==> IsSpace(c) || c == '_'
    ensures Words(a + s + b) == [a, b]
  {
    UnifiedAppend(a + s, b);
    UnifiedAppend(a, s);
    WordIsUnchanged(a);
    WordIsUnchanged(b);
    SeparatorsAreUnified(s);
    WordsAround(a, |s|, b);
  }

  lemma {:induction false} SeparatorsAreUnified(s: string)
    requires forall c :: c in s ==> IsSpace(c) || c == '_'
    ensures Unified(s) == seq(|s|, _ => '_')
  {
    if s != [] {
      SeparatorsAreUnified(s[1..]);
      assert s[0] in s;
    }
  }

  lemma {:induction false} WordsAround(a: string, n: nat, b: string)
    requires a != [] && b != [] && '_' !in a && '_' !in b && n >= 1
    ensures Filter(NonEmpty, Split(a + seq(n, _ => '_') + b, '_')) == [a, b]
  {
    var less := seq(n - 1, _ => '_');
    assert a + seq(n, _ => '_') + b == a + ['_'] + (less + b);
    SplitAppend(a, less + b, '_');
    SplitOfOnePiece(a, '_');
    FilterAppend(NonEmpty, [a], Split(less + b, '_'));
    OneWordBehind(n - 1, b);
  }

  lemma {:induction false} OneWordBehind(n: nat, b: string)
    requires b != [] && '_' !in b
    ensures Filter(NonEmpty, Split(seq(n, _ => '_') + b, '_')) == [b]
  {
    if n == 0 {
      assert seq(n, _ => '_') + b == b;
      SplitOfOnePiece(b, '_');
    } else {
      var rest := seq(n - 1, _ => '_') + b;
      assert seq(n, _ => '_') + b == ['_'] + rest;
      SplitCons('_', rest, '_');
      FilterCons(NonEmpty, [], Split(rest, '_'));
      OneWordBehind(n - 1, b);
    }
  }

  /** Whatever run of blanks and underscores stands between two words, the slug has one dash there. */
  lemma RunBecomesOneDash(a: string, s: string, b: string)
    requires a != [] && Alphanumeric(a) && b != [] && Alphanumeric(b)
    requires s != [] && forall c :: c in s ==> IsSpace(c) || c == '_'
    ensures Uncut(a + s + b) == a + "-" + b
  {
    PlainTextIsKept(a + s + b);
    WordsOfTwo(a, s, b);
    UncutWithoutDashes(a + s + b);
  }

  // ----- letters and other characters -----

  lemma {:induction false} ToLowerAppend(s: string, t: string)
    ensures ToLower(s + t) == ToLower(s) + ToLower(t)
  {
    if s == [] {
      assert s + t == t;
    } else {
      assert (s + t)[1..] == s[1..] + t;
      ToLowerAppend(s[1..], t);
      ConcatAssoc(LowerChar(s[0]), ToLower(s[1..]), ToLower(t));
    }
  }

  lemma KeptAppend(a: string, b: string)
    ensures Kept(a + b) == Kept(a) + Kept(b)
  {
    ToLowerAppend(a, b);
    FilterAppend(IsSlugInput, ToLower(a), ToLower(b));
  }

  lemma ToLowerOfOne(c: char)
    ensures ToLower([c]) == LowerChar(c)
  {
    assert ToLower([c]) == LowerChar(c) + ToLower([]);
  }

  lemma KeptOfOne(c: char)
    requires LowerChar(c) == [c]
    ensures Kept([c]) == if IsSlugInput(c) then [c] else []
  {
    ToLowerOfOne(c);
  }

  /** A capital letter counts as the small one. */
  lemma CapitalsCountAsSmall(a: string, c: char, b: string)
    requires 'A' <= c <= 'Z'
    ensures var small := (c as int - 'A' as int + 'a' as int) as char;
            Uncut(a + [c] + b) == Uncut(a + [small] + b)
  {
    var small := (c as int - 'A' as int + 'a' as int) as char;
    assert LowerChar(c) == [small] && LowerChar(small) == [small];
    ToLowerOfOne(c);
    ToLowerOfOne(small);
    KeptAppend(a + [c], b);
    KeptAppend(a, [c]);
    KeptAppend(a + [small], b);
    KeptAppend(a, [small]);
  }

  /** Punctuation and other letters leave no trace. */
  lemma OtherCharactersVanish(a: string, c: char, b: string)
    requires !IsSpace(c) && c != '_' && c != '-'
    requires !('0' <= c <= '9') && !('A' <= c <= 'Z') && !('a' <= c <= 'z')
    requires c as int != 0x212A && c as int != 0x130
    ensures Uncut(a + [c] + b) == Uncut(a + b)
  {
    KeptAppend(a + [c], b);
    KeptAppend(a, [c]);
    KeptAppend(a, b);
    KeptOfOne(c);
    assert Kept(a) + [] == Kept(a);
  }
}
