/** The name under which an uploaded file is stored: last path component, no control characters, 255 bytes. */
module Filenames {
  import opened Basics
  import opened Utf8

  predicate IsPathSeparator(c: char) {
    c == '/' || c == '\\'
  }

  // The general category Cc.
  predicate IsControl(c: char) {
    c as int < 0x20 || 0x7F <= c as int < 0xA0
  }

  predicate IsKept(c: char) {
    !IsControl(c)
  }

  function LastComponent(raw: string): (r: string)
    ensures |r| <= |raw| && r == raw[|raw| - |r|..]
    ensures forall c :: c in r ==> !IsPathSeparator(c)
    ensures |r| < |raw| ==> IsPathSeparator(raw[|raw| - |r| - 1])
  {
    if raw == [] || IsPathSeparator(Last(raw)) then []
    else
      var front := LastComponent(Front(raw));
      assert front + [Last(raw)] == raw[|raw| - |front| - 1..];
      front + [Last(raw)]
  }

  function Cleaned(raw: string): string {
    Filter(IsKept, LastComponent(raw))
  }

  const BYTE_LIMIT := 255

  // The number of characters that fit into `room` bytes, counted from the start.
  function Fitting(s: string, room: int): (n: nat)
    ensures n <= |s|
  {
    if s == [] || |EncodeChar(s[0])| > room then 0
    else 1 + Fitting(s[1..], room - |EncodeChar(s[0])|)
  }

  function Cut(s: string): string {
    s[..Fitting(s, BYTE_LIMIT)]
  }

  predicate AllDots(s: string) {
    forall c :: c in s ==> c == '.'
  }

  const FALLBACK := "upload"

  function Sanitize(raw: string): string {
    var cut := Cut(Cleaned(raw));
    if AllDots(cut) then FALLBACK else cut
  }

  // ----- the cut is the longest prefix that fits -----

  lemma {:induction false} ByteLengthOfPrefix(s: string, k: nat)
    requires k < |s|
    ensures |Encode(s[..k + 1])| == |Encode(s[..k])| + |EncodeChar(s[k])|
  {
    EncodeAppend(s[..k], [s[k]]);
    assert s[..k + 1] == s[..k] + [s[k]];
    assert [s[k]][1..] == "";
    assert Encode([s[k]]) == EncodeChar(s[k]) + [];
  }

  lemma {:induction false} PrefixBytesGrow(s: string, k: nat, m: nat)
    requires k <= m <= |s|
    ensures |Encode(s[..k])| + (m - k) <= |Encode(s[..m])|
    decreases m - k
  {
    if k < m {
      PrefixBytesGrow(s, k, m - 1);
      ByteLengthOfPrefix(s, m - 1);
    }
  }

  lemma {:induction false} FittingFits(s: string, room: nat)
    ensures |Encode(s[..Fitting(s, room)])| <= room
    ensures Fitting(s, room) < |s| ==> |Encode(s[..Fitting(s, room) + 1])| > room
  {
    if s != [] {
      var width, n := |EncodeChar(s[0])|, Fitting(s, room);
      if width <= room {
        FittingFits(s[1..], room - width);
        assert s[..n][1..] == s[1..][..n - 1];
        if n < |s| {
          assert s[..n + 1][1..] == s[1..][..n];
        }
      } else {
        ByteLengthOfPrefix(s, 0);
      }
    }
  }

  /** The cut keeps exactly those prefixes that take at most 255 bytes. */
  lemma CutIsLongestFit(s: string, k: nat)
    requires k <= |s|
    ensures Cut(s) <= s
    ensures |Encode(s[..k])| <= BYTE_LIMIT <==> k <= |Cut(s)|
  {
    var n := Fitting(s, BYTE_LIMIT);
    FittingFits(s, BYTE_LIMIT);
    if k <= n {
      PrefixBytesGrow(s, k, n);
    } else {
      PrefixBytesGrow(s, n + 1, k);
    }
  }

  // ----- the loop of the service -----

  lemma FittingStep(s: string, k: nat, room: nat)
    requires k < |s|
    ensures Fitting(s[k..], room) ==
            if |EncodeChar(s[k])| > room then 0 else 1 + Fitting(s[k + 1..], room - |EncodeChar(s[k])|)
  {
    assert s[k..][1..] == s[k + 1..];
  }

  method Truncate(clean: string) returns (truncated: string)
    ensures truncated == Cut(clean)
  {
    var byteLen, n := 0, 0;
    while n < |clean|
      invariant n <= |clean| && byteLen <= BYTE_LIMIT
      invariant Fitting(clean, BYTE_LIMIT) == n + Fitting(clean[n..], BYTE_LIMIT - byteLen)
    {
      FittingStep(clean, n, BYTE_LIMIT - byteLen);
      byteLen := byteLen + |EncodeChar(clean[n])|;
      if byteLen > BYTE_LIMIT {
        break;
      }
      n := n + 1;
    }
    truncated := clean[..n];
  }

  method SanitizeFilename(raw: string) returns (name: string)
    ensures name == Sanitize(raw)
  {
    var clean := Filter(IsKept, LastComponent(raw));
    var truncated := Truncate(clean);
    name := if AllDots(truncated) then FALLBACK else truncated;
  }

  // ----- what every stored name looks like -----

  predicate IsCleanName(name: string) {
    && name != []
    && !AllDots(name)
    && |Encode(name)| <= BYTE_LIMIT
    && forall c :: c in name ==> !IsPathSeparator(c) && !IsControl(c)
  }

  lemma FallbackIsClean()
    ensures IsCleanName(FALLBACK)
  {
    assert FALLBACK[0] in FALLBACK;
    CutIsLongestFit(FALLBACK, 0);
    FewCharactersFit(FALLBACK);
  }

  lemma {:induction false} FewCharactersFit(s: string)
    ensures |Encode(s)| <= 4 * |s|
  {
    if s != [] {
      FewCharactersFit(s[1..]);
    }
  }

  lemma SanitizedIsClean(raw: string)
    ensures IsCleanName(Sanitize(raw))
  {
    FallbackIsClean();
    var clean := Cleaned(raw);
    CutIsLongestFit(clean, |Cut(clean)|);
    assert forall c :: c in Cut(clean) ==> c in clean;
  }

  lemma {:induction false} NoSeparatorNoPath(name: string)
    requires forall c :: c in name ==> !IsPathSeparator(c)
    ensures LastComponent(name) == name
  {
    if name != [] {
      NoSeparatorNoPath(Front(name));
      assert Last(name) in name && Front(name) + [Last(name)] == name;
    }
  }

  lemma ShortIsNotCut(name: string)
    requires |Encode(name)| <= BYTE_LIMIT
    ensures Cut(name) == name
  {
    CutIsLongestFit(name, |name|);
    assert name[..|name|] == name;
  }

  lemma CleanIsKept(name: string)
    requires IsCleanName(name)
    ensures Sanitize(name) == name
  {
    NoSeparatorNoPath(name);
    FilterKeepsAll(IsKept, name);
    ShortIsNotCut(name);
  }

  /**
   A name is left alone exactly when it has a character that is no dot, takes at most 255 bytes, and holds
   neither a slash nor a backslash nor a control character.
   */
  lemma SanitizeFixpoints(name: string)
    ensures Sanitize(name) == name <==>
            && (exists c :: c in name && c != '.')
            && |Encode(name)| <= 255
            && (forall c :: c in name ==>
                  c != '/' && c != '\\' && 0x20 <= c as int && !(0x7F <= c as int <= 0x9F))
  {
    FixpointsAreClean(name);
  }

  lemma FixpointsAreClean(name: string)
    ensures Sanitize(name) == name <==> IsCleanName(name)
  {
    SanitizedIsClean(name);
    if IsCleanName(name) {
      CleanIsKept(name);
    }
  }

  /** Storing a stored name again changes nothing. */
  lemma SanitizeIdempotent(raw: string)
    ensures Sanitize(Sanitize(raw)) == Sanitize(raw)
  {
    SanitizedIsClean(raw);
    FixpointsAreClean(Sanitize(raw));
  }

  /** A text of which nothing but dots is kept is stored as "upload". */
  lemma FallsBackIff(raw: string)
    ensures (forall c :: c in Cut(Cleaned(raw)) ==> c == '.') ==> Sanitize(raw) == "upload"
    ensures (exists c :: c in Cut(Cleaned(raw)) && c != '.') ==> Sanitize(raw) == Cut(Cleaned(raw))
  {
  }

  /** Unless it falls back, the stored name is the longest prefix of the cleaned component within the limit. */
  lemma SanitizedIsLongestPrefix(raw: string, k: nat)
    requires k <= |Cleaned(raw)| && !AllDots(Cut(Cleaned(raw)))
    ensures Sanitize(raw) <= Cleaned(raw)
    ensures |Encode(Cleaned(raw)[..k])| <= BYTE_LIMIT <==> k <= |Sanitize(raw)|
  {
    CutIsLongestFit(Cleaned(raw), k);
  }

  /** A directory in front of a file name does not matter. */
  lemma {:induction false} DirectoryIsIgnored(directory: string, separator: char, name: string)
    requires IsPathSeparator(separator)
    ensures Sanitize(directory + [separator] + name) == Sanitize(name)
  {
    LastComponentOfPath(directory + [separator], name);
  }

  lemma {:induction false} LastComponentOfPath(directory: string, name: string)
    requires directory != [] && IsPathSeparator(Last(directory))
    ensures LastComponent(directory + name) == LastComponent(name)
  {
    if name == [] {
      assert directory + name == directory;
    } else {
      assert Front(directory + name) == directory + Front(name);
      assert Last(directory + name) == Last(name);
      LastComponentOfPath(directory, Front(name));
    }
  }
}
