/** The address under which the gateway counts a request: the walk over X-Forwarded-For, right to left. */
module ClientAddress {
  import opened Basics
  import opened Text

  // Parsed addresses; how an address is written and read is a parameter of the functions below.
  type Address = nat

  // The white space of Unicode, which the trimming of the gateway removes.
  predicate IsUnicodeSpace(c: char) {
    (IsSpace(c) && c as int != 0xFEFF) || c as int == 0x85
  }

  function Entries(parse: string -> Option<Address>, header: string): (r: seq<Option<Address>>) {
    var pieces := Split(header, ',');
    seq(|pieces|, i requires 0 <= i < |pieces| => parse(Strip(IsUnicodeSpace, pieces[i])))
  }

  // A header value can be read as text when it consists of visible ASCII, spaces and tabs.
  predicate IsReadable(value: string) {
    forall c :: c in value ==> ' ' <= c <= '~' || c == '\t'
  }

  // The walk: the last entry decides unless it is trusted.
  function Walk(entries: seq<Option<Address>>, trusted: seq<Address>): Option<Address> {
    if entries == [] || Last(entries).None? then None
    else if Last(entries).value in trusted then Walk(Front(entries), trusted)
    else Last(entries)
  }

  function ClientOf(parse: string -> Option<Address>, trusted: seq<Address>, peer: Option<Address>,
                    header: Option<string>): Option<Address> {
    if peer.None? || peer.value !in trusted || header.None? || !IsReadable(header.value) then peer
    else
      var found := Walk(Entries(parse, header.value), trusted);
      if found.None? then peer else found
  }

  // None stands for the key "unknown".
  method ExtractClientIp(parse: string -> Option<Address>, trusted: seq<Address>, peer: Option<Address>,
                         header: Option<string>)
    returns (client: Option<Address>)
    ensures client == ClientOf(parse, trusted, peer, header)
  {
    if trusted == [] {
      return peer;
    }
    if peer.None? || peer.value !in trusted {
      return peer;
    }
    if header.Some? && IsReadable(header.value) {
      var entries := Entries(parse, header.value);
      var k := |entries|;
      assert entries[..k] == entries;
      while k > 0
        invariant 0 <= k <= |entries|
        invariant Walk(entries, trusted) == Walk(entries[..k], trusted)
      {
        k := k - 1;
        assert Front(entries[..k + 1]) == entries[..k];
        if entries[k].None? {
          break;
        }
        if entries[k].value !in trusted {
          return entries[k];
        }
      }
    }
    return peer;
  }

  // Every entry right of position k is a trusted address.
  predicate TrustedAfter(entries: seq<Option<Address>>, trusted: seq<Address>, k: int) {
    forall i :: k < i < |entries| && 0 <= i ==> entries[i].Some? && entries[i].value in trusted
  }

  // The position at which the walk stops: everything right of it is trusted, and itself it is not.
  ghost predicate StopsAt(entries: seq<Option<Address>>, trusted: seq<Address>, k: nat) {
    && k < |entries|
    && TrustedAfter(entries, trusted, k)
    && (entries[k].Some? ==> entries[k].value !in trusted)
  }

  lemma {:induction false} WalkYieldsStop(entries: seq<Option<Address>>, trusted: seq<Address>, k: nat)
    requires StopsAt(entries, trusted, k)
    ensures Walk(entries, trusted) == entries[k]
  {
    if k < |entries| - 1 {
      assert Front(entries)[k] == entries[k];
      WalkYieldsStop(Front(entries), trusted, k);
    }
  }

  lemma {:induction false} WalkStopsOrRunsOut(entries: seq<Option<Address>>, trusted: seq<Address>)
    ensures (exists k: nat :: StopsAt(entries, trusted, k)) || TrustedAfter(entries, trusted, -1)
    ensures TrustedAfter(entries, trusted, -1) ==> Walk(entries, trusted) == None
  {
    if entries != [] {
      var last := |entries| - 1;
      if entries[last].None? || entries[last].value !in trusted {
        assert StopsAt(entries, trusted, last);
      } else {
        WalkStopsOrRunsOut(Front(entries), trusted);
        if k: nat :| StopsAt(Front(entries), trusted, k) {
          assert Front(entries)[k] == entries[k];
          assert StopsAt(entries, trusted, k);
        }
      }
    }
  }

  /** The walk yields the entry at which it stops, and nothing when every entry is trusted. */
  lemma WalkStops(entries: seq<Option<Address>>, trusted: seq<Address>)
    ensures forall k: nat :: StopsAt(entries, trusted, k) ==> Walk(entries, trusted) == entries[k]
    ensures (exists k: nat :: StopsAt(entries, trusted, k)) || TrustedAfter(entries, trusted, -1)
    ensures TrustedAfter(entries, trusted, -1) ==> Walk(entries, trusted) == None
  {
    WalkStopsOrRunsOut(entries, trusted);
    forall k: nat | StopsAt(entries, trusted, k)
      ensures Walk(entries, trusted) == entries[k]
    {
      WalkYieldsStop(entries, trusted, k);
    }
  }

  /**
   The client is the peer, or the peer is trusted and the client is an untrusted entry of the header
   all of whose right-hand neighbours are trusted.
   */
  lemma ClientIsPeerOrForwarded(parse: string -> Option<Address>, trusted: seq<Address>, peer: Option<Address>,
                                header: Option<string>)
    ensures var client := ClientOf(parse, trusted, peer, header);
            client == peer ||
            (peer.Some? && peer.value in trusted && header.Some? && client.Some? && client.value !in trusted &&
             exists k: nat :: StopsAt(Entries(parse, header.value), trusted, k) &&
                         Entries(parse, header.value)[k] == client)
  {
    if header.Some? {
      WalkStops(Entries(parse, header.value), trusted);
    }
  }

  /** And the other way round: which header makes the walk leave the peer. */
  lemma ForwardedIff(parse: string -> Option<Address>, trusted: seq<Address>, peer: Address, header: string,
                     client: Address)
    requires client != peer
    ensures ClientOf(parse, trusted, Some(peer), Some(header)) == Some(client) <==>
            peer in trusted && (forall c :: c in header ==> ' ' <= c <= '~' || c == '\t') &&
            exists k: nat :: StopsAt(Entries(parse, header), trusted, k) &&
                                           Entries(parse, header)[k] == Some(client)
  {
    WalkStops(Entries(parse, header), trusted);
  }

  // Blanks and tabs.
  predicate IsPadding(s: string) {
    forall c :: c in s ==> c == ' ' || c == '\t'
  }

  lemma {:induction false} TrimLeftSkipsPadding(front: string, s: string)
    requires IsPadding(front)
    ensures TrimLeft(IsUnicodeSpace, front + s) == TrimLeft(IsUnicodeSpace, s)
  {
    if front == [] {
      assert front + s == s;
    } else {
      assert front[0] in front && (front + s)[1..] == front[1..] + s;
      assert forall c :: c in front[1..] ==> c in front;
      TrimLeftSkipsPadding(front[1..], s);
    }
  }

  lemma {:induction false} TrimRightSkipsPadding(s: string, back: string)
    requires IsPadding(back)
    ensures TrimRight(IsUnicodeSpace, s + back) == TrimRight(IsUnicodeSpace, s)
  {
    if back == [] {
      assert s + back == s;
    } else {
      assert Last(s + back) == Last(back) && Last(back) in back && Front(s + back) == s + Front(back);
      assert forall c :: c in Front(back) ==> c in back;
      TrimRightSkipsPadding(s, Front(back));
    }
  }

  /** An address counts the same with blanks and tabs around it. */
  lemma PaddedEntryIsRead(parse: string -> Option<Address>, front: string, text: string, back: string)
    requires IsPadding(front) && IsPadding(back) && ',' !in text
    requires text != [] && !IsUnicodeSpace(text[0]) && !IsUnicodeSpace(Last(text))
    ensures Entries(parse, front + text + back) == [parse(text)]
  {
    var entry := front + text + back;
    SplitOfOnePiece(entry, ',');
    ConcatAssoc(front, text, back);
    TrimLeftSkipsPadding(front, text + back);
    assert (text + back)[0] == text[0];
    TrimRightSkipsPadding(text, back);
    assert Strip(IsUnicodeSpace, entry) == text;
    assert Split(entry, ',')[0] == entry;
  }

  lemma EntriesAppend(parse: string -> Option<Address>, front: string, back: string)
    ensures Entries(parse, front + "," + back) == Entries(parse, front) + Entries(parse, back)
  {
    SplitAppend(front, back, ',');
  }

  lemma WalkIgnoresFront(front: seq<Option<Address>>, back: seq<Option<Address>>, trusted: seq<Address>, k: nat)
    requires StopsAt(back, trusted, k)
    ensures Walk(front + back, trusted) == Walk(back, trusted)
  {
    WalkStops(back, trusted);
    WalkStops(front + back, trusted);
    var both := front + back;
    forall i | |front| + k < i < |both|
      ensures both[i].Some? && both[i].value in trusted
    {
      assert both[i] == back[i - |front|];
    }
    assert StopsAt(both, trusted, |front| + k);
  }

  /**
   Text that a client puts in front of a header at which the walk stops does not change the outcome,
   except that text which is not visible ASCII makes the gateway fall back to the peer.
   */
  lemma PrependedTextIsIgnored(parse: string -> Option<Address>, trusted: seq<Address>, peer: Option<Address>,
                               front: string, back: string)
    requires !TrustedAfter(Entries(parse, back), trusted, -1)
    ensures var client := ClientOf(parse, trusted, peer, Some(back));
            ClientOf(parse, trusted, peer, Some(front + "," + back)) == client <==>
            IsReadable(front) || client == peer
  {
    var both := front + "," + back;
    assert forall c :: c in front || c in back ==> c in both;
    assert IsReadable(both) <==> IsReadable(front) && IsReadable(back);
    EntriesAppend(parse, front, back);
    WalkStops(Entries(parse, back), trusted);
    var k: nat :| StopsAt(Entries(parse, back), trusted, k);
    WalkIgnoresFront(Entries(parse, front), Entries(parse, back), trusted, k);
  }

  // An example of address parsing: only "c" is an address.
  function OnlyC(text: string): Option<Address> {
    if text == "c" then Some(1) else None
  }

  /** An unreadable text in front hides the client behind the peer. */
  lemma UnreadableTextHidesClient()
    ensures ClientOf(OnlyC, [0], Some(0), Some("c")) == Some(1)
    ensures ClientOf(OnlyC, [0], Some(0), Some([0xE9 as char] + "," + "c")) == Some(0)
  {
    assert IsPadding("") && "" + "c" + "" == "c";
    PaddedEntryIsRead(OnlyC, "", "c", "");
    assert Entries(OnlyC, "c") == [Some(1)];
    assert StopsAt([Some(1)], [0], 0);
    WalkStops([Some(1)], [0]);
    var front := [0xE9 as char];
    assert front[0] in front + "," + "c";
  }

  /** When every entry is trusted, the walk goes on into the prepended text. */
  lemma {:induction false} TrustedTailIsSkipped(parse: string -> Option<Address>, trusted: seq<Address>,
                                                peer: Option<Address>, front: string, back: string)
    requires IsReadable(back) && TrustedAfter(Entries(parse, back), trusted, -1)
    ensures ClientOf(parse, trusted, peer, Some(front + "," + back)) == ClientOf(parse, trusted, peer, Some(front))
  {
    var both := front + "," + back;
    assert forall c :: c in front ==> c in both;
    assert IsReadable(both) <==> IsReadable(front);
    EntriesAppend(parse, front, back);
    WalkSkipsTrusted(Entries(parse, front), Entries(parse, back), trusted);
  }

  lemma {:induction false} WalkSkipsTrusted(front: seq<Option<Address>>, back: seq<Option<Address>>,
                                            trusted: seq<Address>)
    requires TrustedAfter(back, trusted, -1)
    ensures Walk(front + back, trusted) == Walk(front, trusted)
  {
    if back == [] {
      assert front + back == front;
    } else {
      assert Last(front + back) == Last(back) && Front(front + back) == front + Front(back);
      WalkSkipsTrusted(front, Front(back), trusted);
    }
  }
}
