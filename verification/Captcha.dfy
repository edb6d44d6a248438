/**
 The captcha challenges: a store that is pruned in the background, where every challenge can be
 answered once and only within its lifetime.
 */
module Captcha {
  import opened Basics
  import opened Text
  import opened Utf8

  const CHALLENGE_TTL_MS := 120000

  datatype Challenge = Challenge(answer: string, expiresAt: int)

  type Store = map<Id, Challenge>

  // ----- comparing answers -----

  function Zeros(n: nat): seq<Byte> {
    seq(n, _ => 0)
  }

  function PadTo(b: seq<Byte>, n: nat): seq<Byte>
    requires |b| <= n
  {
    b + Zeros(n - |b|)
  }

  // Both answers are padded with zero bytes to the same length before they are compared.
  predicate AnswerMatches(expected: string, answer: string) {
    var e, a := Encode(expected), Encode(ToLower(answer));
    var n := if |e| < |a| then |a| else |e|;
    PadTo(e, n) == PadTo(a, n)
  }

  function Nuls(n: nat): string {
    seq(n, _ => 0 as char)
  }

  lemma {:induction false} EncodeNuls(n: nat)
    ensures Encode(Nuls(n)) == Zeros(n)
  {
    if n > 0 {
      EncodeNuls(n - 1);
      assert Nuls(n)[1..] == Nuls(n - 1);
      assert Zeros(n) == [0] + Zeros(n - 1);
    }
  }

  lemma {:induction false} NoNulNoZero(s: string)
    requires 0 as char !in s
    ensures 0 !in Encode(s)
  {
    if s != [] {
      NoNulNoZero(s[1..]);
      assert s[0] in s;
      assert 0 !in EncodeChar(s[0]);
    }
  }

  lemma PaddedIsNoLonger(e: seq<Byte>, a: seq<Byte>)
    requires 0 !in e && |e| > |a|
    ensures PadTo(e, |e|) != PadTo(a, |e|)
  {
    assert PadTo(a, |e|)[|a|] == 0 && PadTo(e, |e|)[|a|] == e[|a|] && e[|a|] in e;
  }

  /**
   An answer counts exactly if its lower-cased text is the expected one, up to trailing NUL
   characters, which the padding cannot tell apart.
   */
  lemma AnswerMatchesIff(expected: string, answer: string)
    requires 0 as char !in expected
    ensures AnswerMatches(expected, answer) <==> exists k: nat :: ToLower(answer) == expected + Nuls(k)
  {
    var given := ToLower(answer);
    var e, a := Encode(expected), Encode(given);
    NoNulNoZero(expected);
    if AnswerMatches(expected, answer) {
      if |e| > |a| { PaddedIsNoLonger(e, a); }
      var k := |a| - |e|;
      assert a == PadTo(a, |a|) == e + Zeros(k);
      EncodeNuls(k);
      EncodeAppend(expected, Nuls(k));
      EncodeInjective(given, expected + Nuls(k));
    }
    if k: nat :| given == expected + Nuls(k) {
      EncodeAppend(expected, Nuls(k));
      EncodeNuls(k);
      assert PadTo(e, |a|) == a == PadTo(a, |a|);
    }
  }

  /** The right answer with a NUL behind it counts. */
  lemma RightAnswerWithNulCounts(expected: string)
    requires 0 as char !in expected && ToLower(expected) == expected
    ensures AnswerMatches(expected, expected + [0 as char])
  {
    ToLowerSnoc(expected, 0 as char);
    assert Nuls(1) == [0 as char];
    assert ToLower(expected + [0 as char]) == expected + Nuls(1);
    AnswerMatchesIff(expected, expected + [0 as char]);
  }

  lemma {:induction false} ToLowerSnoc(s: string, c: char)
    ensures ToLower(s + [c]) == ToLower(s) + LowerChar(c)
  {
    if s == [] {
      assert s + [c] == [c] && ToLower([c]) == LowerChar(c) + [];
    } else {
      ToLowerSnoc(s[1..], c);
      assert (s + [c])[1..] == s[1..] + [c];
      ConcatAssoc(LowerChar(s[0]), ToLower(s[1..]), LowerChar(c));
    }
  }

  lemma RightAnswerWithNulExample()
    ensures AnswerMatches("abc234", "abc234" + [0 as char])
  {
    assert ToLower("abc234") == "abc234" by { SlugTextIsUntouched("abc234"); }
    RightAnswerWithNulCounts("abc234");
  }

  // ----- the operations on the store -----

  function Generate(store: Store, id: Id, text: string, now: int): Store {
    store[id := Challenge(ToLower(text), now + CHALLENGE_TTL_MS)]
  }

  // The characters of a picture: letters and digits.
  predicate IsPictureText(text: string) {
    forall c :: c in text ==> IsWord(c)
  }

  lemma {:induction false} LowerTwice(text: string)
    requires IsPictureText(text)
    ensures ToLower(ToLower(text)) == ToLower(text) && 0 as char !in ToLower(text)
  {
    if text != [] {
      assert text[0] in text;
      LowerTwice(text[1..]);
      assert ToLower(text) == LowerChar(text[0]) + ToLower(text[1..]);
      assert |LowerChar(text[0])| == 1 && ToLower(text)[1..] == ToLower(text[1..]);
    }
  }

  /**
   From picture to verdict: within two minutes a new challenge is passed by exactly the answers that
   agree with the text of the picture up to case (and trailing NULs), and by none afterwards.
   */
  lemma ChallengeIsPassedIff(store: Store, id: Id, text: string, now: int, answer: string, at: int)
    requires IsPictureText(text)
    ensures Passes(Generate(store, id, text, now), id, answer, at) <==>
            at <= now + 120000 && exists k: nat :: ToLower(answer) == ToLower(text) + Nuls(k)
    ensures at <= now + 120000 ==>
            Passes(Generate(store, id, text, now), id, text, at) &&
            Passes(Generate(store, id, text, now), id, ToLower(text), at)
  {
    LowerTwice(text);
    AnswerMatchesIff(ToLower(text), answer);
    AnswerMatchesIff(ToLower(text), text);
    AnswerMatchesIff(ToLower(text), ToLower(text));
    assert ToLower(text) == ToLower(text) + Nuls(0);
  }

  predicate Passes(store: Store, id: Id, answer: string, now: int) {
    id in store && now <= store[id].expiresAt && AnswerMatches(store[id].answer, answer)
  }

  function Prune(store: Store, now: int): Store {
    map id | id in store && now <= store[id].expiresAt :: store[id]
  }

  // ----- pruning is unobservable -----

  datatype Call =
    | CallGenerate(id: Id, text: string, now: int)
    | CallVerify(id: Id, answer: string, now: int)
    | CallCleanup(now: int)

  // The verdicts of the verifications among the calls, with the cleanup at work or switched off.
  function Verdicts(store: Store, calls: seq<Call>, cleanup: bool): seq<bool>
    decreases |calls|
  {
    if calls == [] then []
    else match calls[0]
      case CallGenerate(id, text, now) => Verdicts(Generate(store, id, text, now), calls[1..], cleanup)
      case CallVerify(id, answer, now) =>
        [Passes(store, id, answer, now)] + Verdicts(store - {id}, calls[1..], cleanup)
      case CallCleanup(now) => Verdicts(if cleanup then Prune(store, now) else store, calls[1..], cleanup)
  }

  predicate InOrder(calls: seq<Call>, clock: int)
    decreases |calls|
  {
    calls != [] ==> clock <= calls[0].now && InOrder(calls[1..], calls[0].now)
  }

  // What is missing from the pruned store has expired.
  predicate PrunedOf(store: Store, full: Store, clock: int) {
    && (forall id :: id in store ==> id in full && store[id] == full[id])
    && (forall id :: id in full && id !in store ==> full[id].expiresAt < clock)
  }

  lemma {:induction false} PruningIsSimulated(store: Store, full: Store, calls: seq<Call>, clock: int)
    requires PrunedOf(store, full, clock) && InOrder(calls, clock)
    ensures Verdicts(store, calls, true) == Verdicts(full, calls, false)
    decreases |calls|
  {
    if calls != [] {
      var now := calls[0].now;
      match calls[0]
      case CallGenerate(id, text, _) =>
        PruningIsSimulated(Generate(store, id, text, now), Generate(full, id, text, now), calls[1..], now);
      case CallVerify(id, _, _) =>
        PruningIsSimulated(store - {id}, full - {id}, calls[1..], now);
      case CallCleanup(_) =>
        PruningIsSimulated(Prune(store, now), full, calls[1..], now);
    }
  }

  /**
   Over every sequence of calls with a nondecreasing clock and cleanups at arbitrary moments, the
   store answers exactly as a store that never prunes.
   */
  lemma PruningIsUnobservable(calls: seq<Call>, clock: int)
    requires InOrder(calls, clock)
    ensures Verdicts(map[], calls, true) == Verdicts(map[], calls, false)
  {
    PruningIsSimulated(map[], map[], calls, clock);
  }

  // ----- the service -----

  class ChallengeStore {
    var store: Store

    constructor ()
      ensures store == map[]
    {
      store := map[];
    }

    // id is a fresh UUID and text the random characters of the picture
    method GenerateChallenge(id: Id, text: string, now: int)
      modifies this
      ensures store == Generate(old(store), id, text, now)
      ensures forall answer, at :: Passes(store, id, answer, at) <==>
                at <= now + CHALLENGE_TTL_MS && AnswerMatches(ToLower(text), answer)
      ensures forall other, answer, at :: other != id ==>
                (Passes(store, other, answer, at) <==> Passes(old(store), other, answer, at))
    {
      store := store[id := Challenge(ToLower(text), now + CHALLENGE_TTL_MS)];
    }

    // True when a token is to be issued. The challenge is gone either way.
    method VerifyChallenge(id: Id, answer: string, now: int) returns (passed: bool)
      modifies this
      ensures store == old(store) - {id}
      ensures passed == Passes(old(store), id, answer, now)
    {
      if id !in store {
        return false;
      }
      var challenge := store[id];
      store := store - {id};
      if now > challenge.expiresAt {
        return false;
      }
      var expected, actual := Encode(challenge.answer), Encode(ToLower(answer));
      var maxLen := if |expected| < |actual| then |actual| else |expected|;
      passed := PadTo(expected, maxLen) == PadTo(actual, maxLen);
    }

    // One tick of the cleanup timer: the expired challenges are deleted one by one.
    method Cleanup(now: int)
      modifies this
      ensures store == Prune(old(store), now)
    {
      var toVisit := store.Keys;
      while toVisit != {}
        invariant toVisit <= store.Keys <= old(store).Keys
        invariant forall id :: id in store ==> store[id] == old(store)[id]
        invariant forall id :: id in old(store) && id !in toVisit ==>
                    (id in store <==> now <= old(store)[id].expiresAt)
        decreases toVisit
      {
        var id :| id in toVisit;
        toVisit := toVisit - {id};
        if now > store[id].expiresAt {
          store := store - {id};
        }
      }
    }
  }
}
