/**
 The single use of captcha tokens: the map of used token ids that the auth service and the gateway
 keep and prune, and the whole pipeline from challenge to accepted token.
 */
module CaptchaTokens {
  import opened Basics
  import opened Captcha

  const TOKEN_EXPIRY_SECONDS := 120
  const DEFAULT_RETENTION_SECONDS := 300

  // The payload of a token whose signature is right.
  datatype Claims = Claims(v: bool, jti: Option<string>, exp: Option<int>)

  // What the header of a request holds, after the signature check.
  datatype Presented = Nothing | Unsigned | Signed(claims: Claims)

  datatype TokenError = MissingToken | InvalidToken | AlreadyUsed

  type UsedMap = map<string, int>

  function PruneUsed(used: UsedMap, now: int): UsedMap {
    map jti | jti in used && used[jti] > now :: used[jti]
  }

  function RetainedUntil(c: Claims, now: int): int {
    if c.exp.Some? then c.exp.value else now + DEFAULT_RETENTION_SECONDS
  }

  // Prune, reject a known id, remember a new one: the part that both checks share.
  function UseJti(used: UsedMap, jti: string, retain: int, now: int): (UsedMap, Result<(), TokenError>) {
    var pruned := PruneUsed(used, now);
    if jti in pruned then (pruned, Err(AlreadyUsed)) else (pruned[jti := retain], Ok(()))
  }

  // JavaScript's test of the expiry claim: a zero counts as absent.
  predicate Expired(c: Claims, now: int) {
    c.exp.Some? && c.exp.value != 0 && c.exp.value < now
  }

  // The auth service's check. An empty token id counts as absent.
  function AuthCheck(used: UsedMap, configured: bool, token: Presented, now: int): (UsedMap, Result<(), TokenError>) {
    if !configured then (used, Ok(()))
    else match token
      case Nothing => (used, Err(MissingToken))
      case Unsigned => (used, Err(InvalidToken))
      case Signed(c) =>
        if !c.v || Expired(c, now) then (used, Err(InvalidToken))
        else if c.jti.Some? && c.jti.value != "" then UseJti(used, c.jti.value, RetainedUntil(c, now), now)
        else (used, Ok(()))
  }

  // The gateway's check; valid stands for the verdict of the token library on signature and expiry.
  function GatewayCheck(used: UsedMap, token: Presented, valid: bool, now: int): (UsedMap, Result<(), TokenError>) {
    match token
    case Nothing => (used, Err(MissingToken))
    case Unsigned => (used, Err(InvalidToken))
    case Signed(c) =>
      if !valid || !c.v then (used, Err(InvalidToken))
      else if c.jti.Some? then UseJti(used, c.jti.value, RetainedUntil(c, now), now)
      else (used, Ok(()))
  }

  // ----- the pruned map against everything ever accepted -----

  datatype Use = Use(jti: string, retain: int)

  // One attempt to use a token id, and the ever-growing record of those that succeeded.
  function Record(used: UsedMap, past: seq<Use>, jti: string, retain: int, now: int): seq<Use> {
    if UseJti(used, jti, retain, now).1.Ok? then past + [Use(jti, retain)] else past
  }

  predicate Blocked(past: seq<Use>, jti: string, now: int) {
    exists i :: 0 <= i < |past| && past[i].jti == jti && past[i].retain > now
  }

  // From the clock on, the map knows a token id exactly as the full record does.
  ghost predicate Faithful(used: UsedMap, past: seq<Use>, clock: int) {
    forall jti, now :: clock <= now ==> (jti in used && used[jti] > now <==> Blocked(past, jti, now))
  }

  lemma BlockedSnoc(past: seq<Use>, u: Use, jti: string, now: int)
    ensures Blocked(past + [u], jti, now) <==> Blocked(past, jti, now) || (u.jti == jti && u.retain > now)
  {
    var more := past + [u];
    if Blocked(past, jti, now) {
      var i :| 0 <= i < |past| && past[i].jti == jti && past[i].retain > now;
      assert more[i] == past[i];
    }
    if u.jti == jti && u.retain > now {
      assert more[|past|] == u;
    }
  }

  lemma BlockedShrinks(past: seq<Use>, jti: string, early: int, late: int)
    requires early <= late && Blocked(past, jti, late)
    ensures Blocked(past, jti, early)
  {
  }

  lemma UseKeepsFaithful(used: UsedMap, past: seq<Use>, clock: int, jti: string, retain: int, now: int)
    requires Faithful(used, past, clock) && clock <= now
    ensures Faithful(UseJti(used, jti, retain, now).0, Record(used, past, jti, retain, now), now)
    ensures UseJti(used, jti, retain, now).1.Ok? <==> !Blocked(past, jti, now)
  {
    var after, more := UseJti(used, jti, retain, now).0, Record(used, past, jti, retain, now);
    assert jti in used && used[jti] > now <==> Blocked(past, jti, now);
    forall j, t | now <= t
      ensures j in after && after[j] > t <==> Blocked(more, j, t)
    {
      assert j in used && used[j] > t <==> Blocked(past, j, t);
      BlockedSnoc(past, Use(jti, retain), j, t);
      if !Blocked(past, jti, now) && j == jti && Blocked(past, j, t) {
        BlockedShrinks(past, j, now, t);
      }
    }
  }

  datatype Attempt = Attempt(jti: string, retain: int, now: int)

  predicate AttemptsInOrder(attempts: seq<Attempt>, clock: int)
    decreases |attempts|
  {
    attempts != [] ==> clock <= attempts[0].now && AttemptsInOrder(attempts[1..], attempts[0].now)
  }

  function PrunedVerdicts(used: UsedMap, attempts: seq<Attempt>): seq<bool>
    decreases |attempts|
  {
    if attempts == [] then []
    else
      var (after, r) := UseJti(used, attempts[0].jti, attempts[0].retain, attempts[0].now);
      [r.Ok?] + PrunedVerdicts(after, attempts[1..])
  }

  // The verdicts of a service that keeps every use, each to be held against an id until its own retention ends.
  function FullVerdicts(past: seq<Use>, attempts: seq<Attempt>): seq<bool>
    decreases |attempts|
  {
    if attempts == [] then []
    else
      var a := attempts[0];
      var free := !Blocked(past, a.jti, a.now);
      [free] + FullVerdicts(if free then past + [Use(a.jti, a.retain)] else past, attempts[1..])
  }

  // The verdicts of a service that remembers every accepted id forever.
  function SetVerdicts(accepted: set<string>, attempts: seq<Attempt>): seq<bool>
    decreases |attempts|
  {
    if attempts == [] then []
    else [attempts[0].jti !in accepted] + SetVerdicts(accepted + {attempts[0].jti}, attempts[1..])
  }

  /**
   Over every sequence of attempts with a nondecreasing clock, whatever their retentions, the pruned map
   answers exactly as the record: an id is refused if and only if an earlier use is retained beyond now.
   */
  lemma {:induction false} PrunedMapAnswersAsRecord(used: UsedMap, past: seq<Use>, attempts: seq<Attempt>, clock: int)
    requires Faithful(used, past, clock) && AttemptsInOrder(attempts, clock)
    ensures PrunedVerdicts(used, attempts) == FullVerdicts(past, attempts)
    decreases |attempts|
  {
    if attempts != [] {
      var a := attempts[0];
      UseKeepsFaithful(used, past, clock, a.jti, a.retain, a.now);
      PrunedMapAnswersAsRecord(UseJti(used, a.jti, a.retain, a.now).0, Record(used, past, a.jti, a.retain, a.now),
                               attempts[1..], a.now);
    }
  }

  // Every attempt carries the expiry of its id and is made before it.
  predicate BeforeExpiry(attempts: seq<Attempt>, expiry: string -> int) {
    forall a :: a in attempts ==> a.retain == expiry(a.jti) && a.now < a.retain
  }

  lemma {:induction false} RecordAnswersAsSet(past: seq<Use>, accepted: set<string>, attempts: seq<Attempt>,
                                              expiry: string -> int)
    requires BeforeExpiry(attempts, expiry)
    requires forall u :: u in past ==> u.retain == expiry(u.jti)
    requires forall jti :: jti in accepted <==> exists i :: 0 <= i < |past| && past[i].jti == jti
    ensures FullVerdicts(past, attempts) == SetVerdicts(accepted, attempts)
    decreases |attempts|
  {
    if attempts != [] {
      var a := attempts[0];
      assert a in attempts;
      var u := Use(a.jti, a.retain);
      if a.jti in accepted {
        var i :| 0 <= i < |past| && past[i].jti == a.jti;
        assert past[i] in past;
        assert Blocked(past, a.jti, a.now);
        assert accepted + {a.jti} == accepted;
        RecordAnswersAsSet(past, accepted, attempts[1..], expiry);
      } else {
        var more := past + [u];
        forall jti
          ensures jti in accepted + {a.jti} <==> exists i :: 0 <= i < |more| && more[i].jti == jti
        {
          if jti in accepted {
            var i :| 0 <= i < |past| && past[i].jti == jti;
            assert more[i] == past[i];
          }
          assert more[|past|] == u;
        }
        RecordAnswersAsSet(more, accepted + {a.jti}, attempts[1..], expiry);
      }
    }
  }

  /**
   Pruning is unobservable before expiry: over every sequence of attempts with a nondecreasing clock, each
   made before the expiry of its id, the pruned map answers exactly as the ever-growing set of accepted ids.
   */
  lemma UsedPruningIsUnobservable(attempts: seq<Attempt>, expiry: string -> int, clock: int)
    requires AttemptsInOrder(attempts, clock) && BeforeExpiry(attempts, expiry)
    ensures PrunedVerdicts(map[], attempts) == SetVerdicts({}, attempts)
  {
    PrunedMapAnswersAsRecord(map[], [], attempts, clock);
    RecordAnswersAsSet([], {}, attempts, expiry);
  }

  // ----- the verdicts of the two checks -----

  lemma FaithfulLater(used: UsedMap, past: seq<Use>, clock: int, now: int)
    requires Faithful(used, past, clock) && clock <= now
    ensures Faithful(used, past, now)
  {
  }

  // The token names an id under which no use is retained beyond now.
  predicate IsUnused(past: seq<Use>, jti: Option<string>, now: int) {
    jti.Some? ==> forall u :: u in past && u.jti == jti.value ==> u.retain <= now
  }

  lemma UnusedIffNotBlocked(past: seq<Use>, jti: string, now: int)
    ensures IsUnused(past, Some(jti), now) <==> !Blocked(past, jti, now)
  {
    if u :| u in past && u.jti == jti && u.retain > now {
      var i :| 0 <= i < |past| && past[i] == u;
    }
  }

  /**
   The verdict of the auth service, given everything it ever accepted: with the check switched on, exactly
   the signed tokens pass that are marked as verified, not expired, and unused or without an id.
   */
  lemma AuthAcceptsIff(used: UsedMap, past: seq<Use>, clock: int, configured: bool, token: Presented, now: int)
    requires Faithful(used, past, clock) && clock <= now
    ensures var r := AuthCheck(used, configured, token, now).1;
            && (r == Ok(()) <==>
                  !configured ||
                  (token.Signed? && token.claims.v
                   && (token.claims.exp.Some? && token.claims.exp.value != 0 ==> now <= token.claims.exp.value)
                   && (token.claims.jti == Some("") || IsUnused(past, token.claims.jti, now))))
            && (r == Err(MissingToken) <==> configured && token.Nothing?)
            && (r == Err(AlreadyUsed) ==> token.Signed? && token.claims.jti.Some? &&
                                          Blocked(past, token.claims.jti.value, now))
  {
    if token.Signed? && token.claims.jti.Some? {
      var jti := token.claims.jti.value;
      UseKeepsFaithful(used, past, clock, jti, RetainedUntil(token.claims, now), now);
      UnusedIffNotBlocked(past, jti, now);
    }
  }

  /** What it remembers: the id of an accepted token until its expiry, or for 300 seconds if it has none. */
  lemma AuthRemembers(used: UsedMap, past: seq<Use>, clock: int, c: Claims, now: int)
    requires Faithful(used, past, clock) && clock <= now
    ensures var (after, r) := AuthCheck(used, true, Signed(c), now);
            Faithful(after,
                     if r.Ok? && c.jti.Some? && c.jti.value != ""
                     then past + [Use(c.jti.value, if c.exp.Some? then c.exp.value else now + 300)] else past,
                     now)
  {
    FaithfulLater(used, past, clock, now);
    if c.jti.Some? {
      UseKeepsFaithful(used, past, clock, c.jti.value, RetainedUntil(c, now), now);
    }
  }

  /** The gateway: valid is its library's verdict on signature and expiry; an empty id counts as an id. */
  lemma GatewayAcceptsIff(used: UsedMap, past: seq<Use>, clock: int, token: Presented, valid: bool, now: int)
    requires Faithful(used, past, clock) && clock <= now
    ensures var (after, r) := GatewayCheck(used, token, valid, now);
            && (r == Ok(()) <==>
                  token.Signed? && valid && token.claims.v && IsUnused(past, token.claims.jti, now))
            && (r == Err(MissingToken) <==> token.Nothing?)
            && (r == Err(AlreadyUsed) ==> token.Signed? && token.claims.jti.Some? &&
                                          Blocked(past, token.claims.jti.value, now))
            && Faithful(after,
                        if r.Ok? && token.claims.jti.Some?
                        then past + [Use(token.claims.jti.value,
                                         if token.claims.exp.Some? then token.claims.exp.value else now + 300)]
                        else past,
                        now)
  {
    FaithfulLater(used, past, clock, now);
    if token.Signed? && token.claims.jti.Some? {
      var jti := token.claims.jti.value;
      UseKeepsFaithful(used, past, clock, jti, RetainedUntil(token.claims, now), now);
      UnusedIffNotBlocked(past, jti, now);
    }
  }

  /**
   The exact extent of single use at the auth service: a token that was accepted before is accepted
   again only in the very second in which it expires.
   */
  lemma SecondUseOnlyAtExpiry(used: UsedMap, past: seq<Use>, clock: int, c: Claims, now: int)
    requires Faithful(used, past, clock) && clock <= now
    requires c.v && c.jti.Some? && c.jti.value != "" && c.exp.Some? && c.exp.value != 0
    requires exists i :: 0 <= i < |past| && past[i] == Use(c.jti.value, c.exp.value)
    requires forall i :: 0 <= i < |past| && past[i].jti == c.jti.value ==> past[i].retain == c.exp.value
    ensures AuthCheck(used, true, Signed(c), now).1.Ok? <==> now == c.exp.value
  {
    UseKeepsFaithful(used, past, clock, c.jti.value, c.exp.value, now);
  }

  /**
   The gateway leaves the expiry to its token library: as long as that calls the token valid, a token
   that was accepted before is accepted again exactly from the second of its expiry on.
   */
  lemma GatewayAcceptsAgainFromExpiry(used: UsedMap, past: seq<Use>, clock: int, c: Claims, now: int)
    requires Faithful(used, past, clock) && clock <= now
    requires c.v && c.jti.Some? && c.exp.Some?
    requires exists i :: 0 <= i < |past| && past[i] == Use(c.jti.value, c.exp.value)
    requires forall i :: 0 <= i < |past| && past[i].jti == c.jti.value ==> past[i].retain == c.exp.value
    ensures GatewayCheck(used, Signed(c), true, now).1.Ok? <==> now >= c.exp.value
  {
    UseKeepsFaithful(used, past, clock, c.jti.value, c.exp.value, now);
  }

  /**
   With a library that calls a token valid up to some leeway behind its expiry, the window in which the
   gateway accepts a used token again is exactly from the expiry to the end of the leeway.
   */
  lemma GatewayWindow(used: UsedMap, past: seq<Use>, clock: int, c: Claims, now: int, leeway: nat)
    requires Faithful(used, past, clock) && clock <= now
    requires c.v && c.jti.Some? && c.exp.Some?
    requires exists i :: 0 <= i < |past| && past[i] == Use(c.jti.value, c.exp.value)
    requires forall i :: 0 <= i < |past| && past[i].jti == c.jti.value ==> past[i].retain == c.exp.value
    ensures GatewayCheck(used, Signed(c), now <= c.exp.value + leeway, now).1.Ok? <==>
            c.exp.value <= now <= c.exp.value + leeway
  {
    GatewayAcceptsAgainFromExpiry(used, past, clock, c, now);
  }

  /** The boundary is real: at the second of expiry the auth service accepts the same token twice. */
  lemma TokenAcceptedTwiceAtExpiry()
    ensures var c := Claims(true, Some("j"), Some(100));
            var (used1, r1) := AuthCheck(map[], true, Signed(c), 100);
            r1.Ok? && AuthCheck(used1, true, Signed(c), 100).1.Ok?
  {
  }

  lemma TokenAcceptedAgainAtGateway()
    ensures var c := Claims(true, Some("j"), Some(100));
            var (used1, r1) := GatewayCheck(map[], Signed(c), true, 90);
            r1.Ok? && GatewayCheck(used1, Signed(c), true, 100).1.Ok?
  {
  }

  // ----- the two services -----

  class UsedTokens {
    var used: UsedMap

    constructor ()
      ensures used == map[]
    {
      used := map[];
    }

    // The loop of the auth service over the entries of its map.
    method PruneExpired(now: int)
      modifies this
      ensures used == PruneUsed(old(used), now)
    {
      var toVisit := used.Keys;
      while toVisit != {}
        invariant toVisit <= used.Keys <= old(used).Keys
        invariant forall jti :: jti in used ==> used[jti] == old(used)[jti]
        invariant forall jti :: jti in old(used) && jti !in toVisit ==> (jti in used <==> old(used)[jti] > now)
        decreases toVisit
      {
        var key :| key in toVisit;
        toVisit := toVisit - {key};
        if used[key] <= now {
          used := used - {key};
        }
      }
    }

    method VerifyAtAuth(configured: bool, token: Presented, now: int) returns (r: Result<(), TokenError>)
      modifies this
      ensures (used, r) == AuthCheck(old(used), configured, token, now)
    {
      if !configured { return Ok(()); }
      if token.Nothing? { return Err(MissingToken); }
      if token.Unsigned? || !token.claims.v { return Err(InvalidToken); }
      var c := token.claims;
      if c.exp.Some? && c.exp.value != 0 && c.exp.value < now {
        return Err(InvalidToken);
      }
      if c.jti.Some? && c.jti.value != "" {
        PruneExpired(now);
        if c.jti.value in used { return Err(AlreadyUsed); }
        var retain := if c.exp.Some? then c.exp.value else now + DEFAULT_RETENTION_SECONDS;
        used := used[c.jti.value := retain];
      }
      return Ok(());
    }

    method VerifyAtGateway(token: Presented, valid: bool, now: int) returns (r: Result<(), TokenError>)
      modifies this
      ensures (used, r) == GatewayCheck(old(used), token, valid, now)
    {
      if token.Nothing? { return Err(MissingToken); }
      if token.Unsigned? || !valid || !token.claims.v { return Err(InvalidToken); }
      var c := token.claims;
      if c.jti.Some? {
        var exp := if c.exp.Some? then c.exp.value else now + DEFAULT_RETENTION_SECONDS;
        used := map jti | jti in used && used[jti] > now :: used[jti];
        if c.jti.value in used { return Err(AlreadyUsed); }
        used := used[c.jti.value := exp];
      }
      return Ok(());
    }
  }
}
