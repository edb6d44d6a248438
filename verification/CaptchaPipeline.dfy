/**
 The second half of the captcha pipeline over a whole run: in each life of the auth service, uses before
 expiry map one-to-one to issued tokens.
 */
module CaptchaPipeline {
  import opened Basics
  import opened Captcha
  import opened CaptchaIssues
  import opened CaptchaTokens

  // ----- from tokens to uses -----

  predicate UsesAreIssued(past: seq<Use>, issued: seq<Issue>) {
    forall u :: u in past ==> exists k :: 0 <= k < |issued| && u == Use(issued[k].jti, issued[k].exp)
  }

  predicate AcceptedAreUses(accepted: seq<Accepted>, past: seq<Use>) {
    forall a :: a in accepted ==> exists u :: u in past && u.jti == a.jti
  }

  // An acceptance before the expiry is the first one of its token.
  predicate EarlyIsFirst(accepted: seq<Accepted>) {
    forall i, j :: 0 <= i < j < |accepted| && accepted[j].early ==> accepted[i].jti != accepted[j].jti
  }

  ghost predicate UseInv(w: World) {
    && Faithful(w.used, w.past, Seconds(w.clock))
    && UsesAreIssued(w.past, w.issued) && AcceptedAreUses(w.accepted, w.past) && EarlyIsFirst(w.accepted)
    && (forall life :: life in w.lives ==> GoodLife(life, w.issued))
  }

  // What holds of the successful checks in one life of the auth service.
  ghost predicate GoodLife(life: seq<Accepted>, issued: seq<Issue>) {
    EarlyIsFirst(life) && forall a :: a in life ==> exists k :: IssuedAs(issued, a.jti, k)
  }

  predicate IssuedAs(issued: seq<Issue>, jti: string, k: nat) {
    k < |issued| && issued[k].jti == jti
  }

  lemma LifeIsGood(w: World)
    requires UseInv(w)
    ensures GoodLife(w.accepted, w.issued)
  {
    forall a | a in w.accepted
      ensures exists k :: IssuedAs(w.issued, a.jti, k)
    {
      var u :| u in w.past && u.jti == a.jti;
      var k :| 0 <= k < |w.issued| && u == Use(w.issued[k].jti, w.issued[k].exp);
      assert IssuedAs(w.issued, a.jti, k);
    }
  }

  lemma GoodLifeStays(life: seq<Accepted>, issued: seq<Issue>, more: seq<Issue>)
    requires GoodLife(life, issued) && issued <= more
    ensures GoodLife(life, more)
  {
    forall a | a in life
      ensures exists k :: IssuedAs(more, a.jti, k)
    {
      var k :| IssuedAs(issued, a.jti, k);
      assert IssuedAs(more, a.jti, k);
    }
  }

  lemma UsesGrow(past: seq<Use>, issued: seq<Issue>, k: nat)
    requires UsesAreIssued(past, issued) && k < |issued|
    ensures UsesAreIssued(past + [Use(issued[k].jti, issued[k].exp)], issued)
  {
    assert Use(issued[k].jti, issued[k].exp) == Use(issued[k].jti, issued[k].exp);
  }

  lemma AcceptedGrow(accepted: seq<Accepted>, past: seq<Use>, a: Accepted, u: Use)
    requires AcceptedAreUses(accepted, past) && u.jti == a.jti
    ensures AcceptedAreUses(accepted + [a], past + [u])
  {
    var more := past + [u];
    forall b | b in accepted + [a]
      ensures exists v :: v in more && v.jti == b.jti
    {
      if b in accepted {
        var v :| v in past && v.jti == b.jti;
        assert v in more;
      } else {
        assert more[|past|] == u && u in more;
      }
    }
  }

  lemma EarlyGrow(accepted: seq<Accepted>, a: Accepted)
    requires EarlyIsFirst(accepted) && (a.early ==> forall b :: b in accepted ==> b.jti != a.jti)
    ensures EarlyIsFirst(accepted + [a])
  {
    var more := accepted + [a];
    forall i, j | 0 <= i < j < |more| && more[j].early
      ensures more[i].jti != more[j].jti
    {
      assert more[i] in accepted;
    }
  }

  lemma RecordsGrow(past: seq<Use>, issued: seq<Issue>, accepted: seq<Accepted>, k: nat, early: bool)
    requires UsesAreIssued(past, issued) && AcceptedAreUses(accepted, past) && EarlyIsFirst(accepted)
    requires k < |issued| && (early ==> forall b :: b in accepted ==> b.jti != issued[k].jti)
    ensures var u, a := Use(issued[k].jti, issued[k].exp), Accepted(issued[k].jti, early);
            UsesAreIssued(past + [u], issued) && AcceptedAreUses(accepted + [a], past + [u]) && EarlyIsFirst(accepted + [a])
  {
    var u, a := Use(issued[k].jti, issued[k].exp), Accepted(issued[k].jti, early);
    UsesGrow(past, issued, k);
    AcceptedGrow(accepted, past, a, u);
    EarlyGrow(accepted, a);
  }

  lemma TimePasses(used: UsedMap, past: seq<Use>, early: int, late: int)
    requires Faithful(used, past, early) && early <= late
    ensures Faithful(used, past, late)
  {
  }

  lemma SameJtiSameExp(w: World, c: Claims, u: Use)
    requires IssueInv(w) && IsIssued(w, c) && c.jti == Some(u.jti)
    requires exists k :: 0 <= k < |w.issued| && u == Use(w.issued[k].jti, w.issued[k].exp)
    ensures c.exp == Some(u.retain)
  {
    var j :| 0 <= j < |w.issued| && ClaimsOf(w.issued[j]) == c;
    var k :| 0 <= k < |w.issued| && u == Use(w.issued[k].jti, w.issued[k].exp);
    assert j == k;
  }

  lemma CheckKeepsFaithful(w: World, c: Claims, now: int)
    requires IssueInv(w) && UseInv(w) && IsIssued(w, c) && w.clock <= now
    ensures Faithful(Check(w, c, now).used, Check(w, c, now).past, Seconds(now))
  {
    var k :| 0 <= k < |w.issued| && ClaimsOf(w.issued[k]) == c;
    assert GoodIssue(w, w.issued[k]);
    if Expired(c, Seconds(now)) {
      TimePasses(w.used, w.past, Seconds(w.clock), Seconds(now));
    } else {
      UseKeepsFaithful(w.used, w.past, Seconds(w.clock), c.jti.value, c.exp.value, Seconds(now));
    }
  }

  // What a check adds to the records: nothing, or one use and one acceptance of a token not blocked.
  lemma CheckAdds(w: World, c: Claims, now: int)
    requires IssueInv(w) && UseInv(w) && IsIssued(w, c) && w.clock <= now
    ensures var v := Check(w, c, now);
            || (v.past == w.past && v.accepted == w.accepted)
            || (&& c.jti.Some? && c.exp.Some? && !Blocked(w.past, c.jti.value, Seconds(now))
                && v.past == w.past + [Use(c.jti.value, c.exp.value)]
                && v.accepted == w.accepted + [Accepted(c.jti.value, Seconds(now) < c.exp.value)])
  {
    var k :| 0 <= k < |w.issued| && ClaimsOf(w.issued[k]) == c;
    assert GoodIssue(w, w.issued[k]);
    UseKeepsFaithful(w.used, w.past, Seconds(w.clock), c.jti.value, c.exp.value, Seconds(now));
  }

  lemma CheckKeepsUses(w: World, op: Op)
    requires IssueInv(w) && UseInv(w) && op.OpCheck? && Allowed(w, op)
    ensures UseInv(Step(w, op))
  {
    var c, v := op.claims, Check(w, op.claims, op.now);
    CheckKeepsFaithful(w, c, op.now);
    CheckAdds(w, c, op.now);
    if v.accepted != w.accepted {
      var k :| 0 <= k < |w.issued| && ClaimsOf(w.issued[k]) == c;
      EarlyUseIsFirst(w, c, Seconds(op.now));
      RecordsGrow(w.past, w.issued, w.accepted, k, Seconds(op.now) < c.exp.value);
    }
  }

  // A check that succeeds before expiry is the first successful one with its token.
  lemma EarlyUseIsFirst(w: World, c: Claims, now: int)
    requires IssueInv(w) && UseInv(w) && IsIssued(w, c) && c.jti.Some? && c.exp.Some?
    ensures now < c.exp.value && !Blocked(w.past, c.jti.value, now) ==>
              forall a :: a in w.accepted ==> a.jti != c.jti.value
  {
    forall a | a in w.accepted && a.jti == c.jti.value && now < c.exp.value
      ensures Blocked(w.past, c.jti.value, now)
    {
      var u :| u in w.past && u.jti == a.jti;
      SameJtiSameExp(w, c, u);
      var i :| 0 <= i < |w.past| && w.past[i] == u;
    }
  }

  lemma OtherStepKeepsUses(w: World, op: Op)
    requires IssueInv(w) && UseInv(w) && !op.OpCheck?
    ensures UseInv(Step(w, op))
  {
    var v := Step(w, op);
    if v == w {
    } else if op.OpAuthRestart? {
      LifeIsGood(w);
    } else {
      TimePasses(w.used, w.past, Seconds(w.clock), Seconds(v.clock));
      forall life | life in w.lives
        ensures GoodLife(life, v.issued)
      {
        GoodLifeStays(life, w.issued, v.issued);
      }
      forall u | u in v.past
        ensures exists k :: 0 <= k < |v.issued| && u == Use(v.issued[k].jti, v.issued[k].exp)
      {
        var k :| 0 <= k < |w.issued| && u == Use(w.issued[k].jti, w.issued[k].exp);
        assert v.issued[k] == w.issued[k];
      }
    }
  }

  lemma {:induction false} RunKeepsInv(w: World, ops: seq<Op>)
    requires IssueInv(w) && UseInv(w)
    ensures IssueInv(Run(w, ops)) && UseInv(Run(w, ops))
    decreases |ops|
  {
    if ops != [] {
      var op := ops[0];
      StepKeepsIssues(w, op);
      if op.OpCheck? && Allowed(w, op) {
        CheckKeepsUses(w, op);
      } else if !op.OpCheck? {
        OtherStepKeepsUses(w, op);
      }
      RunKeepsInv(Step(w, op), ops[1..]);
    }
  }

  /**
   The whole run, restarts included: every token was issued for the first try at its challenge, a right
   answer within the lifetime; no two tokens stem from the same challenge; and in each life of the auth
   service every successful check is of an issued token, and one made before expiry is the first of its
   token.
   */
  lemma UsesMapToAnsweredChallenges(ops: seq<Op>)
    ensures var w := Run(EMPTY_WORLD, ops);
            && (forall k :: 0 <= k < |w.issued| ==> GoodIssue(w, w.issued[k]))
            && (forall j, k :: 0 <= j < k < |w.issued| ==>
                  w.issued[j].jti != w.issued[k].jti &&
                  w.tries[w.issued[j].try].challenge != w.tries[w.issued[k].try].challenge)
            && (forall life :: life in w.lives + [w.accepted] ==> GoodLife(life, w.issued))
  {
    RunKeepsInv(EMPTY_WORLD, ops);
    var w := Run(EMPTY_WORLD, ops);
    LifeIsGood(w);
    forall j, k | 0 <= j < k < |w.issued|
      ensures w.tries[w.issued[j].try].challenge != w.tries[w.issued[k].try].challenge
    {
      DifferentChallenges(w, w.issued[j], w.issued[k]);
    }
  }

  lemma {:induction false} NoRestartNoLife(w: World, ops: seq<Op>)
    requires forall op :: op in ops ==> !op.OpAuthRestart?
    ensures Run(w, ops).lives == w.lives
    decreases |ops|
  {
    if ops != [] {
      NoRestartNoLife(Step(w, ops[0]), ops[1..]);
    }
  }

  /** So without a restart of the auth service, no token is accepted twice before its expiry in the whole run. */
  lemma OneLifeAcceptsOnce(ops: seq<Op>)
    requires forall op :: op in ops ==> !op.OpAuthRestart?
    ensures var w := Run(EMPTY_WORLD, ops);
            w.lives == [] && EarlyIsFirst(w.accepted)
  {
    NoRestartNoLife(EMPTY_WORLD, ops);
    RunKeepsInv(EMPTY_WORLD, ops);
  }
}
