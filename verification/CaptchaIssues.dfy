/**
 The captcha pipeline as a state machine, and its first half over a whole run: issued tokens map one-to-one
 to challenges answered correctly at the first attempt in time.
 */
module CaptchaIssues {
  import opened Basics
  import opened Captcha
  import opened CaptchaTokens

  // An answer that was sent for an existing challenge.
  datatype Try = Try(challenge: Id, answer: string, at: int)

  // A token, and which of all the tries it was issued for.
  datatype Issue = Issue(jti: string, exp: int, try: nat)

  // A successful check: which token id, and whether it was made strictly before the expiry.
  datatype Accepted = Accepted(jti: string, early: bool)

  /**
   clock      the time of the last step, in milliseconds
   made       every challenge ever generated        tries      every answer sent for one of them, in order
   drawn      the token ids ever drawn              issued     the tokens, in the order of issue
   past       the uses since the auth service was started, remembered without pruning
   accepted   the successful checks since then
   lives      the successful checks of the earlier lives of the auth service, one list for each
   */
  datatype World = World(clock: int, store: Store, used: UsedMap, made: map<Id, Challenge>, tries: seq<Try>,
                         drawn: set<string>, issued: seq<Issue>, past: seq<Use>, accepted: seq<Accepted>,
                         lives: seq<seq<Accepted>>)

  const EMPTY_WORLD := World(0, map[], map[], map[], [], {}, [], [], [], [])

  datatype Op =
    | OpGenerate(id: Id, text: string, now: int)
    | OpAnswer(id: Id, answer: string, jti: string, now: int)
    | OpCleanup(now: int)
    | OpCheck(claims: Claims, now: int)
    | OpAuthRestart(now: int)
    | OpCaptchaRestart(now: int)

  function Seconds(ms: int): int {
    ms / 1000
  }

  // Only issued tokens carry a right signature.
  function ClaimsOf(i: Issue): Claims {
    Claims(true, Some(i.jti), Some(i.exp))
  }

  predicate IsIssued(w: World, c: Claims) {
    exists k :: 0 <= k < |w.issued| && ClaimsOf(w.issued[k]) == c
  }

  /**
   The clock does not run backwards, ids are fresh, and signatures cannot be forged; a step without
   these does not happen.
   */
  predicate Allowed(w: World, op: Op) {
    && w.clock <= op.now
    && (op.OpGenerate? ==> op.id !in w.made)
    && (op.OpAnswer? ==> op.jti !in w.drawn && op.jti != "")
    && (op.OpCheck? ==> IsIssued(w, op.claims))
  }

  function Answer(w: World, id: Id, answer: string, jti: string, now: int): World {
    var passed := Passes(w.store, id, answer, now);
    w.(clock := now, store := w.store - {id},
       tries := if id in w.made then w.tries + [Try(id, answer, now)] else w.tries,
       drawn := if passed then w.drawn + {jti} else w.drawn,
       issued := if passed then w.issued + [Issue(jti, Seconds(now) + TOKEN_EXPIRY_SECONDS, |w.tries|)]
                 else w.issued)
  }

  function Check(w: World, c: Claims, now: int): World {
    var (used, r) := AuthCheck(w.used, true, Signed(c), Seconds(now));
    if r.Err? || c.jti.None? || c.exp.None? then w.(clock := now, used := used)
    else w.(clock := now, used := used, past := w.past + [Use(c.jti.value, RetainedUntil(c, Seconds(now)))],
            accepted := w.accepted + [Accepted(c.jti.value, Seconds(now) < c.exp.value)])
  }

  // Both maps live in memory: a restart empties the one of the service that is restarted.
  function Step(w: World, op: Op): World {
    if !Allowed(w, op) then w
    else match op
      case OpGenerate(id, text, now) =>
        var store := Generate(w.store, id, text, now);
        w.(clock := now, store := store, made := w.made[id := store[id]])
      case OpAnswer(id, answer, jti, now) => Answer(w, id, answer, jti, now)
      case OpCleanup(now) => w.(clock := now, store := Prune(w.store, now))
      case OpCheck(c, now) => Check(w, c, now)
      case OpAuthRestart(now) =>
        w.(clock := now, used := map[], past := [], accepted := [], lives := w.lives + [w.accepted])
      case OpCaptchaRestart(now) => w.(clock := now, store := map[])
  }

  function Run(w: World, ops: seq<Op>): World
    decreases |ops|
  {
    if ops == [] then w else Run(Step(w, ops[0]), ops[1..])
  }

  // ----- from challenges to tokens -----

  // The k-th try is the first one at its challenge.
  predicate IsFirstTry(tries: seq<Try>, k: nat)
    requires k < |tries|
  {
    forall j :: 0 <= j < k ==> tries[j].challenge != tries[k].challenge
  }

  // The token was issued for a right answer, in time, to an existing challenge, and the first one to it.
  predicate GoodIssue(w: World, i: Issue) {
    && i.jti in w.drawn && i.jti != ""
    && i.try < |w.tries|
    && var t := w.tries[i.try];
       && t.challenge in w.made && t.at <= w.made[t.challenge].expiresAt && 0 <= t.at <= w.clock
       && AnswerMatches(w.made[t.challenge].answer, t.answer)
       && i.exp == t.at / 1000 + 120
       && IsFirstTry(w.tries, i.try)
  }

  predicate IsTried(tries: seq<Try>, id: Id) {
    exists k :: 0 <= k < |tries| && tries[k].challenge == id
  }

  // Tokens and tries are distinct; an open challenge was not tried yet.
  predicate IssueInv(w: World) {
    && w.clock >= 0
    && (forall id :: id in w.store ==> id in w.made && w.store[id] == w.made[id] && !IsTried(w.tries, id))
    && (forall k :: 0 <= k < |w.tries| ==> w.tries[k].challenge in w.made)
    && (forall k :: 0 <= k < |w.issued| ==> GoodIssue(w, w.issued[k]))
    && (forall j, k :: 0 <= j < k < |w.issued| ==>
          w.issued[j].jti != w.issued[k].jti && w.issued[j].try != w.issued[k].try)
  }

  // A token stays good when more was tried, made and drawn.
  lemma GoodIssueStays(w: World, v: World, i: Issue)
    requires GoodIssue(w, i) && w.drawn <= v.drawn && w.tries <= v.tries && w.clock <= v.clock
    requires forall id :: id in w.made ==> id in v.made && v.made[id] == w.made[id]
    ensures GoodIssue(v, i)
  {
    assert v.tries[i.try] == w.tries[i.try];
  }

  lemma TriedSnoc(tries: seq<Try>, t: Try, id: Id)
    ensures IsTried(tries + [t], id) <==> IsTried(tries, id) || t.challenge == id
  {
    var more := tries + [t];
    if IsTried(tries, id) {
      var k :| 0 <= k < |tries| && tries[k].challenge == id;
      assert more[k] == tries[k];
    }
    assert more[|tries|] == t;
  }

  lemma AnswerKeepsStore(w: World, op: Op)
    requires IssueInv(w) && op.OpAnswer?
    ensures var v := Step(w, op);
            && (forall id :: id in v.store ==> id in v.made && v.store[id] == v.made[id] && !IsTried(v.tries, id))
            && (forall k :: 0 <= k < |v.tries| ==> v.tries[k].challenge in v.made)
  {
    forall id
      ensures IsTried(w.tries + [Try(op.id, op.answer, op.now)], id) <==> IsTried(w.tries, id) || op.id == id
    {
      TriedSnoc(w.tries, Try(op.id, op.answer, op.now), id);
    }
  }

  lemma NewIssueIsGood(w: World, op: Op)
    requires IssueInv(w) && op.OpAnswer? && Allowed(w, op) && Passes(w.store, op.id, op.answer, op.now)
    ensures var v := Step(w, op);
            v.issued == w.issued + [Last(v.issued)] && GoodIssue(v, Last(v.issued)) &&
            Last(v.issued).jti == op.jti && Last(v.issued).try == |w.tries|
  {
    var v := Step(w, op);
    assert v.tries[|w.tries|] == Try(op.id, op.answer, op.now);
    forall j | 0 <= j < |w.tries|
      ensures v.tries[j].challenge != op.id
    {
      assert v.tries[j] == w.tries[j];
      assert !IsTried(w.tries, op.id);
    }
  }

  lemma AnswerKeepsIssues(w: World, op: Op)
    requires IssueInv(w) && op.OpAnswer?
    ensures IssueInv(Step(w, op))
  {
    var v := Step(w, op);
    AnswerKeepsStore(w, op);
    forall k | 0 <= k < |w.issued|
      ensures GoodIssue(v, w.issued[k]) && w.issued[k].jti in w.drawn && w.issued[k].try < |w.tries|
    {
      assert GoodIssue(w, w.issued[k]);
      GoodIssueStays(w, v, w.issued[k]);
    }
    if v.issued != w.issued {
      NewIssueIsGood(w, op);
    }
  }

  lemma GenerateKeepsIssues(w: World, op: Op)
    requires IssueInv(w) && op.OpGenerate?
    ensures IssueInv(Step(w, op))
  {
    var v := Step(w, op);
    forall k | 0 <= k < |w.issued|
      ensures GoodIssue(v, w.issued[k])
    {
      assert GoodIssue(w, w.issued[k]);
      GoodIssueStays(w, v, w.issued[k]);
    }
    assert v != w ==> op.id !in w.made && !IsTried(v.tries, op.id);
  }

  lemma QuietStepKeepsIssues(w: World, op: Op)
    requires IssueInv(w) && !op.OpAnswer? && !op.OpGenerate?
    ensures IssueInv(Step(w, op))
  {
    var v := Step(w, op);
    forall k | 0 <= k < |w.issued|
      ensures GoodIssue(v, w.issued[k])
    {
      assert GoodIssue(w, w.issued[k]);
      GoodIssueStays(w, v, w.issued[k]);
    }
  }

  lemma StepKeepsIssues(w: World, op: Op)
    requires IssueInv(w)
    ensures IssueInv(Step(w, op))
  {
    if op.OpAnswer? {
      AnswerKeepsIssues(w, op);
    } else if op.OpGenerate? {
      GenerateKeepsIssues(w, op);
    } else {
      QuietStepKeepsIssues(w, op);
    }
  }

  lemma DifferentChallenges(w: World, a: Issue, b: Issue)
    requires GoodIssue(w, a) && GoodIssue(w, b) && a.try != b.try
    ensures w.tries[a.try].challenge != w.tries[b.try].challenge
  {
    assert a.try < b.try || b.try < a.try;
  }

  /** The first-attempt part, one step at a time: once an answer was sent, no token follows from that challenge. */
  lemma TriedChallengeIssuesNothing(w: World, op: Op)
    requires IssueInv(w) && op.OpAnswer? && IsTried(w.tries, op.id)
    ensures Step(w, op).issued == w.issued
  {
  }

  /** A restart of the captcha service ends the open challenges: no answer to one of them yields a token. */
  lemma RestartEndsChallenges(w: World, now: int, op: Op)
    requires w.clock <= now && op.OpAnswer?
    ensures Step(Step(w, OpCaptchaRestart(now)), op).issued == w.issued
  {
  }
}
