/** A run of the captcha pipeline in which a restart makes the auth service accept a token twice. */
module CaptchaRestarts {
  import opened Basics
  import opened Captcha
  import opened CaptchaIssues
  import opened CaptchaTokens

  const SOME_CLAIMS := Claims(true, Some("j"), Some(TOKEN_EXPIRY_SECONDS))

  // The only token was just issued, and the map of used ids is empty.
  predicate JustIssued(w: World) {
    w.clock == 0 && w.used == map[] && w.accepted == [] && w.issued == [Issue("j", TOKEN_EXPIRY_SECONDS, 0)]
  }

  lemma RightAnswerIssues()
    ensures var w := Step(Step(EMPTY_WORLD, OpGenerate(0, "abc", 0)), OpAnswer(0, "abc", "j", 0));
            JustIssued(w) && w.lives == []
  {
    ChallengeIsPassedIff(map[], 0, "abc", 0, "abc", 0);
  }

  lemma FreshCheckAccepts(w: World)
    requires JustIssued(w)
    ensures var v := Step(w, OpCheck(SOME_CLAIMS, 0));
            v.accepted == [Accepted("j", true)] && v == w.(used := v.used, past := v.past, accepted := v.accepted)
  {
    assert ClaimsOf(w.issued[0]) == SOME_CLAIMS;
  }

  lemma RestartForgets(w: World)
    requires w.clock == 0 && w.issued == [Issue("j", TOKEN_EXPIRY_SECONDS, 0)]
    ensures var v := Step(w, OpAuthRestart(0));
            JustIssued(v) && v.lives == w.lives + [w.accepted]
  {
  }

  // One token, checked before and after a restart of the auth service, within a second.
  const CHECKED_TWICE := [OpGenerate(0, "abc", 0), OpAnswer(0, "abc", "j", 0), OpCheck(SOME_CLAIMS, 0),
                          OpAuthRestart(0), OpCheck(SOME_CLAIMS, 0)]

  lemma RunCons(w: World, op: Op, ops: seq<Op>)
    ensures Run(w, [op] + ops) == Run(Step(w, op), ops)
  {
    assert ([op] + ops)[1..] == ops;
  }

  /** With a restart of the auth service in between, a token is accepted twice before its expiry. */
  lemma RestartAcceptsTwice()
    ensures var w := Run(EMPTY_WORLD, CHECKED_TWICE);
            w.lives == [[Accepted("j", true)]] && w.accepted == [Accepted("j", true)]
  {
    var check, restart := OpCheck(SOME_CLAIMS, 0), OpAuthRestart(0);
    var generate, answer := OpGenerate(0, "abc", 0), OpAnswer(0, "abc", "j", 0);
    assert CHECKED_TWICE == [generate] + ([answer] + ([check] + ([restart] + ([check] + []))));
    var w1 := Step(EMPTY_WORLD, generate);
    var w2 := Step(w1, answer);
    var w3 := Step(w2, check);
    var w4 := Step(w3, restart);
    RightAnswerIssues();
    FreshCheckAccepts(w2);
    RestartForgets(w3);
    FreshCheckAccepts(w4);
    RunCons(EMPTY_WORLD, generate, [answer] + ([check] + ([restart] + ([check] + []))));
    RunCons(w1, answer, [check] + ([restart] + ([check] + [])));
    RunCons(w2, check, [restart] + ([check] + []));
    RunCons(w3, restart, [check] + []);
    RunCons(w4, check, []);
  }
}
