/**
 Who may log in, who may change a password and which refresh tokens count, read off the calls alone; and
 that the tables of the auth service answer just so after every run.
 */
module SessionHistory {
  import opened Basics
  import opened Sessions

  lemma {:induction false} RunSnoc(s: State, ops: seq<Op>, op: Op)
    ensures Run(s, ops + [op]) == Step(Run(s, ops), op)
    decreases |ops|
  {
    if ops == [] {
      assert ops + [op] == [op] && [op][1..] == [];
    } else {
      RunSnoc(Step(s, ops[0]), ops[1..], op);
      assert (ops + [op])[1..] == ops[1..] + [op];
    }
  }

  // ----- passwords -----

  // The password last set: by adding the user, or by a change that named the one before it.
  function Password(ops: seq<Op>, u: Id): Option<string> {
    if ops == [] then None
    else
      var before := Password(Front(ops), u);
      match Last(ops)
      case OpAdd(user, password) => if user == u then Some(password) else before
      case OpChange(user, current, next) => if user == u && before == Some(current) then Some(next) else before
      case OpRemove(user) => if user == u then None else before
      case _ => before
  }

  // A user is active from being added on, unless the column was set otherwise since.
  predicate Active(ops: seq<Op>, u: Id) {
    ops != [] &&
    match Last(ops)
    case OpAdd(user, _) => user == u || Active(Front(ops), u)
    case OpSetActive(user, active) => if user == u then active else Active(Front(ops), u)
    case _ => Active(Front(ops), u)
  }

  predicate MayLogin(ops: seq<Op>, found: Option<Id>, password: string) {
    found.Some? && Password(ops, found.value) == Some(password) && Active(ops, found.value)
  }

  // ----- refresh tokens -----

  // The last call is a refresh with a live token within its lifetime, by an active user.
  predicate Redeems(ops: seq<Op>)
    requires ops != []
    decreases |ops|, 0
  {
    var op, before := Last(ops), Front(ops);
    op.OpRefresh? && !IsDrawn(before, op.raw) && LiveToken(before, op.spent).Some? &&
    op.now < LiveToken(before, op.spent).value.expiresAt && Active(before, LiveToken(before, op.spent).value.user)
  }

  // The token handed out by the last call, if it hands out one.
  function Minted(ops: seq<Op>): Option<(Raw, TokenRow)>
    requires ops != []
    decreases |ops|, 1
  {
    var op, before := Last(ops), Front(ops);
    if op.OpLogin? && !IsDrawn(before, op.raw) && MayLogin(before, op.found, op.password) then
      Some((op.raw, TokenRow(op.found.value, op.expiresAt)))
    else if op.OpRefresh? && Redeems(ops) then
      Some((op.raw, TokenRow(LiveToken(before, op.spent).value.user, op.expiresAt)))
    else None
  }

  predicate IsDrawn(ops: seq<Op>, raw: Raw)
    decreases |ops|, 2
  {
    ops != [] && (IsDrawn(Front(ops), raw) || (Minted(ops).Some? && Minted(ops).value.0 == raw))
  }

  // The last call ends every session of the user.
  predicate EndsSessions(ops: seq<Op>, u: Id)
    requires ops != []
  {
    match Last(ops)
    case OpChange(user, current, _) => user == u && Password(Front(ops), u) == Some(current)
    case OpRemove(user) => user == u
    case _ => false
  }

  // The user and the expiry of a token that was handed out and neither redeemed nor ended since.
  function LiveToken(ops: seq<Op>, raw: Raw): Option<TokenRow>
    decreases |ops|, 2
  {
    if ops == [] then None
    else
      var before := LiveToken(Front(ops), raw);
      if Minted(ops).Some? && Minted(ops).value.0 == raw then Some(Minted(ops).value.1)
      else if Last(ops).OpRefresh? && Last(ops).spent == raw && Redeems(ops) then None
      else if before.Some? && EndsSessions(ops, before.value.user) then None
      else before
  }

  // ----- the tables hold just that -----

  predicate UserMatches(s: State, ops: seq<Op>, u: Id) {
    && (u in s.users <==> Password(ops, u).Some?)
    && (u in s.users ==> s.users[u] == User(Secret(Password(ops, u).value), Active(ops, u)))
  }

  predicate TokenMatches(s: State, ops: seq<Op>, raw: Raw) {
    && (raw in s.drawn <==> IsDrawn(ops, raw))
    && (Hash(raw) in s.tokens <==> LiveToken(ops, raw).Some?)
    && (Hash(raw) in s.tokens ==>
          s.tokens[Hash(raw)] == LiveToken(ops, raw).value && raw in s.drawn && s.tokens[Hash(raw)].user in s.users)
  }

  ghost predicate MatchesCalls(s: State, ops: seq<Op>) {
    (forall u :: UserMatches(s, ops, u)) && (forall raw :: TokenMatches(s, ops, raw))
  }

  lemma StepMatchesUser(s: State, ops: seq<Op>, op: Op, u: Id)
    requires MatchesCalls(s, ops)
    ensures UserMatches(Step(s, op), ops + [op], u)
  {
    FrontOfSnoc(ops, op);
    assert UserMatches(s, ops, u);
  }

  lemma LoginMatchesToken(s: State, ops: seq<Op>, op: Op, raw: Raw)
    requires MatchesCalls(s, ops) && op.OpLogin?
    ensures TokenMatches(Step(s, op), ops + [op], raw)
  {
    FrontOfSnoc(ops, op);
    assert TokenMatches(s, ops, raw) && TokenMatches(s, ops, op.raw);
    if op.found.Some? {
      assert UserMatches(s, ops, op.found.value);
    }
  }

  lemma RefreshMatchesToken(s: State, ops: seq<Op>, op: Op, raw: Raw)
    requires MatchesCalls(s, ops) && op.OpRefresh?
    ensures TokenMatches(Step(s, op), ops + [op], raw)
  {
    FrontOfSnoc(ops, op);
    assert TokenMatches(s, ops, raw) && TokenMatches(s, ops, op.raw) && TokenMatches(s, ops, op.spent);
    if Hash(op.spent) in s.tokens {
      assert UserMatches(s, ops, s.tokens[Hash(op.spent)].user);
    }
    assert Redeems(ops + [op]) <==> op.raw !in s.drawn && Refresh(s, op.spent, op.raw, op.now, op.expiresAt).1.Ok?;
  }

  lemma OtherMatchesToken(s: State, ops: seq<Op>, op: Op, raw: Raw)
    requires MatchesCalls(s, ops) && !op.OpLogin? && !op.OpRefresh?
    ensures TokenMatches(Step(s, op), ops + [op], raw)
  {
    FrontOfSnoc(ops, op);
    assert TokenMatches(s, ops, raw);
    assert UserMatches(s, ops, op.user);
  }

  lemma StepMatches(s: State, ops: seq<Op>, op: Op)
    requires MatchesCalls(s, ops)
    ensures MatchesCalls(Step(s, op), ops + [op])
  {
    forall u
      ensures UserMatches(Step(s, op), ops + [op], u)
    {
      StepMatchesUser(s, ops, op, u);
    }
    forall raw
      ensures TokenMatches(Step(s, op), ops + [op], raw)
    {
      match op
      case OpLogin(_, _, _, _) => LoginMatchesToken(s, ops, op, raw);
      case OpRefresh(_, _, _, _) => RefreshMatchesToken(s, ops, op, raw);
      case _ => OtherMatchesToken(s, ops, op, raw);
    }
  }

  /** Over every run, the two tables hold what the calls leave. */
  lemma {:induction false} RunMatchesCalls(ops: seq<Op>)
    ensures MatchesCalls(Run(EMPTY_STATE, ops), ops)
  {
    if ops != [] {
      RunMatchesCalls(Front(ops));
      RunSnoc(EMPTY_STATE, Front(ops), Last(ops));
      assert ops == Front(ops) + [Last(ops)];
      StepMatches(Run(EMPTY_STATE, Front(ops)), Front(ops), Last(ops));
    }
  }

  // ----- the answers -----

  /** A login succeeds exactly with the password last set for the user, while the user is active. */
  lemma LoginIff(ops: seq<Op>, found: Option<Id>, password: string, raw: Raw, expiresAt: int)
    ensures Login(Run(EMPTY_STATE, ops), found, password, raw, expiresAt).1 ==
            if found.Some? && Password(ops, found.value) == Some(password) && Active(ops, found.value) then Ok(raw)
            else Err(Unauthorized)
  {
    RunMatchesCalls(ops);
    if found.Some? {
      assert UserMatches(Run(EMPTY_STATE, ops), ops, found.value);
    }
  }

  /** A password is changed exactly by who names the one last set. */
  lemma ChangePasswordIff(ops: seq<Op>, user: Id, current: string, next: string)
    ensures ChangePassword(Run(EMPTY_STATE, ops), user, current, next).1 ==
            if Password(ops, user).None? then Err(UnknownUser)
            else if Password(ops, user) == Some(current) then Ok(())
            else Err(Unauthorized)
  {
    RunMatchesCalls(ops);
    assert UserMatches(Run(EMPTY_STATE, ops), ops, user);
  }

  /**
   A refresh succeeds exactly with a token that a login or a refresh handed out, that was neither redeemed
   nor ended by a change of password or a removal since, before it expires and while its user is active.
   */
  lemma RefreshIff(ops: seq<Op>, spent: Raw, raw: Raw, now: int, expiresAt: int)
    ensures Refresh(Run(EMPTY_STATE, ops), spent, raw, now, expiresAt).1 ==
            var token := LiveToken(ops, spent);
            if token.Some? && now < token.value.expiresAt && Active(ops, token.value.user) then Ok(raw)
            else Err(Unauthorized)
  {
    RunMatchesCalls(ops);
    var s := Run(EMPTY_STATE, ops);
    assert TokenMatches(s, ops, spent);
    if Hash(spent) in s.tokens {
      assert UserMatches(s, ops, s.tokens[Hash(spent)].user);
    }
  }

  /** The token table holds exactly the live tokens, each with its user and its expiry. */
  lemma TableHoldsLiveTokens(ops: seq<Op>, raw: Raw)
    ensures var tokens := Run(EMPTY_STATE, ops).tokens;
            (if Hash(raw) in tokens then Some(tokens[Hash(raw)]) else None) == LiveToken(ops, raw)
  {
    RunMatchesCalls(ops);
    assert TokenMatches(Run(EMPTY_STATE, ops), ops, raw);
  }
}
