/**
 Refresh tokens: logging in mints one, refreshing swaps one for a new one, and changing the password
 or removing the credential ends them all.
 */
module Sessions {
  import opened Basics

  // A raw token is a random UUID; the table stores its keyed hash, which is injective here.
  type Raw = nat
  datatype Hash = Hash(raw: Raw)
  datatype Secret = Secret(password: string)

  datatype User = User(secret: Secret, active: bool)

  datatype TokenRow = TokenRow(user: Id, expiresAt: int)

  // What happened so far, oldest first. The services keep no such record; the theorems speak of it.
  datatype Happening =
    | SignedIn(user: Id, raw: Raw)
    | Rotated(user: Id, spent: Raw, raw: Raw)
    | PasswordChanged(user: Id)
    | Removed(user: Id)

  datatype State = State(users: map<Id, User>, tokens: map<Hash, TokenRow>, drawn: set<Raw>, past: seq<Happening>)

  const EMPTY_STATE := State(map[], map[], {}, [])

  datatype AuthError = Unauthorized | UnknownUser

  // ----- the operations -----

  function AddUser(s: State, user: Id, password: string): State {
    s.(users := s.users[user := User(Secret(password), true)])
  }

  // user is the credential found for the given address, if any
  function Login(s: State, user: Option<Id>, password: string, raw: Raw, expiresAt: int): (State, Result<Raw, AuthError>) {
    if user.None? || user.value !in s.users || !s.users[user.value].active ||
       s.users[user.value].secret != Secret(password)
    then (s, Err(Unauthorized))
    else (State(s.users, s.tokens[Hash(raw) := TokenRow(user.value, expiresAt)], s.drawn + {raw},
                s.past + [SignedIn(user.value, raw)]), Ok(raw))
  }

  function Refresh(s: State, spent: Raw, raw: Raw, now: int, expiresAt: int): (State, Result<Raw, AuthError>) {
    if Hash(spent) !in s.tokens || s.tokens[Hash(spent)].expiresAt <= now then (s, Err(Unauthorized))
    else
      var user := s.tokens[Hash(spent)].user;
      if user !in s.users || !s.users[user].active then (s, Err(Unauthorized))
      else (State(s.users, (s.tokens - {Hash(spent)})[Hash(raw) := TokenRow(user, expiresAt)], s.drawn + {raw},
                  s.past + [Rotated(user, spent, raw)]), Ok(raw))
  }

  function RowsOf(tokens: map<Hash, TokenRow>, user: Id): set<Hash> {
    set h | h in tokens && tokens[h].user == user
  }

  function ChangePassword(s: State, user: Id, current: string, next: string): (State, Result<(), AuthError>) {
    if user !in s.users then (s, Err(UnknownUser))
    else if s.users[user].secret != Secret(current) then (s, Err(Unauthorized))
    else (State(s.users[user := s.users[user].(secret := Secret(next))], s.tokens - RowsOf(s.tokens, user), s.drawn,
                s.past + [PasswordChanged(user)]), Ok(()))
  }

  // No service code writes the column; an operator may.
  function SetActive(s: State, user: Id, active: bool): State {
    if user !in s.users then s else s.(users := s.users[user := s.users[user].(active := active)])
  }

  // The user-deleted handler; the foreign key of the token table cascades.
  function RemoveUser(s: State, user: Id): State {
    State(s.users - {user}, s.tokens - RowsOf(s.tokens, user), s.drawn, s.past + [Removed(user)])
  }

  // ----- runs -----

  datatype Op =
    | OpAdd(user: Id, password: string)
    | OpLogin(found: Option<Id>, password: string, raw: Raw, expiresAt: int)
    | OpRefresh(spent: Raw, raw: Raw, now: int, expiresAt: int)
    | OpChange(user: Id, current: string, next: string)
    | OpSetActive(user: Id, active: bool)
    | OpRemove(user: Id)

  // A new token is a raw value never drawn before; with another one the operation does not happen.
  function Step(s: State, op: Op): State {
    match op
    case OpAdd(user, password) => AddUser(s, user, password)
    case OpLogin(found, password, raw, expiresAt) =>
      if raw in s.drawn then s else Login(s, found, password, raw, expiresAt).0
    case OpRefresh(spent, raw, now, expiresAt) =>
      if raw in s.drawn then s else Refresh(s, spent, raw, now, expiresAt).0
    case OpChange(user, current, next) => ChangePassword(s, user, current, next).0
    case OpSetActive(user, active) => SetActive(s, user, active)
    case OpRemove(user) => RemoveUser(s, user)
  }

  function Run(s: State, ops: seq<Op>): State
    decreases |ops|
  {
    if ops == [] then s else Run(Step(s, ops[0]), ops[1..])
  }

  // ----- conservation -----

  predicate Ends(h: Happening, user: Id) {
    h == PasswordChanged(user) || h == Removed(user)
  }

  function LoginsSince(past: seq<Happening>, user: Id): nat {
    if past == [] then 0
    else if Ends(Last(past), user) then 0
    else LoginsSince(Front(past), user) + if Last(past).SignedIn? && Last(past).user == user then 1 else 0
  }

  predicate DrawnInv(s: State) {
    && (forall h :: h in s.tokens ==> h.raw in s.drawn)
    && (forall i :: 0 <= i < |s.past| && s.past[i].Rotated? ==> s.past[i].spent in s.drawn)
  }

  ghost predicate ConservationInv(s: State, user: Id) {
    |RowsOf(s.tokens, user)| == LoginsSince(s.past, user)
  }

  lemma RowsAfterLogin(tokens: map<Hash, TokenRow>, next: Hash, owner: Id, expiresAt: int, user: Id)
    requires next !in tokens
    ensures |RowsOf(tokens[next := TokenRow(owner, expiresAt)], user)| ==
            |RowsOf(tokens, user)| + if owner == user then 1 else 0
  {
    var rows := RowsOf(tokens, user);
    assert RowsOf(tokens[next := TokenRow(owner, expiresAt)], user) == if owner == user then rows + {next} else rows;
  }

  lemma LoginConserves(s: State, op: Op, user: Id)
    requires DrawnInv(s) && op.OpLogin? && ConservationInv(s, user)
    ensures ConservationInv(Step(s, op), user)
  {
    var t := Step(s, op);
    if t != s {
      FrontOfSnoc(s.past, SignedIn(op.found.value, op.raw));
      RowsAfterLogin(s.tokens, Hash(op.raw), op.found.value, op.expiresAt, user);
    }
  }

  lemma RowsAfterRotation(tokens: map<Hash, TokenRow>, spent: Hash, next: Hash, expiresAt: int, user: Id)
    requires spent in tokens && next !in tokens
    ensures var holder := tokens[spent].user;
            |RowsOf((tokens - {spent})[next := TokenRow(holder, expiresAt)], user)| == |RowsOf(tokens, user)|
  {
    var holder := tokens[spent].user;
    var rotated := (tokens - {spent})[next := TokenRow(holder, expiresAt)];
    var rows := RowsOf(tokens, user);
    assert spent in rows <==> holder == user;
    assert RowsOf(rotated, user) == if holder == user then rows - {spent} + {next} else rows;
  }

  lemma RefreshConserves(s: State, op: Op, user: Id)
    requires DrawnInv(s) && op.OpRefresh? && ConservationInv(s, user)
    ensures ConservationInv(Step(s, op), user)
  {
    var t := Step(s, op);
    if t != s {
      var holder := s.tokens[Hash(op.spent)].user;
      FrontOfSnoc(s.past, Rotated(holder, op.spent, op.raw));
      RowsAfterRotation(s.tokens, Hash(op.spent), Hash(op.raw), op.expiresAt, user);
    }
  }

  lemma ClearingConserves(s: State, t: State, gone: Id, end: Happening, user: Id)
    requires ConservationInv(s, user) && (end == PasswordChanged(gone) || end == Removed(gone))
    requires t.tokens == s.tokens - RowsOf(s.tokens, gone) && t.past == s.past + [end]
    ensures ConservationInv(t, user)
  {
    FrontOfSnoc(s.past, end);
    assert RowsOf(t.tokens, user) == if gone == user then {} else RowsOf(s.tokens, user);
  }

  lemma StepConserves(s: State, op: Op, user: Id)
    requires DrawnInv(s) && ConservationInv(s, user)
    ensures ConservationInv(Step(s, op), user)
  {
    match op
    case OpAdd(_, _) =>
    case OpSetActive(_, _) =>
    case OpLogin(_, _, _, _) => LoginConserves(s, op, user);
    case OpRefresh(_, _, _, _) => RefreshConserves(s, op, user);
    case OpChange(who, _, _) =>
      if Step(s, op) != s { ClearingConserves(s, Step(s, op), who, PasswordChanged(who), user); }
    case OpRemove(who) => ClearingConserves(s, Step(s, op), who, Removed(who), user);
  }

  lemma StepKeepsDrawn(s: State, op: Op)
    requires DrawnInv(s)
    ensures DrawnInv(Step(s, op))
  {
  }

  /**
   Conservation over every run: a user has exactly as many token rows as logins since the last
   password change (or removal). Refreshing neither adds nor removes a session.
   */
  lemma {:induction false} TokenRowsCountLogins(s: State, ops: seq<Op>, user: Id)
    requires DrawnInv(s) && ConservationInv(s, user)
    ensures ConservationInv(Run(s, ops), user)
    decreases |ops|
  {
    if ops != [] {
      StepKeepsDrawn(s, ops[0]);
      StepConserves(s, ops[0], user);
      TokenRowsCountLogins(Step(s, ops[0]), ops[1..], user);
    }
  }

  lemma TokenTableCountsLogins(ops: seq<Op>, user: Id)
    ensures var s := Run(EMPTY_STATE, ops);
            |RowsOf(s.tokens, user)| == LoginsSince(s.past, user)
  {
    assert RowsOf(EMPTY_STATE.tokens, user) == {};
    TokenRowsCountLogins(EMPTY_STATE, ops, user);
  }

  // ----- single use -----

  predicate Spent(past: seq<Happening>, raw: Raw) {
    exists i :: 0 <= i < |past| && past[i].Rotated? && past[i].spent == raw
  }

  predicate SpentOnce(past: seq<Happening>) {
    forall i, j :: 0 <= i < j < |past| && past[i].Rotated? && past[j].Rotated? ==> past[i].spent != past[j].spent
  }

  predicate SingleUseInv(s: State) {
    DrawnInv(s) && SpentOnce(s.past) && forall h :: h in s.tokens ==> !Spent(s.past, h.raw)
  }

  lemma SpentSnoc(past: seq<Happening>, h: Happening, raw: Raw)
    ensures Spent(past + [h], raw) <==> Spent(past, raw) || (h.Rotated? && h.spent == raw)
  {
    var more := past + [h];
    if Spent(past, raw) {
      var i :| 0 <= i < |past| && past[i].Rotated? && past[i].spent == raw;
      assert more[i] == past[i];
    }
    if h.Rotated? && h.spent == raw {
      assert more[|past|] == h;
    }
  }

  lemma NewTokenIsUnspent(s: State, raw: Raw)
    requires DrawnInv(s) && raw !in s.drawn
    ensures !Spent(s.past, raw)
  {
  }

  lemma StepKeepsSingleUse(s: State, op: Op)
    requires SingleUseInv(s)
    ensures SingleUseInv(Step(s, op))
  {
    var t := Step(s, op);
    StepKeepsDrawn(s, op);
    if t.past != s.past {
      var h := Last(t.past);
      assert t.past == s.past + [h];
      forall token | token in t.tokens
        ensures !Spent(t.past, token.raw)
      {
        SpentSnoc(s.past, h, token.raw);
        if token !in s.tokens {
          NewTokenIsUnspent(s, token.raw);
        }
      }
      if h.Rotated? {
        assert !Spent(s.past, h.spent) by { assert Hash(h.spent) in s.tokens; }
      }
    }
  }

  /** Over every run, each raw token is redeemed at most once. */
  lemma {:induction false} TokensAreSingleUse(s: State, ops: seq<Op>)
    requires SingleUseInv(s)
    ensures SingleUseInv(Run(s, ops))
    decreases |ops|
  {
    if ops != [] {
      StepKeepsSingleUse(s, ops[0]);
      TokensAreSingleUse(Step(s, ops[0]), ops[1..]);
    }
  }

  // ----- provenance -----

  predicate Mints(h: Happening, user: Id, raw: Raw) {
    (h.SignedIn? || h.Rotated?) && h.user == user && h.raw == raw
  }

  // The token minted at position i descends, through successful refreshes, from the login at position l.
  ghost predicate Descends(past: seq<Happening>, l: nat, i: nat)
    decreases i
  {
    && l <= i < |past|
    && past[l].SignedIn?
    && (i != l ==>
          past[i].Rotated? &&
          exists j: nat :: j < i && Mints(past[j], past[i].user, past[i].spent) && Descends(past, l, j))
  }

  predicate NoEndAfter(past: seq<Happening>, l: nat, user: Id) {
    forall k :: l < k < |past| ==> !Ends(past[k], user)
  }

  // A login of the same user, with no later end of the user's sessions, from which the token descends.
  ghost predicate Rooted(past: seq<Happening>, user: Id, raw: Raw) {
    exists l: nat, i: nat :: Descends(past, l, i) && Mints(past[i], user, raw) &&
                             past[l].user == user && NoEndAfter(past, l, user)
  }

  ghost predicate ProvenanceInv(s: State) {
    forall h :: h in s.tokens ==> Rooted(s.past, s.tokens[h].user, h.raw)
  }

  lemma {:induction false} DescendsSnoc(past: seq<Happening>, h: Happening, l: nat, i: nat)
    requires Descends(past, l, i)
    ensures Descends(past + [h], l, i)
    decreases i
  {
    var more := past + [h];
    assert more[i] == past[i] && more[l] == past[l];
    if i != l {
      var j: nat :| j < i && Mints(past[j], past[i].user, past[i].spent) && Descends(past, l, j);
      DescendsSnoc(past, h, l, j);
      assert more[j] == past[j];
    }
  }

  lemma RootedSnoc(past: seq<Happening>, h: Happening, user: Id, raw: Raw)
    requires Rooted(past, user, raw) && !Ends(h, user)
    ensures Rooted(past + [h], user, raw)
  {
    var l: nat, i: nat :| Descends(past, l, i) && Mints(past[i], user, raw) && past[l].user == user &&
                          NoEndAfter(past, l, user);
    DescendsSnoc(past, h, l, i);
    assert (past + [h])[i] == past[i];
    assert NoEndAfter(past + [h], l, user);
  }

  lemma LoginIsRooted(past: seq<Happening>, user: Id, raw: Raw)
    ensures Rooted(past + [SignedIn(user, raw)], user, raw)
  {
    var more := past + [SignedIn(user, raw)];
    assert Descends(more, |past|, |past|);
    assert Mints(more[|past|], user, raw) && NoEndAfter(more, |past|, user);
  }

  lemma RotationIsRooted(past: seq<Happening>, user: Id, spent: Raw, raw: Raw)
    requires Rooted(past, user, spent)
    ensures Rooted(past + [Rotated(user, spent, raw)], user, raw)
  {
    var h := Rotated(user, spent, raw);
    var more := past + [h];
    var l: nat, i: nat :| Descends(past, l, i) && Mints(past[i], user, spent) && past[l].user == user &&
                          NoEndAfter(past, l, user);
    DescendsSnoc(past, h, l, i);
    assert more[i] == past[i] && more[|past|] == h;
    assert Descends(more, l, |past|);
    assert Mints(more[|past|], user, raw) && NoEndAfter(more, l, user);
  }

  lemma StepKeepsProvenance(s: State, op: Op)
    requires ProvenanceInv(s)
    ensures ProvenanceInv(Step(s, op))
  {
    var t := Step(s, op);
    if t.past != s.past {
      var h := Last(t.past);
      assert t.past == s.past + [h];
      forall token | token in t.tokens
        ensures Rooted(t.past, t.tokens[token].user, token.raw)
      {
        if h.SignedIn? && token == Hash(h.raw) {
          LoginIsRooted(s.past, h.user, h.raw);
        } else if h.Rotated? && token == Hash(h.raw) {
          assert Hash(h.spent) in s.tokens;
          RotationIsRooted(s.past, h.user, h.spent, h.raw);
        } else {
          assert token in s.tokens && t.tokens[token] == s.tokens[token];
          RootedSnoc(s.past, h, t.tokens[token].user, token.raw);
        }
      }
    }
  }

  lemma {:induction false} RunKeepsProvenance(s: State, ops: seq<Op>)
    requires ProvenanceInv(s)
    ensures ProvenanceInv(Run(s, ops))
    decreases |ops|
  {
    if ops != [] {
      StepKeepsProvenance(s, ops[0]);
      RunKeepsProvenance(Step(s, ops[0]), ops[1..]);
    }
  }

  /**
   Provenance: a refresh succeeds only with a token that descends, through successful refreshes, from
   a login of the same user after which neither a password change nor a removal followed.
   */
  lemma RefreshNeedsLogin(ops: seq<Op>, spent: Raw, raw: Raw, now: int, expiresAt: int)
    ensures var s := Run(EMPTY_STATE, ops);
            Refresh(s, spent, raw, now, expiresAt).1.Ok? ==>
              && Hash(spent) in s.tokens
              && Rooted(s.past, s.tokens[Hash(spent)].user, spent)
              && !Spent(s.past, spent)
  {
    RunKeepsProvenance(EMPTY_STATE, ops);
    TokensAreSingleUse(EMPTY_STATE, ops);
  }
}
