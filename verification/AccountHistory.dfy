/**
 Where the roles and the profile fields of the accounts come from, over every run of the two services.
 */
module AccountHistory {
  import opened Basics
  import opened Events
  import opened Identity
  import opened Replication
  import opened Text

  lemma {:induction false} RunSnoc(w: World, ops: seq<Op>, op: Op)
    ensures Run(w, ops + [op]) == Step(Run(w, ops), op)
    decreases |ops|
  {
    if ops == [] {
      assert ops + [op] == [op] && [op][1..] == [];
    } else {
      RunSnoc(Step(w, ops[0]), ops[1..], op);
      assert (ops + [op])[1..] == ops[1..] + [op];
    }
  }

  // ----- where a role comes from -----

  // Some call names the role for the account.
  predicate NamedRole(ops: seq<Op>, id: Id, role: string) {
    OpRole(id, role) in ops
  }

  // What the bootstrap makes an admin: the owner of the address or, without one, the account it enrols.
  ghost predicate Bootstraps(w: World, op: Op, id: Id) {
    && op.OpBootstrap? && op.id !in w.drawn
    && (if exists c :: c in w.creds && w.creds[c].email == op.email
        then id in w.creds && w.creds[id].email == op.email
        else id == op.id)
  }

  ghost predicate MadeAdmin(ops: seq<Op>, id: Id) {
    ops != [] && (MadeAdmin(Front(ops), id) || Bootstraps(Run(EMPTY_WORLD, Front(ops)), Last(ops), id))
  }

  ghost predicate RoleExplained(ops: seq<Op>, id: Id, role: string) {
    role == "user" || (role == "admin" && MadeAdmin(ops, id)) || NamedRole(ops, id, role)
  }

  // A created event carries the role of the new account, an updated event at most a role that was named.
  ghost predicate EventExplained(ops: seq<Op>, e: Event) {
    && (e.UserCreated? ==> RoleExplained(ops, e.userId, e.role))
    && (e.UserUpdated? && e.newRole.Some? ==> NamedRole(ops, e.userId, e.newRole.value))
  }

  ghost predicate LogExplained(ops: seq<Op>, log: seq<Event>) {
    forall k :: 0 <= k < |log| ==> EventExplained(ops, log[k])
  }

  ghost predicate CredsExplained(ops: seq<Op>, creds: map<Id, Account>) {
    forall id :: id in creds ==> RoleExplained(ops, id, creds[id].role)
  }

  ghost predicate ProfilesExplained(ops: seq<Op>, profiles: map<Id, Profile>) {
    forall id :: id in profiles ==> RoleExplained(ops, id, profiles[id].account.role)
  }

  ghost predicate RolesExplained(w: World, ops: seq<Op>) {
    CredsExplained(ops, w.creds) && ProfilesExplained(ops, w.profiles) && LogExplained(ops, w.log)
  }

  lemma ExplainedLater(ops: seq<Op>, op: Op, w: World)
    requires RolesExplained(w, ops)
    ensures RolesExplained(w, ops + [op])
  {
    FrontOfSnoc(ops, op);
    forall id, role | RoleExplained(ops, id, role)
      ensures RoleExplained(ops + [op], id, role)
    {
    }
    forall k | 0 <= k < |w.log|
      ensures EventExplained(ops + [op], w.log[k])
    {
      assert EventExplained(ops, w.log[k]);
    }
  }

  lemma LogGrowsExplained(ops: seq<Op>, log: seq<Event>, e: Event)
    requires LogExplained(ops, log) && EventExplained(ops, e)
    ensures LogExplained(ops, log + [e])
  {
  }

  lemma EnrolmentExplained(ops: seq<Op>, w: World, id: Id, a: Account)
    requires RolesExplained(w, ops) && RoleExplained(ops, id, a.role)
    ensures RolesExplained(Enrol(w, id, a), ops)
  {
    LogGrowsExplained(ops, w.log, UserCreated(id, a.username, a.email, a.role));
  }

  lemma RegistrationExplained(ops: seq<Op>, w: World, op: Op)
    requires op.OpRegister? && RolesExplained(w, ops)
    ensures RolesExplained(Perform(w, op), ops)
  {
    EnrolmentExplained(ops, w, op.id, Account(op.username, op.email, "user"));
  }

  lemma BootstrapExplained(ops: seq<Op>, w: World, op: Op)
    requires op.OpBootstrap? && RolesExplained(w, ops)
    requires forall id :: Bootstraps(w, op, id) ==> MadeAdmin(ops, id)
    requires op.id !in w.drawn
    ensures RolesExplained(Perform(w, op), ops)
  {
    if exists owner :: OwnsEmail(w.creds, owner, op.email) {
      assert forall owner :: OwnsEmail(w.creds, owner, op.email) ==> Bootstraps(w, op, owner);
    } else {
      assert forall c :: c in w.creds && w.creds[c].email == op.email ==> OwnsEmail(w.creds, c, op.email);
      assert Bootstraps(w, op, op.id);
      EnrolmentExplained(ops, w, op.id, Account(op.username, op.email, "admin"));
    }
  }

  lemma UserStepExplained(ops: seq<Op>, w: World, op: Op)
    requires op.OpUpdate? || op.OpRole? || op.OpDelete?
    requires RolesExplained(w, ops) && op in ops
    ensures RolesExplained(Perform(w, op), ops)
  {
    var v := Perform(w, op);
    if v.log != w.log {
      assert EventExplained(ops, Last(v.log));
      LogGrowsExplained(ops, w.log, Last(v.log));
    }
  }

  lemma TakeExplained(ops: seq<Op>, w: World, op: Op)
    requires op.TakeCreated? || op.TakeUpdated? || op.TakeDeleted?
    requires RolesExplained(w, ops)
    ensures RolesExplained(Perform(w, op), ops)
  {
    if op.TakeCreated? && w.atCreated < |w.log| {
      assert EventExplained(ops, w.log[w.atCreated]);
    } else if op.TakeUpdated? && w.atUpdated < |w.log| {
      assert EventExplained(ops, w.log[w.atUpdated]);
    }
  }

  lemma StepExplained(before: seq<Op>, op: Op)
    requires RolesExplained(Run(EMPTY_WORLD, before), before)
    ensures RolesExplained(Step(Run(EMPTY_WORLD, before), op), before + [op])
  {
    var w, ops := Run(EMPTY_WORLD, before), before + [op];
    ExplainedLater(before, op, w);
    assert ops[|before|] == op;
    if Allowed(w, op) {
      if op.OpRegister? {
        RegistrationExplained(ops, w, op);
      } else if op.OpBootstrap? {
        FrontOfSnoc(before, op);
        BootstrapExplained(ops, w, op);
      } else if op.OpUpdate? || op.OpRole? || op.OpDelete? {
        UserStepExplained(ops, w, op);
      } else if op.TakeCreated? || op.TakeUpdated? || op.TakeDeleted? {
        TakeExplained(ops, w, op);
      }
    }
  }

  /**
   Over every run, every role of a credential, of a profile and of a created event is "user", or "admin" by
   the bootstrap of that account, or one that a call named for that account.
   */
  lemma {:induction false} RunExplainsRoles(ops: seq<Op>)
    ensures RolesExplained(Run(EMPTY_WORLD, ops), ops)
  {
    if ops != [] {
      RunExplainsRoles(Front(ops));
      RunSnoc(EMPTY_WORLD, Front(ops), Last(ops));
      assert ops == Front(ops) + [Last(ops)];
      StepExplained(Front(ops), Last(ops));
    }
  }

  predicate LeavesRoles(op: Op) {
    !op.OpBootstrap? && !op.OpRole?
  }

  lemma {:induction false} NobodyMadeAdmin(ops: seq<Op>, id: Id)
    requires forall op :: op in ops ==> LeavesRoles(op)
    ensures !MadeAdmin(ops, id)
  {
    if ops != [] {
      assert LeavesRoles(Last(ops)) && forall op :: op in Front(ops) ==> op in ops;
      NobodyMadeAdmin(Front(ops), id);
    }
  }

  /** Without the bootstrap and without a call that names a role, everybody is an ordinary user. */
  lemma OthersStayUsers(ops: seq<Op>)
    requires forall op :: op in ops ==> LeavesRoles(op)
    ensures var w := Run(EMPTY_WORLD, ops);
            && (forall id :: id in w.creds ==> w.creds[id].role == "user")
            && (forall id :: id in w.profiles ==> w.profiles[id].account.role == "user")
            && (forall k :: 0 <= k < |w.log| && w.log[k].UserCreated? ==> w.log[k].role == "user")
  {
    RunExplainsRoles(ops);
    forall id, role | RoleExplained(ops, id, role)
      ensures role == "user"
    {
      NobodyMadeAdmin(ops, id);
      assert NamedRole(ops, id, role) ==> !LeavesRoles(OpRole(id, role));
    }
    var log := Run(EMPTY_WORLD, ops).log;
    forall k | 0 <= k < |log| && log[k].UserCreated?
      ensures log[k].role == "user"
    {
      assert EventExplained(ops, log[k]);
    }
  }

  // ----- the answers of the auth service -----

  /** A registration succeeds exactly if no credential has the name or the address, as an ordinary user. */
  lemma RegisterIff(w: World, id: Id, username: string, email: string)
    ensures var (v, r) := Register(w, id, username, email);
            var account := Account(username, email, "user");
            if exists c :: c in w.creds && (w.creds[c].username == username || w.creds[c].email == email)
            then (v, r) == (w, Err(Conflict))
            else r == Ok(account) && v.creds == w.creds[id := account] && v.profiles == w.profiles &&
                 v.log == w.log + [UserCreated(id, username, email, "user")]
  {
  }

  /**
   After any run, the bootstrap makes the owner of the address an admin and nobody else; without an owner
   it enrols a new admin, unless the name is taken.
   */
  lemma BootstrapMakesAdmin(ops: seq<Op>, id: Id, username: string, email: string)
    ensures var w := Run(EMPTY_WORLD, ops);
            var v := Bootstrap(w, id, username, email);
            && v.profiles == w.profiles
            && (forall c :: c in w.creds && w.creds[c].email == email ==>
                  v.creds == w.creds[c := w.creds[c].(role := "admin")] && v.log == w.log)
            && ((forall c :: c in w.creds ==> w.creds[c].email != email) ==>
                  if exists c :: c in w.creds && w.creds[c].username == username then v == w
                  else v.creds == w.creds[id := Account(username, email, "admin")] &&
                       v.log == w.log + [UserCreated(id, username, email, "admin")])
  {
    RunKeepsUniqueColumns(EMPTY_WORLD, ops);
    var w := Run(EMPTY_WORLD, ops);
    if c :| c in w.creds && w.creds[c].email == email {
      assert OwnsEmail(w.creds, c, email);
      assert w.creds[c].role == "admin" ==> w.creds == w.creds[c := w.creds[c].(role := "admin")];
    }
  }

  // ----- the answers of the user service -----

  function OrElse(given: Option<string>, otherwise: string): string {
    match given
    case Some(text) => text
    case None => otherwise
  }

  // The profile exists, and no other has the name or the address it would have.
  ghost predicate Accepts(w: World, id: Id, c: ProfileChange) {
    && id in w.profiles
    && forall other :: other in w.profiles && other != id ==>
         && w.profiles[other].account.username != OrElse(c.username, w.profiles[id].account.username)
         && w.profiles[other].account.email != OrElse(c.email, w.profiles[id].account.email)
  }

  /** What a change of profile writes: the given fields, of this profile only, and one event that gives them. */
  lemma UpdateUserWrites(w: World, id: Id, c: ProfileChange)
    ensures var (v, r) := UpdateUser(w, id, c);
            && (r == Err(Missing) <==> id !in w.profiles)
            && (r.Ok? <==> Accepts(w, id, c))
            && (r.Err? ==> v == w)
            && (r.Ok? ==>
                  var p := w.profiles[id];
                  && r.value.bio == OrElse(c.bio, p.bio)
                  && r.value.account.username == OrElse(c.username, p.account.username)
                  && r.value.account.email == OrElse(c.email, p.account.email)
                  && r.value.account.role == p.account.role
                  && v.profiles == w.profiles[id := r.value] && v.creds == w.creds
                  && v.log == w.log + [UserUpdated(id, c.username, c.email, c.bio, None)])
  {
  }

  /** Naming a role changes the role of that profile, and nothing else but the stream. */
  lemma UpdateUserRoleWrites(w: World, id: Id, role: string)
    ensures var (v, r) := UpdateUserRole(w, id, role);
            if id !in w.profiles then (v, r) == (w, Err(Missing))
            else
              var p := w.profiles[id];
              && r == Ok(Profile(Account(p.account.username, p.account.email, role), p.bio))
              && v.profiles == w.profiles[id := r.value] && v.creds == w.creds
              && v.log == w.log + [UserUpdated(id, None, None, None, Some(role))]
  {
  }

  // The biography last given in an accepted change since the profile was last inserted.
  ghost function LastBio(ops: seq<Op>, id: Id): string {
    if ops == [] then ""
    else
      var w, op := Run(EMPTY_WORLD, Front(ops)), Last(ops);
      if id !in w.profiles then ""
      else if op.OpUpdate? && op.id == id && op.change.bio.Some? && Accepts(w, id, op.change) &&
              op.change.username != Some("") && op.change.email != Some("")
      then op.change.bio.value
      else LastBio(Front(ops), id)
  }

  lemma OtherStepsKeepBio(w: World, op: Op, id: Id)
    requires !op.OpUpdate?
    ensures var profiles := Step(w, op).profiles;
            id in profiles ==> profiles[id].bio == if id in w.profiles then w.profiles[id].bio else ""
  {
  }

  /** Over every run, a profile shows the biography that was last given. */
  lemma {:induction false} ProfileShowsLastBio(ops: seq<Op>, id: Id)
    ensures var profiles := Run(EMPTY_WORLD, ops).profiles;
            id in profiles ==> profiles[id].bio == LastBio(ops, id)
  {
    if ops != [] {
      var w, op := Run(EMPTY_WORLD, Front(ops)), Last(ops);
      ProfileShowsLastBio(Front(ops), id);
      RunSnoc(EMPTY_WORLD, Front(ops), op);
      assert ops == Front(ops) + [op];
      if op.OpUpdate? {
        UpdateUserWrites(w, op.id, op.change);
      } else {
        OtherStepsKeepBio(w, op, id);
      }
    }
  }
}
