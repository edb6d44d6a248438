/** What every run of the two account services keeps: the copies differ by the pending updates only. */
module Replication {
  import opened Basics
  import opened Events
  import opened Identity
  import Slugs
  import opened Text

  datatype Field = FName | FEmail | FRole

  function Of(a: Account, f: Field): string {
    match f
    case FName => a.username
    case FEmail => a.email
    case FRole => a.role
  }

  function NewValue(e: Event, f: Field): Option<string>
    requires e.UserUpdated?
  {
    match f
    case FName => e.newName
    case FEmail => e.newEmail
    case FRole => e.newRole
  }

  // The account after the updates of one id from a position on, in order.
  function Pending(a: Account, log: seq<Event>, from: nat, id: Id): Account
    decreases |log| - from
  {
    if from >= |log| then a
    else Pending(if Is(log[from], KUpdated, id) then Merge(a, log[from]) else a, log, from + 1, id)
  }

  // The last value that an update of this id gives to a field from a position on.
  function Latest(log: seq<Event>, from: nat, id: Id, f: Field): Option<string>
    decreases |log| - from
  {
    if from >= |log| then None
    else
      var later := Latest(log, from + 1, id, f);
      if later.Some? then later
      else if Is(log[from], KUpdated, id) && Given(NewValue(log[from], f)) then NewValue(log[from], f)
      else None
  }

  function Resolve(a: Account, log: seq<Event>, from: nat, id: Id, f: Field): string {
    Or(Latest(log, from, id, f), Of(a, f))
  }

  /** Applying the updates in order leaves in each field the last value given to it. */
  lemma {:induction false} PendingIsLastWriter(a: Account, log: seq<Event>, from: nat, id: Id, f: Field)
    ensures Of(Pending(a, log, from, id), f) == Resolve(a, log, from, id, f)
    decreases |log| - from
  {
    if from < |log| {
      var b := if Is(log[from], KUpdated, id) then Merge(a, log[from]) else a;
      PendingIsLastWriter(b, log, from + 1, id, f);
    }
  }

  // ----- appending to the stream -----

  lemma {:induction false} OccursAppend(log: seq<Event>, e: Event, from: nat, kind: Kind, id: Id)
    requires from <= |log|
    ensures Occurs(log + [e], from, kind, id) <==> Occurs(log, from, kind, id) || Is(e, kind, id)
    decreases |log| - from
  {
    if from < |log| {
      OccursAppend(log, e, from + 1, kind, id);
      assert (log + [e])[from] == log[from];
    } else {
      assert (log + [e])[from] == e;
      assert !Occurs(log + [e], from + 1, kind, id);
    }
  }

  lemma {:induction false} LatestAppend(log: seq<Event>, e: Event, from: nat, id: Id, f: Field)
    requires from <= |log|
    ensures Latest(log + [e], from, id, f) ==
            if Is(e, KUpdated, id) && Given(NewValue(e, f)) then NewValue(e, f) else Latest(log, from, id, f)
    decreases |log| - from
  {
    if from < |log| {
      LatestAppend(log, e, from + 1, id, f);
      assert (log + [e])[from] == log[from];
    } else {
      assert (log + [e])[from] == e;
      assert Latest(log + [e], from + 1, id, f) == None;
    }
  }

  lemma {:induction false} OccursEarlier(log: seq<Event>, early: nat, late: nat, kind: Kind, id: Id)
    requires early <= late && Occurs(log, late, kind, id)
    ensures Occurs(log, early, kind, id)
    decreases late - early
  {
    if early < late {
      OccursEarlier(log, early + 1, late, kind, id);
    }
  }

  lemma {:induction false} OccursAt(log: seq<Event>, from: nat, k: nat, kind: Kind, id: Id)
    requires from <= k < |log| && Is(log[k], kind, id)
    ensures Occurs(log, from, kind, id)
  {
    OccursEarlier(log, from, k, kind, id);
  }

  lemma {:induction false} OccursWhere(log: seq<Event>, from: nat, kind: Kind, id: Id) returns (k: nat)
    requires Occurs(log, from, kind, id)
    ensures from <= k < |log| && Is(log[k], kind, id)
    decreases |log| - from
  {
    if Is(log[from], kind, id) {
      k := from;
    } else {
      k := OccursWhere(log, from + 1, kind, id);
    }
  }

  lemma {:induction false} LatestNeedsUpdate(log: seq<Event>, from: nat, id: Id, f: Field)
    ensures Latest(log, from, id, f).Some? ==> Occurs(log, from, KUpdated, id)
    decreases |log| - from
  {
    if from < |log| {
      LatestNeedsUpdate(log, from + 1, id, f);
    }
  }

  /** A given value at position k is what an earlier start resolves to, unless a later one follows. */
  lemma {:induction false} LatestSkips(log: seq<Event>, from: nat, k: nat, id: Id, f: Field)
    requires from <= k < |log|
    ensures Latest(log, k, id, f).Some? ==> Latest(log, from, id, f) == Latest(log, k, id, f)
    ensures Is(log[k], KUpdated, id) && Given(NewValue(log[k], f)) ==> Latest(log, from, id, f).Some?
    decreases k - from
  {
    if from < k {
      LatestSkips(log, from + 1, k, id, f);
    }
  }

  // ----- the invariant of one account -----

  // After the updates from any position the consumer may resume at, the field equals the profile's.
  ghost predicate InSync(w: World, id: Id, f: Field)
    requires id in w.creds && id in w.profiles
  {
    forall from: nat :: from <= w.atUpdated ==>
      (f == FRole && id in w.promoted && Latest(w.log, from, id, f).None?) ||
      Resolve(w.creds[id], w.log, from, id, f) == Of(w.profiles[id].account, f)
  }

  predicate MatchesCreated(w: World, id: Id, e: Event)
    requires id in w.creds && e.UserCreated?
  {
    && e.username == w.creds[id].username && e.email == w.creds[id].email
    && e.role != "" && (e.role == w.creds[id].role || id in w.promoted)
  }

  ghost predicate AccountInv(w: World, id: Id) {
    var created := Occurs(w.log, 0, KCreated, id);
    var updated := Occurs(w.log, 0, KUpdated, id);
    var deleted := Occurs(w.log, 0, KDeleted, id);
    && (id !in w.drawn ==> id !in w.creds && id !in w.profiles && !created && !updated && !deleted)
    && (id in w.creds ==> created)
    && (deleted ==> id !in w.profiles)
    && (Occurs(w.log, w.atCreated, KCreated, id) ==> !deleted)
    && (id in w.profiles ==> id in w.creds && InSync(w, id, FName) && InSync(w, id, FEmail) && InSync(w, id, FRole))
    && (created && id !in w.profiles && !deleted ==>
          && id in w.creds && !updated
          && forall k :: 0 <= k < |w.log| && Is(w.log[k], KCreated, id) ==> MatchesCreated(w, id, w.log[k]))
    && (id in w.creds && deleted ==> Occurs(w.log, w.atDeleted, KDeleted, id))
    && (id in w.creds && id !in w.profiles ==>
          Occurs(w.log, w.atCreated, KCreated, id) || Occurs(w.log, w.atDeleted, KDeleted, id) || id in w.ignored)
  }

  predicate PositionsInv(w: World) {
    w.atCreated <= |w.log| && w.atUpdated <= |w.log| && w.atDeleted <= |w.log|
  }

  // ----- calls of the services -----

  lemma EnrolKeeps(w: World, newcomer: Id, a: Account, id: Id)
    requires PositionsInv(w) && AccountInv(w, id) && AccountInv(w, newcomer) && newcomer !in w.drawn && a.role != ""
    ensures AccountInv(Enrol(w, newcomer, a), id)
  {
    var e := UserCreated(newcomer, a.username, a.email, a.role);
    AppendIsSeen(w, e, id);
    forall k | 0 <= k < |w.log| && Is(w.log[k], KCreated, id)
      ensures Occurs(w.log, 0, KCreated, id)
    {
      OccursAt(w.log, 0, k, KCreated, id);
    }
    if id in w.profiles {
      AppendKeepsSync(w, Enrol(w, newcomer, a), e, id);
    }
  }

  // The append lemmas, at all positions that the invariant mentions.
  lemma AppendIsSeen(w: World, e: Event, id: Id)
    requires PositionsInv(w)
    ensures forall kind :: Occurs(w.log + [e], 0, kind, id) <==> Occurs(w.log, 0, kind, id) || Is(e, kind, id)
    ensures Occurs(w.log + [e], w.atCreated, KCreated, id) <==>
            Occurs(w.log, w.atCreated, KCreated, id) || Is(e, KCreated, id)
    ensures Occurs(w.log + [e], w.atDeleted, KDeleted, id) <==>
            Occurs(w.log, w.atDeleted, KDeleted, id) || Is(e, KDeleted, id)
  {
    forall kind
      ensures Occurs(w.log + [e], 0, kind, id) <==> Occurs(w.log, 0, kind, id) || Is(e, kind, id)
    {
      OccursAppend(w.log, e, 0, kind, id);
    }
    OccursAppend(w.log, e, w.atCreated, KCreated, id);
    OccursAppend(w.log, e, w.atDeleted, KDeleted, id);
  }

  // An event about nobody's update leaves the synchronization of an account as it is.
  lemma AppendKeepsSync(w: World, v: World, e: Event, id: Id)
    requires PositionsInv(w) && v.log == w.log + [e] && v.atUpdated == w.atUpdated && v.promoted == w.promoted
    requires id in w.creds && id in w.profiles && id in v.creds && id in v.profiles
    requires v.creds[id] == w.creds[id] && v.profiles[id].account == w.profiles[id].account
    requires !Is(e, KUpdated, id)
    ensures forall f :: InSync(w, id, f) ==> InSync(v, id, f)
  {
    forall f, from: nat | from <= w.atUpdated
      ensures Latest(v.log, from, id, f) == Latest(w.log, from, id, f)
    {
      LatestAppend(w.log, e, from, id, f);
    }
  }

  lemma PromoteKeeps(w: World, owner: Id, id: Id)
    requires PositionsInv(w) && AccountInv(w, id) && owner in w.creds
    ensures AccountInv(Promote(w, owner), id)
  {
    var v := Promote(w, owner);
    if id in w.profiles {
      assert InSync(w, id, FName) && InSync(w, id, FEmail) && InSync(w, id, FRole);
      assert InSync(v, id, FName) && InSync(v, id, FEmail);
      forall from: nat | from <= v.atUpdated
        ensures (id in v.promoted && Latest(v.log, from, id, FRole).None?) ||
                Resolve(v.creds[id], v.log, from, id, FRole) == Of(v.profiles[id].account, FRole)
      {
      }
    }
  }

  // A published update changes profile and pending events alike.
  lemma UpdateKeepsSync(w: World, v: World, e: Event, id: Id, f: Field)
    requires PositionsInv(w) && v.log == w.log + [e] && v.atUpdated == w.atUpdated && v.promoted == w.promoted
    requires id in w.creds && id in w.profiles && id in v.creds && id in v.profiles
    requires v.creds[id] == w.creds[id] && InSync(w, id, f) && Is(e, KUpdated, id)
    requires Of(v.profiles[id].account, f) ==
             if Given(NewValue(e, f)) then NewValue(e, f).value else Of(w.profiles[id].account, f)
    ensures InSync(v, id, f)
  {
    forall from: nat | from <= w.atUpdated
      ensures (f == FRole && id in v.promoted && Latest(v.log, from, id, f).None?) ||
              Resolve(v.creds[id], v.log, from, id, f) == Of(v.profiles[id].account, f)
    {
      LatestAppend(w.log, e, from, id, f);
    }
  }

  lemma ProfileChangeKeeps(w: World, v: World, e: Event, who: Id, id: Id)
    requires PositionsInv(w) && AccountInv(w, id) && who in w.profiles && Is(e, KUpdated, who)
    requires v == w.(log := w.log + [e], profiles := v.profiles)
    requires v.profiles.Keys == w.profiles.Keys
    requires forall other :: other in w.profiles && other != who ==> v.profiles[other] == w.profiles[other]
    requires forall f :: Of(v.profiles[who].account, f) ==
               if Given(NewValue(e, f)) then NewValue(e, f).value else Of(w.profiles[who].account, f)
    ensures AccountInv(v, id)
  {
    AppendIsSeen(w, e, id);
    if id == who {
      UpdateKeepsSync(w, v, e, id, FName);
      UpdateKeepsSync(w, v, e, id, FEmail);
      UpdateKeepsSync(w, v, e, id, FRole);
    } else if id in w.profiles {
      AppendKeepsSync(w, v, e, id);
    }
  }

  lemma UpdateUserKeeps(w: World, who: Id, c: ProfileChange, id: Id)
    requires PositionsInv(w) && AccountInv(w, id) && WellFormed(c)
    ensures AccountInv(UpdateUser(w, who, c).0, id)
  {
    var v := UpdateUser(w, who, c).0;
    if v != w {
      ProfileChangeKeeps(w, v, UserUpdated(who, c.username, c.email, c.bio, None), who, id);
    }
  }

  lemma UpdateUserRoleKeeps(w: World, who: Id, role: string, id: Id)
    requires PositionsInv(w) && AccountInv(w, id) && role != ""
    ensures AccountInv(UpdateUserRole(w, who, role).0, id)
  {
    if who in w.profiles {
      ProfileChangeKeeps(w, UpdateUserRole(w, who, role).0, UserUpdated(who, None, None, None, Some(role)), who, id);
    }
  }

  lemma DeleteUserKeeps(w: World, who: Id, id: Id)
    requires PositionsInv(w) && AccountInv(w, id)
    requires !Occurs(w.log, w.atCreated, KCreated, who)
    ensures AccountInv(DeleteUser(w, who).0, id)
  {
    if who in w.profiles {
      var e := UserDeleted(who);
      AppendIsSeen(w, e, id);
      var v := DeleteUser(w, who).0;
      if id in v.profiles {
        AppendKeepsSync(w, v, e, id);
      }
    }
  }

  // ----- the three consumers -----

  lemma TakeCreatedKeeps(w: World, id: Id)
    requires PositionsInv(w) && AccountInv(w, id)
    ensures AccountInv(DeliverCreated(w), id)
  {
    var v := DeliverCreated(w);
    if w.atCreated < |w.log| {
      var e := w.log[w.atCreated];
      if Is(e, KCreated, id) {
        OccursAt(w.log, 0, w.atCreated, KCreated, id);
        if id !in w.profiles && id in v.profiles {
          assert MatchesCreated(w, id, e);
          NewProfileInSync(w, v, id);
        }
      }
      if id in w.profiles {
        assert v.profiles[id] == w.profiles[id];
        assert forall f :: InSync(w, id, f) ==> InSync(v, id, f);
      }
    }
  }

  // A profile that was just inserted equals its credential, and no update of it exists yet.
  lemma NewProfileInSync(w: World, v: World, id: Id)
    requires id in w.creds && id in v.profiles && v.creds == w.creds && v.log == w.log && v.promoted == w.promoted
    requires !Occurs(w.log, 0, KUpdated, id)
    requires v.profiles[id].account.username == w.creds[id].username
    requires v.profiles[id].account.email == w.creds[id].email
    requires v.profiles[id].account.role == w.creds[id].role || id in w.promoted
    ensures InSync(v, id, FName) && InSync(v, id, FEmail) && InSync(v, id, FRole)
  {
    forall f, from: nat
      ensures Latest(w.log, from, id, f) == None
    {
      LatestNeedsUpdate(w.log, from, id, f);
      if Occurs(w.log, from, KUpdated, id) {
        OccursEarlier(w.log, 0, from, KUpdated, id);
      }
    }
  }

  lemma MergeKeepsField(w: World, v: World, id: Id, f: Field, from: nat)
    requires id in w.creds && id in w.profiles && id in v.creds && id in v.profiles
    requires w.atUpdated < |w.log| && Is(w.log[w.atUpdated], KUpdated, id) && from <= w.atUpdated + 1
    requires v.log == w.log && v.profiles == w.profiles && v.creds[id] == Merge(w.creds[id], w.log[w.atUpdated])
    requires v.promoted == if Given(w.log[w.atUpdated].newRole) then w.promoted - {id} else w.promoted
    requires InSync(w, id, f)
    ensures (f == FRole && id in v.promoted && Latest(v.log, from, id, f).None?) ||
            Resolve(v.creds[id], v.log, from, id, f) == Of(v.profiles[id].account, f)
  {
    var c := w.atUpdated;
    if from <= c {
      LatestSkips(w.log, from, c, id, f);
    }
    assert Resolve(w.creds[id], w.log, c, id, f) == Of(w.profiles[id].account, f) ||
           (f == FRole && id in w.promoted && Latest(w.log, c, id, f).None?);
  }

  lemma TakeUpdatedKeeps(w: World, id: Id)
    requires PositionsInv(w) && AccountInv(w, id)
    ensures AccountInv(DeliverUpdated(w), id)
  {
    var v := DeliverUpdated(w);
    if v != w {
      var e := w.log[w.atUpdated];
      if Is(e, KUpdated, id) && id in w.creds {
        OccursAt(w.log, 0, w.atUpdated, KUpdated, id);
        if id in w.profiles {
          forall f, from: nat | InSync(w, id, f) && from <= v.atUpdated
            ensures (f == FRole && id in v.promoted && Latest(v.log, from, id, f).None?) ||
                    Resolve(v.creds[id], v.log, from, id, f) == Of(v.profiles[id].account, f)
          {
            MergeKeepsField(w, v, id, f, from);
          }
          assert InSync(v, id, FName) && InSync(v, id, FEmail) && InSync(v, id, FRole);
        }
      } else if id in w.profiles {
        forall f | InSync(w, id, f)
          ensures InSync(v, id, f)
        {
          OtherMessageKeepsSync(w, v, id, f);
        }
      }
    }
  }

  lemma OtherMessageKeepsSync(w: World, v: World, id: Id, f: Field)
    requires id in w.creds && id in w.profiles && id in v.creds && id in v.profiles
    requires w.atUpdated < |w.log| && !Is(w.log[w.atUpdated], KUpdated, id) && v.atUpdated == w.atUpdated + 1
    requires v.log == w.log && v.profiles == w.profiles && v.creds[id] == w.creds[id]
    requires id in v.promoted <==> id in w.promoted
    requires InSync(w, id, f)
    ensures InSync(v, id, f)
  {
    assert Latest(w.log, w.atUpdated, id, f) == Latest(w.log, w.atUpdated + 1, id, f);
  }

  lemma TakeDeletedKeeps(w: World, id: Id)
    requires PositionsInv(w) && AccountInv(w, id)
    ensures AccountInv(DeliverDeleted(w), id)
  {
    var v := DeliverDeleted(w);
    if w.atDeleted < |w.log| {
      if Is(w.log[w.atDeleted], KDeleted, id) {
        OccursAt(w.log, 0, w.atDeleted, KDeleted, id);
      }
      if id in v.profiles {
        assert v.creds[id] == w.creds[id];
        assert forall f :: InSync(w, id, f) ==> InSync(v, id, f);
      }
    }
  }

  // Redelivery of updates and deletions, from however early a position, is harmless.
  lemma RestartUpdatedKeeps(w: World, from: nat, id: Id)
    requires from <= w.atUpdated && AccountInv(w, id)
    ensures AccountInv(w.(atUpdated := from), id)
  {
    var v := w.(atUpdated := from);
    if id in w.profiles {
      assert forall f :: InSync(w, id, f) ==> InSync(v, id, f);
    }
  }

  lemma RestartDeletedKeeps(w: World, from: nat, id: Id)
    requires from <= w.atDeleted && AccountInv(w, id)
    ensures AccountInv(w.(atDeleted := from), id)
  {
    var v := w.(atDeleted := from);
    if Occurs(w.log, w.atDeleted, KDeleted, id) {
      OccursEarlier(w.log, from, w.atDeleted, KDeleted, id);
    }
    if id in w.profiles {
      assert forall f :: InSync(w, id, f) ==> InSync(v, id, f);
    }
  }

  lemma RestartCreatedKeeps(w: World, from: nat, id: Id)
    requires PositionsInv(w) && from <= w.atCreated && NoneDeletedSince(w, from) && AccountInv(w, id)
    ensures AccountInv(w.(atCreated := from), id)
  {
    var v := w.(atCreated := from);
    if Occurs(w.log, w.atCreated, KCreated, id) {
      OccursEarlier(w.log, from, w.atCreated, KCreated, id);
    }
    if Occurs(w.log, from, KCreated, id) {
      var k := OccursWhere(w.log, from, KCreated, id);
      if k >= w.atCreated {
        OccursAt(w.log, w.atCreated, k, KCreated, id);
      }
    }
    if id in w.profiles {
      assert forall f :: InSync(w, id, f) ==> InSync(v, id, f);
    }
  }

  // ----- runs -----

  ghost predicate Inv(w: World) {
    PositionsInv(w) && forall id :: AccountInv(w, id)
  }

  lemma StepKeepsAccount(w: World, op: Op, id: Id)
    requires Inv(w) && Allowed(w, op)
    ensures AccountInv(Perform(w, op), id)
  {
    assert AccountInv(w, id);
    match op
    case OpRegister(newcomer, username, email) =>
      if !CredentialTaken(w.creds, username, email) {
        assert AccountInv(w, newcomer);
        EnrolKeeps(w, newcomer, Account(username, email, USER_ROLE), id);
      }
    case OpBootstrap(newcomer, username, email) =>
      assert AccountInv(w, newcomer);
      BootstrapKeeps(w, newcomer, username, email, id);
    case OpUpdate(who, c) => UpdateUserKeeps(w, who, c, id);
    case OpRole(who, role) => UpdateUserRoleKeeps(w, who, role, id);
    case OpDelete(who) => DeleteUserKeeps(w, who, id);
    case TakeCreated => TakeCreatedKeeps(w, id);
    case TakeUpdated => TakeUpdatedKeeps(w, id);
    case TakeDeleted => TakeDeletedKeeps(w, id);
    case RestartCreated(from) => RestartCreatedKeeps(w, from, id);
    case RestartUpdated(from) => RestartUpdatedKeeps(w, from, id);
    case RestartDeleted(from) => RestartDeletedKeeps(w, from, id);
  }

  lemma BootstrapKeeps(w: World, newcomer: Id, username: string, email: string, id: Id)
    requires PositionsInv(w) && AccountInv(w, id) && AccountInv(w, newcomer) && newcomer !in w.drawn
    ensures AccountInv(Bootstrap(w, newcomer, username, email), id)
  {
    if exists owner :: OwnsEmail(w.creds, owner, email) {
      var v := Bootstrap(w, newcomer, username, email);
      var owner :| OwnsEmail(w.creds, owner, email) && v == Promote(w, owner);
      PromoteKeeps(w, owner, id);
    } else if !CredentialTaken(w.creds, username, email) {
      EnrolKeeps(w, newcomer, Account(username, email, ADMIN_ROLE), id);
    }
  }

  lemma StepKeepsPositions(w: World, op: Op)
    requires PositionsInv(w)
    ensures PositionsInv(Step(w, op))
  {
  }

  lemma {:induction false} RunKeepsInv(w: World, ops: seq<Op>)
    requires Inv(w)
    ensures Inv(Run(w, ops))
    decreases |ops|
  {
    if ops != [] {
      var op := ops[0];
      StepKeepsPositions(w, op);
      forall id
        ensures AccountInv(Step(w, op), id)
      {
        assert AccountInv(w, id);
        if Allowed(w, op) {
          StepKeepsAccount(w, op, id);
        }
      }
      RunKeepsInv(Step(w, op), ops[1..]);
    }
  }

  lemma EmptyWorldInv()
    ensures Inv(EMPTY_WORLD)
  {
  }

  /**
   Replication, over every run and every interleaving of the three consumers with the calls: the
   pending updates, applied in order to the credential of an account, give its profile. Only the role
   can differ, after a bootstrap promotion that no later role change has overwritten.
   */
  lemma CopiesDifferByPendingUpdates(ops: seq<Op>, id: Id)
    ensures var w := Run(EMPTY_WORLD, ops);
            id in w.profiles ==>
              && id in w.creds
              && var a := Pending(w.creds[id], w.log, w.atUpdated, id);
                 var p := w.profiles[id].account;
                 && a.username == p.username && a.email == p.email
                 && (a.role == p.role ||
                     (id in w.promoted && Latest(w.log, w.atUpdated, id, FRole).None?))
  {
    EmptyWorldInv();
    RunKeepsInv(EMPTY_WORLD, ops);
    var w := Run(EMPTY_WORLD, ops);
    assert AccountInv(w, id);
    if id in w.profiles {
      PendingIsLastWriter(w.creds[id], w.log, w.atUpdated, id, FName);
      PendingIsLastWriter(w.creds[id], w.log, w.atUpdated, id, FEmail);
      PendingIsLastWriter(w.creds[id], w.log, w.atUpdated, id, FRole);
      assert InSync(w, id, FName) && InSync(w, id, FEmail) && InSync(w, id, FRole);
    }
  }

  /**
   A credential without a profile is explained: its created event or a deleted event is still to be
   delivered, or its created event met a conflict. So without pending events there are as many
   profiles as credentials, except for the conflicts.
   */
  lemma LoneCredentialIsExplained(ops: seq<Op>, id: Id)
    ensures var w := Run(EMPTY_WORLD, ops);
            id in w.creds && id !in w.profiles ==>
              Occurs(w.log, w.atCreated, KCreated, id) || Occurs(w.log, w.atDeleted, KDeleted, id) || id in w.ignored
  {
    EmptyWorldInv();
    RunKeepsInv(EMPTY_WORLD, ops);
    assert AccountInv(Run(EMPTY_WORLD, ops), id);
  }

  lemma {:induction false} DeletedStays(w: World, ops: seq<Op>, id: Id)
    requires Inv(w) && Occurs(w.log, 0, KDeleted, id)
    ensures Occurs(Run(w, ops).log, 0, KDeleted, id)
    decreases |ops|
  {
    if ops != [] {
      var v := Step(w, ops[0]);
      RunKeepsInv(w, [ops[0]]);
      assert Run(v, []) == v && [ops[0]][1..] == [];
      if v.log != w.log {
        assert v.log == w.log + [Last(v.log)];
        OccursAppend(w.log, Last(v.log), 0, KDeleted, id);
      }
      DeletedStays(v, ops[1..], id);
    }
  }

  /** A deleted account never comes back: once the deletion is published there is no profile again. */
  lemma DeletedAccountStaysDeleted(w: World, ops: seq<Op>, id: Id)
    requires Inv(w) && Occurs(w.log, 0, KDeleted, id)
    ensures id !in Run(w, ops).profiles
  {
    RunKeepsInv(w, ops);
    DeletedStays(w, ops, id);
    assert AccountInv(Run(w, ops), id);
  }

  // ----- where the two conditions on the created consumer come from -----

  // A profile that has the name or the address an insertion needs.
  function Holders(profiles: map<Id, Profile>, except: Id, username: string, email: string): set<Id> {
    set id | id in profiles && id != except &&
             (profiles[id].account.email == email || profiles[id].account.username == username)
  }

  function Texts(profiles: map<Id, Profile>): set<string> {
    (set id | id in profiles :: profiles[id].account.username) + (set id | id in profiles :: profiles[id].account.email)
  }

  // Some nonempty text that is no name and no address so far.
  lemma UnusedText(used: set<string>) returns (text: string)
    ensures text != "" && text !in used
  {
    text := Slugs.UniqueSlug(used, "x");
  }

  lemma RenameFrees(w: World, holder: Id, except: Id, username: string, email: string, text: string)
    requires holder in Holders(w.profiles, except, username, email)
    requires text != "" && text !in Texts(w.profiles) + {username, email}
    ensures var c := ProfileChange(Some(text), Some(text), None);
            var v := Step(w, OpUpdate(holder, c));
            && v.log == w.log + [UserUpdated(holder, Some(text), Some(text), None, None)]
            && v.atCreated == w.atCreated && v.profiles.Keys == w.profiles.Keys
            && Holders(v.profiles, except, username, email) == Holders(w.profiles, except, username, email) - {holder}
  {
    var p := Changed(w.profiles[holder], ProfileChange(Some(text), Some(text), None));
    assert !ProfileTaken(w.profiles, holder, p.account.username, p.account.email) by {
      forall id | id in w.profiles
        ensures w.profiles[id].account.email != text && w.profiles[id].account.username != text
      {
        assert w.profiles[id].account.username in Texts(w.profiles);
      }
    }
  }

  // A run that renames all holders, so that nothing stands in the way of the insertion any more.
  lemma {:induction false} FreeTexts(w: World, except: Id, username: string, email: string) returns (ops: seq<Op>)
    ensures var v := Run(w, ops);
            && w.log <= v.log && v.atCreated == w.atCreated && v.profiles.Keys == w.profiles.Keys
            && Holders(v.profiles, except, username, email) == {}
    decreases Holders(w.profiles, except, username, email)
  {
    var holders := Holders(w.profiles, except, username, email);
    if holders == {} {
      ops := [];
    } else {
      var holder :| holder in holders;
      var text := UnusedText(Texts(w.profiles) + {username, email});
      var op := OpUpdate(holder, ProfileChange(Some(text), Some(text), None));
      RenameFrees(w, holder, except, username, email, text);
      var rest := FreeTexts(Step(w, op), except, username, email);
      ops := [op] + rest;
      assert ops[1..] == rest;
    }
  }

  lemma {:induction false} RunConcat(w: World, first: seq<Op>, second: seq<Op>)
    ensures Run(w, first + second) == Run(Run(w, first), second)
    decreases |first|
  {
    if first == [] {
      assert first + second == second;
    } else {
      RunConcat(Step(w, first[0]), first[1..], second);
      assert (first + second)[1..] == first[1..] + second;
    }
  }

  lemma FreeInsertionHappens(w: World, id: Id)
    requires w.atCreated < |w.log| && Is(w.log[w.atCreated], KCreated, id)
    requires Holders(w.profiles, id, w.log[w.atCreated].username, w.log[w.atCreated].email) == {}
    ensures id in DeliverCreated(w).profiles && DeliverCreated(w).log == w.log
  {
    var e := w.log[w.atCreated];
    assert !ProfileTaken(w.profiles, id, e.username, e.email) by {
      forall other | other in w.profiles && other != id
        ensures w.profiles[other].account.email != e.email && w.profiles[other].account.username != e.username
      {
        assert other !in Holders(w.profiles, id, e.username, e.email);
      }
    }
  }

  // A run that delivers up to the created event at position k and gives the account a profile.
  lemma {:induction false} ReachProfile(w: World, k: nat, id: Id) returns (ops: seq<Op>)
    requires w.atCreated <= k < |w.log| && Is(w.log[k], KCreated, id)
    ensures w.log <= Run(w, ops).log && id in Run(w, ops).profiles
    decreases k - w.atCreated
  {
    if w.atCreated < k {
      var rest := ReachProfile(DeliverCreated(w), k, id);
      ops := [TakeCreated] + rest;
      assert ops[1..] == rest && Step(w, TakeCreated) == DeliverCreated(w);
    } else {
      var e := w.log[k];
      var renames := FreeTexts(w, id, e.username, e.email);
      var v := Run(w, renames);
      assert v.log[k] == e;
      FreeInsertionHappens(v, id);
      ops := renames + [TakeCreated];
      RunConcat(w, renames, [TakeCreated]);
      assert Run(v, [TakeCreated]) == Run(Step(v, TakeCreated), [TakeCreated][1..]);
      assert Step(v, TakeCreated) == DeliverCreated(v);
    }
  }

  // No run from here gives a deleted account a profile.
  ghost predicate NeverRevived(w: World) {
    forall ops, id :: Occurs(Run(w, ops).log, 0, KDeleted, id) ==> id !in Run(w, ops).profiles
  }

  lemma OccursInLonger(log: seq<Event>, more: seq<Event>, kind: Kind, id: Id)
    requires log <= more && Occurs(log, 0, kind, id)
    ensures Occurs(more, 0, kind, id)
  {
    var k := OccursWhere(log, 0, kind, id);
    OccursAt(more, 0, k, kind, id);
  }

  lemma InvNeverRevives(w: World)
    requires Inv(w)
    ensures NeverRevived(w)
  {
    forall ops, id | Occurs(Run(w, ops).log, 0, KDeleted, id)
      ensures id !in Run(w, ops).profiles
    {
      RunKeepsInv(w, ops);
      assert AccountInv(Run(w, ops), id);
    }
  }

  /**
   Going back with the created consumer: no later run gives a deleted account a profile exactly if no
   account that is passed again was deleted.
   */
  lemma RestartRevivesNoneIff(w: World, from: nat)
    requires Inv(w) && from <= w.atCreated
    ensures NeverRevived(w.(atCreated := from)) <==> NoneDeletedSince(w, from)
  {
    var v := w.(atCreated := from);
    if NoneDeletedSince(w, from) {
      forall id
        ensures AccountInv(v, id)
      {
        assert AccountInv(w, id);
        RestartCreatedKeeps(w, from, id);
      }
      InvNeverRevives(v);
    } else {
      var k :| from <= k < w.atCreated && k < |w.log| && w.log[k].UserCreated? &&
               Occurs(w.log, 0, KDeleted, w.log[k].userId);
      var id := w.log[k].userId;
      var ops := ReachProfile(v, k, id);
      OccursInLonger(w.log, Run(v, ops).log, KDeleted, id);
    }
  }

  /**
   Deleting an account: no later run gives it a profile again exactly if its created event does not
   await redelivery.
   */
  lemma DeleteIsFinalIff(w: World, who: Id)
    requires Inv(w) && who in w.profiles
    ensures (forall ops :: who !in Run(DeleteUser(w, who).0, ops).profiles) <==>
            !Occurs(w.log, w.atCreated, KCreated, who)
  {
    var v := DeleteUser(w, who).0;
    OccursAt(v.log, 0, |w.log|, KDeleted, who);
    if !Occurs(w.log, w.atCreated, KCreated, who) {
      forall id
        ensures AccountInv(v, id)
      {
        assert AccountInv(w, id);
        DeleteUserKeeps(w, who, id);
      }
      forall ops
        ensures who !in Run(v, ops).profiles
      {
        DeletedAccountStaysDeleted(v, ops, who);
      }
    } else {
      var k := OccursWhere(w.log, w.atCreated, KCreated, who);
      assert v.log[k] == w.log[k];
      var ops := ReachProfile(v, k, who);
    }
  }

  /**
   Without the conditions: the user service inserts a profile, stops before acknowledging the event,
   the account is deleted, and the redelivered event inserts the profile again. Once the deletion has
   reached the auth service, the profile has no credential.
   */
  lemma RedeliveryRevivesAccount()
    ensures var w1 := Register(EMPTY_WORLD, 0, "ann", "a@x").0;
            var w2 := DeliverCreated(w1);
            var w3 := DeleteUser(w2, 0).0;
            var w4 := w3.(atCreated := 0);
            var w5 := DeliverDeleted(DeliverDeleted(DeliverCreated(w4)));
            w2.atCreated == 1 && 0 in w2.profiles && 0 !in w3.profiles && 0 in w5.profiles && 0 !in w5.creds
  {
  }

  // ----- when nothing is pending -----

  /**
   Convergence: once the three consumers have read the whole stream, every profile has its credential
   with the same name and address, and every credential has its profile unless a conflict ate it.
   */
  lemma DrainedCopiesAgree(ops: seq<Op>, id: Id)
    ensures var w := Run(EMPTY_WORLD, ops);
            w.atCreated == |w.log| && w.atUpdated == |w.log| && w.atDeleted == |w.log| ==>
              && (id in w.profiles ==>
                    && id in w.creds
                    && w.creds[id].username == w.profiles[id].account.username
                    && w.creds[id].email == w.profiles[id].account.email
                    && (w.creds[id].role == w.profiles[id].account.role || id in w.promoted))
              && (id in w.creds ==> id in w.profiles || id in w.ignored)
  {
    CopiesDifferByPendingUpdates(ops, id);
    LoneCredentialIsExplained(ops, id);
  }

  // ----- when nothing stays pending -----

  // The updated consumer takes its next n messages, or the same one again when it is refused.
  function TakeUpdates(w: World, n: nat): World
    decreases n
  {
    if n == 0 then w else TakeUpdates(DeliverUpdated(w), n - 1)
  }

  // None of the pending updates, applied in order, meets a name or an address that another credential has.
  predicate NoCollisionAhead(creds: map<Id, Account>, log: seq<Event>, from: nat)
    decreases |log| - from
  {
    from < |log| ==>
      var e := log[from];
      if !e.UserUpdated? || e.userId !in creds then NoCollisionAhead(creds, log, from + 1)
      else
        var a := Merge(creds[e.userId], e);
        !Collides(creds, e.userId, a) && NoCollisionAhead(creds[e.userId := a], log, from + 1)
  }

  lemma {:induction false} RefusedStaysRefused(w: World, n: nat)
    requires DeliverUpdated(w) == w
    ensures TakeUpdates(w, n) == w
  {
    if n > 0 {
      RefusedStaysRefused(w, n - 1);
    }
  }

  /** The updated consumer can read its way to the end of the stream exactly if no update collides ahead. */
  lemma {:induction false} UpdatesArriveIff(w: World)
    requires w.atUpdated <= |w.log|
    ensures TakeUpdates(w, |w.log| - w.atUpdated).atUpdated == |w.log| <==>
            NoCollisionAhead(w.creds, w.log, w.atUpdated)
    decreases |w.log| - w.atUpdated
  {
    if w.atUpdated < |w.log| {
      var v := DeliverUpdated(w);
      if v.atUpdated == w.atUpdated {
        assert v == w;
        RefusedStaysRefused(w, |w.log| - w.atUpdated);
      } else {
        UpdatesArriveIff(v);
      }
    }
  }

  /**
   It need not: an account takes the name that the profile of another one was renamed to, before the rename
   has reached the credentials. Its created event is ignored, the rename collides for ever, and without a
   profile the new account can be neither renamed nor deleted.
   */
  lemma UpdateCanStick(n: nat, c: ProfileChange)
    ensures var w1 := DeliverCreated(Register(EMPTY_WORLD, 0, "ann", "a@x").0);
            var w2 := UpdateUser(w1, 0, ProfileChange(Some("bob"), None, None)).0;
            var w3 := DeliverCreated(DeliverCreated(Register(w2, 1, "bob", "b@x").0));
            var w4 := DeliverUpdated(w3);
            && w4.atCreated == |w4.log| == 3 && w4.atUpdated == 1 && TakeUpdates(w4, n) == w4
            && 1 in w4.creds && UpdateUser(w4, 1, c) == (w4, Err(Missing)) && DeleteUser(w4, 1) == (w4, Err(Missing))
  {
    var w1 := DeliverCreated(Register(EMPTY_WORLD, 0, "ann", "a@x").0);
    assert w1.profiles == map[0 := Profile(Account("ann", "a@x", USER_ROLE), "")];
    var w2 := UpdateUser(w1, 0, ProfileChange(Some("bob"), None, None)).0;
    assert w2.profiles[0].account.username == "bob" && w2.creds[0].username == "ann";
    assert "ann"[0] != "bob"[0] && "a@x"[0] != "b@x"[0];
    var w3 := Register(w2, 1, "bob", "b@x").0;
    assert w3.creds == w2.creds[1 := Account("bob", "b@x", USER_ROLE)];
    var w4 := DeliverCreated(DeliverCreated(w3));
    assert w4.profiles == w2.profiles;
    var w5 := DeliverUpdated(w4);
    assert w5.log[1] == UserUpdated(0, Some("bob"), None, None, None);
    assert DeliverUpdated(w5) == w5 by {
      var a := Merge(w5.creds[0], w5.log[1]);
      assert 1 in w5.creds && w5.creds[1].username == a.username;
    }
    RefusedStaysRefused(w5, n);
  }

  // ----- the unique columns -----

  predicate UniqueCreds(creds: map<Id, Account>) {
    forall a, b :: a in creds && b in creds && a != b ==>
      creds[a].username != creds[b].username && creds[a].email != creds[b].email
  }

  predicate UniqueProfiles(profiles: map<Id, Profile>) {
    forall a, b :: a in profiles && b in profiles && a != b ==>
      profiles[a].account.username != profiles[b].account.username &&
      profiles[a].account.email != profiles[b].account.email
  }

  lemma StepKeepsUniqueCreds(w: World, op: Op)
    requires UniqueCreds(w.creds)
    ensures UniqueCreds(Step(w, op).creds)
  {
    if op.OpUpdate? || op.OpRole? || op.OpDelete? || op.TakeCreated? {
      assert Step(w, op).creds == w.creds;
    }
  }

  lemma StepKeepsUniqueProfiles(w: World, op: Op)
    requires UniqueProfiles(w.profiles)
    ensures UniqueProfiles(Step(w, op).profiles)
  {
    if op.OpRegister? || op.OpBootstrap? || op.TakeUpdated? || op.TakeDeleted? {
      assert Step(w, op).profiles == w.profiles;
    }
  }

  /** Usernames and addresses stay unique in both tables over every run. */
  lemma {:induction false} RunKeepsUniqueColumns(w: World, ops: seq<Op>)
    requires UniqueCreds(w.creds) && UniqueProfiles(w.profiles)
    ensures UniqueCreds(Run(w, ops).creds) && UniqueProfiles(Run(w, ops).profiles)
    decreases |ops|
  {
    if ops != [] {
      StepKeepsUniqueCreds(w, ops[0]);
      StepKeepsUniqueProfiles(w, ops[0]);
      RunKeepsUniqueColumns(Step(w, ops[0]), ops[1..]);
    }
  }
}
