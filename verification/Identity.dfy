/**
 The two copies of an account: the credential of the auth service and the profile of the user
 service, kept in step by three event types that flow in both directions. Three durable consumers,
 one for each event type, read the same stream at positions of their own.
 */
module Identity {
  import opened Basics
  import opened Events
  import opened Text

  datatype Account = Account(username: string, email: string, role: string)

  datatype Profile = Profile(account: Account, bio: string)

  /**
   atCreated, atUpdated, atDeleted   the positions of the consumers of the three event types
   drawn                             the ids ever drawn
   promoted                          credentials made admin by the bootstrap, without an event
   ignored                           accounts whose created event met a conflict in the users table
   */
  datatype World = World(creds: map<Id, Account>, profiles: map<Id, Profile>, log: seq<Event>,
                         atCreated: nat, atUpdated: nat, atDeleted: nat,
                         drawn: set<Id>, promoted: set<Id>, ignored: set<Id>)

  const EMPTY_WORLD := World(map[], map[], [], 0, 0, 0, {}, {}, {})

  const USER_ROLE := "user"
  const ADMIN_ROLE := "admin"

  datatype AccountError = Conflict | Missing

  // ----- the auth service -----

  predicate CredentialTaken(creds: map<Id, Account>, username: string, email: string) {
    exists id :: id in creds && (creds[id].email == email || creds[id].username == username)
  }

  function Enrol(w: World, id: Id, a: Account): World {
    w.(creds := w.creds[id := a], drawn := w.drawn + {id},
       log := w.log + [UserCreated(id, a.username, a.email, a.role)])
  }

  function Register(w: World, id: Id, username: string, email: string): (World, Result<Account, AccountError>) {
    if CredentialTaken(w.creds, username, email) then (w, Err(Conflict))
    else
      var a := Account(username, email, USER_ROLE);
      (Enrol(w, id, a), Ok(a))
  }

  function Promote(w: World, id: Id): World
    requires id in w.creds
  {
    if w.creds[id].role == ADMIN_ROLE then w
    else w.(creds := w.creds[id := w.creds[id].(role := ADMIN_ROLE)], promoted := w.promoted + {id})
  }

  predicate OwnsEmail(creds: map<Id, Account>, id: Id, email: string) {
    id in creds && creds[id].email == email
  }

  // ----- the user service -----

  predicate ProfileTaken(profiles: map<Id, Profile>, except: Id, username: string, email: string) {
    exists id :: id in profiles && id != except &&
                 (profiles[id].account.email == email || profiles[id].account.username == username)
  }

  datatype ProfileChange = ProfileChange(username: Option<string>, email: Option<string>, bio: Option<string>)

  // The request schema admits no empty name and no empty address.
  predicate WellFormed(c: ProfileChange) {
    c.username != Some("") && c.email != Some("")
  }

  function Or(field: Option<string>, otherwise: string): string {
    if field.Some? then field.value else otherwise
  }

  function Changed(p: Profile, c: ProfileChange): Profile {
    Profile(Account(Or(c.username, p.account.username), Or(c.email, p.account.email), p.account.role),
            Or(c.bio, p.bio))
  }

  function UpdateUser(w: World, id: Id, c: ProfileChange): (World, Result<Profile, AccountError>) {
    if id !in w.profiles then (w, Err(Missing))
    else
      var p := Changed(w.profiles[id], c);
      if ProfileTaken(w.profiles, id, p.account.username, p.account.email) then (w, Err(Conflict))
      else (w.(profiles := w.profiles[id := p],
               log := w.log + [UserUpdated(id, c.username, c.email, c.bio, None)]), Ok(p))
  }

  function UpdateUserRole(w: World, id: Id, role: string): (World, Result<Profile, AccountError>) {
    if id !in w.profiles then (w, Err(Missing))
    else
      var p := Profile(w.profiles[id].account.(role := role), w.profiles[id].bio);
      (w.(profiles := w.profiles[id := p], log := w.log + [UserUpdated(id, None, None, None, Some(role))]), Ok(p))
  }

  function DeleteUser(w: World, id: Id): (World, Result<(), AccountError>) {
    if id !in w.profiles then (w, Err(Missing))
    else (w.(profiles := w.profiles - {id}, log := w.log + [UserDeleted(id)]), Ok(()))
  }

  // ----- the three subscribers -----

  // Insertion of a profile; any conflict on id, username or email is ignored.
  function HandleCreated(profiles: map<Id, Profile>, e: Event): map<Id, Profile>
    requires e.UserCreated?
  {
    if e.userId in profiles || ProfileTaken(profiles, e.userId, e.username, e.email) then profiles
    else profiles[e.userId := Profile(Account(e.username, e.email, if e.role != "" then e.role else USER_ROLE), "")]
  }

  function Merge(a: Account, e: Event): Account
    requires e.UserUpdated?
  {
    Account(if Given(e.newName) then e.newName.value else a.username,
            if Given(e.newEmail) then e.newEmail.value else a.email,
            if Given(e.newRole) then e.newRole.value else a.role)
  }

  // Both unique columns of the credentials table.
  predicate Collides(creds: map<Id, Account>, id: Id, a: Account) {
    exists other :: other in creds && other != id && (creds[other].email == a.email || creds[other].username == a.username)
  }

  function DeliverCreated(w: World): World {
    if w.atCreated >= |w.log| then w
    else
      var e := w.log[w.atCreated];
      var v := w.(atCreated := w.atCreated + 1);
      if !e.UserCreated? then v
      else
        var profiles := HandleCreated(w.profiles, e);
        v.(profiles := profiles,
           ignored := if profiles == w.profiles then w.ignored + {e.userId} else w.ignored)
  }

  // A violated unique column makes the handler refuse the message, which stays to be delivered.
  function DeliverUpdated(w: World): World {
    if w.atUpdated >= |w.log| then w
    else
      var e := w.log[w.atUpdated];
      var v := w.(atUpdated := w.atUpdated + 1);
      if !e.UserUpdated? || e.userId !in w.creds then v
      else
        var a := Merge(w.creds[e.userId], e);
        if Collides(w.creds, e.userId, a) then w
        else v.(creds := w.creds[e.userId := a],
                promoted := if Given(e.newRole) then w.promoted - {e.userId} else w.promoted)
  }

  function DeliverDeleted(w: World): World {
    if w.atDeleted >= |w.log| then w
    else
      var e := w.log[w.atDeleted];
      var v := w.(atDeleted := w.atDeleted + 1);
      if e.UserDeleted? then v.(creds := w.creds - {e.userId}) else v
  }

  // ----- runs -----

  datatype Op =
    | OpRegister(id: Id, username: string, email: string)
    | OpBootstrap(id: Id, username: string, email: string)
    | OpUpdate(id: Id, change: ProfileChange)
    | OpRole(id: Id, role: string)
    | OpDelete(id: Id)
    | TakeCreated
    | TakeUpdated
    | TakeDeleted
    | RestartCreated(from: nat)
    | RestartUpdated(from: nat)
    | RestartDeleted(from: nat)

  datatype Kind = KCreated | KUpdated | KDeleted

  predicate Is(e: Event, kind: Kind, id: Id) {
    match kind
    case KCreated => e.UserCreated? && e.userId == id
    case KUpdated => e.UserUpdated? && e.userId == id
    case KDeleted => e.UserDeleted? && e.userId == id
  }

  // Does an event of this kind about this id occur at position from or later?
  predicate Occurs(log: seq<Event>, from: nat, kind: Kind, id: Id)
    decreases |log| - from
  {
    from < |log| && (Is(log[from], kind, id) || Occurs(log, from + 1, kind, id))
  }

  /**
   The admin credential of the environment: an existing one, found by its address, is promoted, and
   otherwise a new one is enrolled, which fails if the username is taken.
   */
  ghost function Bootstrap(w: World, id: Id, username: string, email: string): World {
    if exists owner :: OwnsEmail(w.creds, owner, email) then
      var owner :| OwnsEmail(w.creds, owner, email);
      Promote(w, owner)
    else if CredentialTaken(w.creds, username, email) then w
    else Enrol(w, id, Account(username, email, ADMIN_ROLE))
  }

  /**
   Enrolling needs an id never drawn before, and a profile change must pass the request schema; an
   operation without these does not happen. A restart goes back to an earlier position. Two conditions
   are not enforced by the services: the created consumer must not go back over an account deleted
   since, and an account must not be deleted while its created event awaits redelivery. Lemmas
   RestartRevivesNoneIff, DeleteIsFinalIff and RedeliveryRevivesAccount of module Replication show why.
   */
  predicate Allowed(w: World, op: Op) {
    match op
    case OpRegister(id, _, _) => id !in w.drawn
    case OpBootstrap(id, _, _) => id !in w.drawn
    case OpUpdate(_, c) => WellFormed(c)
    case OpRole(_, role) => role != ""
    case OpDelete(id) => !Occurs(w.log, w.atCreated, KCreated, id)
    case RestartCreated(from) => from <= w.atCreated && NoneDeletedSince(w, from)
    case RestartUpdated(from) => from <= w.atUpdated
    case RestartDeleted(from) => from <= w.atDeleted
    case _ => true
  }

  predicate NoneDeletedSince(w: World, from: nat) {
    forall k :: from <= k < w.atCreated && k < |w.log| && w.log[k].UserCreated? ==>
      !Occurs(w.log, 0, KDeleted, w.log[k].userId)
  }

  ghost function Perform(w: World, op: Op): World {
    match op
    case OpRegister(id, username, email) => Register(w, id, username, email).0
    case OpBootstrap(id, username, email) => Bootstrap(w, id, username, email)
    case OpUpdate(id, c) => UpdateUser(w, id, c).0
    case OpRole(id, role) => UpdateUserRole(w, id, role).0
    case OpDelete(id) => DeleteUser(w, id).0
    case TakeCreated => DeliverCreated(w)
    case TakeUpdated => DeliverUpdated(w)
    case TakeDeleted => DeliverDeleted(w)
    case RestartCreated(from) => w.(atCreated := from)
    case RestartUpdated(from) => w.(atUpdated := from)
    case RestartDeleted(from) => w.(atDeleted := from)
  }

  ghost function Step(w: World, op: Op): World {
    if Allowed(w, op) then Perform(w, op) else w
  }

  ghost function Run(w: World, ops: seq<Op>): World
    decreases |ops|
  {
    if ops == [] then w else Run(Step(w, ops[0]), ops[1..])
  }
}
