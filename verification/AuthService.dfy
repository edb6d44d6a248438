/** The auth service over its two tables, proved to take the steps of modules Identity and Sessions. */
module AuthService {
  import opened Basics
  import opened Events
  import Identity
  import Replication
  import Sessions
  import Text

  datatype Credential = Credential(account: Identity.Account, secret: Sessions.Secret, active: bool)

  // What a successful login or refresh hands out: the claims of the access token, and a refresh token.
  datatype Grant = Grant(sub: Id, username: string, role: string, refreshToken: Sessions.Raw)

  ghost function AccountsOf(creds: map<Id, Credential>): map<Id, Identity.Account> {
    map id | id in creds :: creds[id].account
  }

  lemma CollisionIsSeen(creds: map<Id, Credential>, id: Id, a: Identity.Account)
    ensures (exists c :: c in creds && c != id &&
                         (creds[c].account.email == a.email || creds[c].account.username == a.username)) <==>
            Identity.Collides(AccountsOf(creds), id, a)
  {
    assert forall c :: c in creds ==> c in AccountsOf(creds) && AccountsOf(creds)[c] == creds[c].account;
  }

  lemma NoCollisionKeepsUnique(accounts: map<Id, Identity.Account>, id: Id, a: Identity.Account)
    requires Replication.UniqueCreds(accounts) && !Identity.Collides(accounts, id, a)
    ensures Replication.UniqueCreds(accounts[id := a])
  {
  }

  class AuthService {
    var creds: map<Id, Credential>
    var tokens: map<Sessions.Hash, Sessions.TokenRow>
    var atUpdated: nat
    var atDeleted: nat
    const stream: EventStream
    // how long a refresh token lives
    const lifetime: int
    ghost var drawn: set<Id>
    ghost var promoted: set<Id>
    ghost var drawnTokens: set<Sessions.Raw>
    ghost var past: seq<Sessions.Happening>

    ghost function Accounts(): map<Id, Identity.Account>
      reads this
    {
      AccountsOf(creds)
    }

    // Any world of the two services whose auth side is this object.
    ghost function Around(w: Identity.World): Identity.World
      reads this, stream
    {
      w.(creds := Accounts(), log := stream.log, atUpdated := atUpdated, atDeleted := atDeleted,
         drawn := drawn, promoted := promoted)
    }

    ghost function Users(): map<Id, Sessions.User>
      reads this
    {
      map id | id in creds :: Sessions.User(creds[id].secret, creds[id].active)
    }

    ghost function SessionState(): Sessions.State
      reads this
    {
      Sessions.State(Users(), tokens, drawnTokens, past)
    }

    ghost predicate Valid()
      reads this
    {
      && creds.Keys <= drawn
      && Replication.UniqueCreds(Accounts())
      && forall h :: h in tokens ==> tokens[h].user in creds
    }

    constructor (stream: EventStream, lifetime: int)
      requires stream.log == []
      ensures Valid() && this.stream == stream && this.lifetime == lifetime
      ensures SessionState() == Sessions.EMPTY_STATE
      ensures Around(Identity.EMPTY_WORLD) == Identity.EMPTY_WORLD
    {
      creds, tokens, atUpdated, atDeleted := map[], map[], 0, 0;
      this.stream, this.lifetime := stream, lifetime;
      drawn, promoted, drawnTokens, past := {}, {}, {}, [];
    }

    // Insertion of a credential and publication of its created event.
    method Enrol(id: Id, account: Identity.Account, password: string)
      requires Valid() && id !in drawn
      requires !Identity.CredentialTaken(Accounts(), account.username, account.email)
      modifies this, stream
      ensures Valid()
      ensures forall w: Identity.World :: Around(w) == Identity.Enrol(old(Around(w)), id, account)
      ensures SessionState() == Sessions.AddUser(old(SessionState()), id, password)
    {
      creds := creds[id := Credential(account, Sessions.Secret(password), true)];
      drawn := drawn + {id};
      assert Accounts() == old(Accounts())[id := account];
      assert Users() == old(Users())[id := Sessions.User(Sessions.Secret(password), true)];
      stream.Publish(UserCreated(id, account.username, account.email, account.role));
    }

    method Register(id: Id, username: string, email: string, password: string)
      returns (r: Result<Identity.Account, Identity.AccountError>)
      requires Valid() && id !in drawn
      modifies this, stream
      ensures Valid()
      ensures forall w: Identity.World :: (Around(w), r) == Identity.Register(old(Around(w)), id, username, email)
      ensures SessionState() == if r.Ok? then Sessions.AddUser(old(SessionState()), id, password)
                                else old(SessionState())
    {
      var existing := exists c :: c in creds && (creds[c].account.email == email || creds[c].account.username == username);
      assert forall c :: c in creds ==> c in Accounts() && Accounts()[c] == creds[c].account;
      assert existing <==> Identity.CredentialTaken(Accounts(), username, email);
      if existing {
        return Err(Identity.Conflict);
      }
      var account := Identity.Account(username, email, Identity.USER_ROLE);
      Enrol(id, account, password);
      return Ok(account);
    }

    method Login(email: string, password: string, raw: Sessions.Raw, now: int) returns (r: Result<Grant, Sessions.AuthError>)
      requires Valid() && raw !in drawnTokens
      modifies this`tokens, this`drawnTokens, this`past
      ensures Valid()
      ensures forall found: Option<Id> ::
                (if found.Some? then found.value in creds && creds[found.value].account.email == email
                 else forall c :: c in creds ==> creds[c].account.email != email) ==>
                var (s, reply) := Sessions.Login(old(SessionState()), found, password, raw, now + lifetime);
                && SessionState() == s && r.Ok? == reply.Ok?
                && r == if reply.Err? then Err(reply.error)
                        else Ok(Grant(found.value, creds[found.value].account.username,
                                      creds[found.value].account.role, raw))
    {
      if c :| c in creds && creds[c].account.email == email {
        assert c in Accounts() && Accounts()[c].email == email;
        if !creds[c].active || creds[c].secret != Sessions.Secret(password) {
          return Err(Sessions.Unauthorized);
        }
        tokens := tokens[Sessions.Hash(raw) := Sessions.TokenRow(c, now + lifetime)];
        drawnTokens := drawnTokens + {raw};
        past := past + [Sessions.SignedIn(c, raw)];
        return Ok(Grant(c, creds[c].account.username, creds[c].account.role, raw));
      } else {
        return Err(Sessions.Unauthorized);
      }
    }

    method Refresh(spent: Sessions.Raw, raw: Sessions.Raw, now: int) returns (r: Result<Grant, Sessions.AuthError>)
      requires Valid() && raw !in drawnTokens
      modifies this`tokens, this`drawnTokens, this`past
      ensures Valid()
      ensures var (s, reply) := Sessions.Refresh(old(SessionState()), spent, raw, now, now + lifetime);
              && SessionState() == s && r.Ok? == reply.Ok?
              && (r.Err? ==> r.error == reply.error)
              && (r.Ok? ==> var user := old(tokens)[Sessions.Hash(spent)].user;
                            r.value == Grant(user, creds[user].account.username, creds[user].account.role, raw))
    {
      var key := Sessions.Hash(spent);
      if key !in tokens || tokens[key].expiresAt <= now {
        return Err(Sessions.Unauthorized);
      }
      var user := tokens[key].user;
      if user !in creds || !creds[user].active {
        return Err(Sessions.Unauthorized);
      }
      tokens := tokens - {key};
      tokens := tokens[Sessions.Hash(raw) := Sessions.TokenRow(user, now + lifetime)];
      drawnTokens := drawnTokens + {raw};
      past := past + [Sessions.Rotated(user, spent, raw)];
      return Ok(Grant(user, creds[user].account.username, creds[user].account.role, raw));
    }

    method SetSecret(id: Id, secret: Sessions.Secret)
      requires id in creds
      modifies this`creds
      ensures creds.Keys == old(creds).Keys && Accounts() == old(Accounts())
      ensures Users() == old(Users())[id := old(Users())[id].(secret := secret)]
    {
      creds := creds[id := creds[id].(secret := secret)];
      assert Accounts() == old(Accounts());
      assert Users() == old(Users())[id := old(Users())[id].(secret := secret)];
    }

    method ChangePassword(userId: Id, current: string, next: string) returns (r: Result<(), Sessions.AuthError>)
      requires Valid()
      modifies this`creds, this`tokens, this`past
      ensures Valid() && Accounts() == old(Accounts())
      ensures (SessionState(), r) == Sessions.ChangePassword(old(SessionState()), userId, current, next)
    {
      if userId !in creds {
        return Err(Sessions.UnknownUser);
      }
      if creds[userId].secret != Sessions.Secret(current) {
        return Err(Sessions.Unauthorized);
      }
      SetSecret(userId, Sessions.Secret(next));
      tokens := tokens - set h | h in tokens && tokens[h].user == userId;
      past := past + [Sessions.PasswordChanged(userId)];
      return Ok(());
    }

    // Run once at startup when the environment names an admin.
    method BootstrapAdmin(id: Id, username: string, email: string, password: string)
      returns (r: Result<(), Identity.AccountError>)
      requires Valid() && id !in drawn
      modifies this, stream
      ensures Valid()
      ensures forall w: Identity.World :: Around(w) == Identity.Bootstrap(old(Around(w)), id, username, email)
      ensures r.Err? <==> old((forall c :: !Identity.OwnsEmail(Accounts(), c, email)) &&
                              Identity.CredentialTaken(Accounts(), username, email))
      ensures SessionState() == old(SessionState()) ||
              SessionState() == Sessions.AddUser(old(SessionState()), id, password)
    {
      assert forall c :: c in creds ==> c in Accounts() && Accounts()[c] == creds[c].account;
      if c :| c in creds && creds[c].account.email == email {
        assert Identity.OwnsEmail(Accounts(), c, email);
        PromoteOwner(c);
        return Ok(());
      }
      assert forall c :: !Identity.OwnsEmail(Accounts(), c, email);
      if exists c :: c in creds && creds[c].account.username == username {
        assert Identity.CredentialTaken(Accounts(), username, email);
        return Err(Identity.Conflict);
      }
      assert !Identity.CredentialTaken(Accounts(), username, email);
      Enrol(id, Identity.Account(username, email, Identity.ADMIN_ROLE), password);
      return Ok(());
    }

    method PromoteOwner(id: Id)
      requires Valid() && id in creds
      modifies this`creds, this`promoted
      ensures Valid()
      ensures forall w: Identity.World :: Around(w) == Identity.Promote(old(Around(w)), id)
      ensures SessionState() == old(SessionState())
    {
      if creds[id].account.role != Identity.ADMIN_ROLE {
        var account := creds[id].account.(role := Identity.ADMIN_ROLE);
        SetAccount(id, account);
        promoted := promoted + {id};
      }
    }

    method SetAccount(id: Id, account: Identity.Account)
      requires id in creds
      modifies this`creds
      ensures creds.Keys == old(creds).Keys
      ensures Accounts() == old(Accounts())[id := account]
      ensures SessionState() == old(SessionState())
    {
      creds := creds[id := creds[id].(account := account)];
      assert Accounts() == old(Accounts())[id := account];
      assert Users() == old(Users());
    }

    // The account with the fields that an update gives; absent fields keep their value.
    method MergeFields(account: Identity.Account, e: Event) returns (updates: Identity.Account)
      requires e.UserUpdated?
      ensures updates == Identity.Merge(account, e)
    {
      updates := account;
      if Text.Given(e.newName) { updates := updates.(username := e.newName.value); }
      if Text.Given(e.newEmail) { updates := updates.(email := e.newEmail.value); }
      if Text.Given(e.newRole) { updates := updates.(role := e.newRole.value); }
    }

    // The update statement; false when a unique column refuses it.
    method TryUpdate(id: Id, updates: Identity.Account) returns (done: bool)
      requires Valid() && id in creds
      modifies this`creds
      ensures Valid() && SessionState() == old(SessionState())
      ensures done == !Identity.Collides(old(Accounts()), id, updates)
      ensures Accounts() == if done then old(Accounts())[id := updates] else old(Accounts())
    {
      var collision := exists c :: c in creds && c != id &&
                                   (creds[c].account.email == updates.email || creds[c].account.username == updates.username);
      CollisionIsSeen(creds, id, updates);
      done := !collision;
      if done {
        NoCollisionKeepsUnique(Accounts(), id, updates);
        SetAccount(id, updates);
      }
    }

    // One turn of the user-updated subscriber; a refused update leaves the message to be redelivered.
    method TakeUpdated()
      requires Valid()
      modifies this`creds, this`atUpdated, this`promoted
      ensures Valid() && SessionState() == old(SessionState())
      ensures forall w: Identity.World :: Around(w) == Identity.DeliverUpdated(old(Around(w)))
    {
      if atUpdated >= |stream.log| {
        return;
      }
      var e := stream.log[atUpdated];
      if e.UserUpdated? && e.userId in creds {
        var updates := MergeFields(creds[e.userId].account, e);
        var done := TryUpdate(e.userId, updates);
        if !done {
          return;
        }
        if Text.Given(e.newRole) { promoted := promoted - {e.userId}; }
      }
      atUpdated := atUpdated + 1;
    }

    // One turn of the user-deleted subscriber; the foreign key of the token table cascades.
    method TakeDeleted()
      requires Valid()
      modifies this`creds, this`tokens, this`atDeleted, this`past
      ensures Valid()
      ensures forall w: Identity.World :: Around(w) == Identity.DeliverDeleted(old(Around(w)))
      ensures SessionState() == if old(atDeleted) < |stream.log| && stream.log[old(atDeleted)].UserDeleted?
                                then Sessions.RemoveUser(old(SessionState()), stream.log[old(atDeleted)].userId)
                                else old(SessionState())
    {
      if atDeleted >= |stream.log| {
        return;
      }
      var e := stream.log[atDeleted];
      if e.UserDeleted? {
        RemoveCredential(e.userId);
      }
      atDeleted := atDeleted + 1;
    }

    method RemoveCredential(id: Id)
      requires Valid()
      modifies this`creds, this`tokens, this`past
      ensures Valid()
      ensures Accounts() == old(Accounts()) - {id}
      ensures SessionState() == Sessions.RemoveUser(old(SessionState()), id)
    {
      creds := creds - {id};
      tokens := tokens - set h | h in tokens && tokens[h].user == id;
      past := past + [Sessions.Removed(id)];
      assert Accounts() == old(Accounts()) - {id};
      assert Users() == old(Users()) - {id};
    }
  }
}
