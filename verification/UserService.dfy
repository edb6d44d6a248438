/** The user service over its table, proved to take the steps of module Identity. */
module UserService {
  import opened Basics
  import opened Events
  import opened Identity

  class UserService {
    var users: map<Id, Profile>
    var atCreated: nat
    const stream: EventStream
    ghost var ignored: set<Id>

    // Any world of the two services whose user side is this object.
    ghost function Around(w: World): World
      reads this, stream
    {
      w.(profiles := users, log := stream.log, atCreated := atCreated, ignored := ignored)
    }

    constructor (stream: EventStream)
      requires stream.log == []
      ensures this.stream == stream
      ensures Around(EMPTY_WORLD) == EMPTY_WORLD
    {
      users, atCreated, ignored := map[], 0, {};
      this.stream := stream;
    }

    method UpdateUser(id: Id, data: ProfileChange) returns (r: Result<Profile, AccountError>)
      modifies this`users, stream
      ensures forall w: World :: (Around(w), r) == Identity.UpdateUser(old(Around(w)), id, data)
    {
      if id !in users {
        return Err(Missing);
      }
      var updated := users[id];
      if data.username.Some? { updated := updated.(account := updated.account.(username := data.username.value)); }
      if data.email.Some? { updated := updated.(account := updated.account.(email := data.email.value)); }
      if data.bio.Some? { updated := updated.(bio := data.bio.value); }
      // the unique columns refuse the row
      if ProfileTaken(users, id, updated.account.username, updated.account.email) {
        return Err(Conflict);
      }
      users := users[id := updated];
      stream.Publish(UserUpdated(id, data.username, data.email, data.bio, None));
      return Ok(updated);
    }

    method UpdateUserRole(id: Id, role: string) returns (r: Result<Profile, AccountError>)
      modifies this`users, stream
      ensures forall w: World :: (Around(w), r) == Identity.UpdateUserRole(old(Around(w)), id, role)
    {
      if id !in users {
        return Err(Missing);
      }
      var updated := users[id].(account := users[id].account.(role := role));
      users := users[id := updated];
      stream.Publish(UserUpdated(id, None, None, None, Some(role)));
      return Ok(updated);
    }

    method DeleteUser(id: Id) returns (r: Result<(), AccountError>)
      modifies this`users, stream
      ensures forall w: World :: (Around(w), r) == Identity.DeleteUser(old(Around(w)), id)
    {
      if id !in users {
        return Err(Missing);
      }
      users := users - {id};
      stream.Publish(UserDeleted(id));
      return Ok(());
    }

    // One turn of the user-created subscriber.
    method TakeCreated()
      modifies this
      ensures forall w: World :: Around(w) == DeliverCreated(old(Around(w)))
    {
      if atCreated >= |stream.log| {
        return;
      }
      var e := stream.log[atCreated];
      if e.UserCreated? {
        if e.userId in users || ProfileTaken(users, e.userId, e.username, e.email) {
          ignored := ignored + {e.userId};
        } else {
          var role := if e.role != "" then e.role else USER_ROLE;
          users := users[e.userId := Profile(Account(e.username, e.email, role), "")];
        }
      }
      atCreated := atCreated + 1;
    }
  }
}
