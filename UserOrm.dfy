/**
 * orm/user_orm.py: `UserOrm`, the older data-access helper for the `user`
 * table. Each operation works on the session it is given, here the store of
 * `Users`; the clock is a parameter.
 */
module UserOrm {
  import opened Wrappers
  import opened Seqs
  import opened Users

  /** `add_user`: stamps both dates with `now` and stores the user; the stored row is returned. */
  method AddUser(db: Store, user: User, now: Time) returns (added: User)
    modifies db
    ensures added.createDate == added.updateDate == Some(now)
    ensures added.uuid == user.uuid && added.name == user.name && added.email == user.email && added.phone == user.phone
    ensures added.id == (if user.id.None? then Some(old(db.nextUserId)) else user.id)
    ensures db.users == old(db.users) + [added] && db.devices == old(db.devices)
    ensures db.nextUserId == (if user.id.None? then old(db.nextUserId) + 1 else old(db.nextUserId))
  {
    var stamped := user.(createDate := Some(now), updateDate := Some(now));
    added := db.Insert(stamped);
  }

  /** `get_user`: the first stored user with that id, or None. */
  function GetUser(db: Store, userId: int): (r: Option<User>)
    reads db
    ensures r.None? <==> forall i :: 0 <= i < |db.users| ==> db.users[i].id != Some(userId)
    ensures r.Some? ==> exists i :: 0 <= i < |db.users| && r.value == db.users[i] && db.users[i].id == Some(userId)
                                    && forall j :: 0 <= j < i ==> db.users[j].id != Some(userId)
  {
    var i := UserWithId(db.users, userId);
    if i.None? then None else Some(db.users[i.value])
  }

  /**
   * The row `update_user` writes back: the stored row's identity and
   * creation date, the caller's name, email and phone, and `now` as the
   * update date.
   */
  function Refreshed(stored: User, user: User, now: Time): (r: User)
    ensures r.id == stored.id && r.uuid == stored.uuid && r.createDate == stored.createDate
    ensures r.name == user.name && r.email == user.email && r.phone == user.phone
    ensures r.updateDate == Some(now)
  {
    stored.(name := user.name, email := user.email, phone := user.phone, updateDate := Some(now))
  }

  /** The row `update_user` finds for the caller's user: a user without an id matches no stored row. */
  function RowToUpdate(users: seq<User>, user: User): (r: Option<nat>)
    ensures r.Some? ==> r.value < |users| && user.id.Some? && users[r.value].id == user.id
                        && forall j :: 0 <= j < r.value ==> users[j].id != user.id
    ensures user.id.Some? && (exists i :: 0 <= i < |users| && users[i].id == user.id) ==> r.Some?
  {
    if user.id.None? then None else UserWithId(users, user.id.value)
  }

  /**
   * `update_user`: when a row has the caller's id, copies the caller's
   * name, email and phone into it, stamps its update date and returns it;
   * otherwise changes nothing and returns None.
   */
  method UpdateUser(db: Store, user: User, now: Time) returns (r: Option<User>)
    modifies db
    ensures var i := RowToUpdate(old(db.users), user);
            && (i.None? ==> r.None? && db.users == old(db.users))
            && (i.Some? ==> r == Some(Refreshed(old(db.users)[i.value], user, now))
                            && db.users == old(db.users)[i.value := r.value])
    ensures db.devices == old(db.devices) && db.nextUserId == old(db.nextUserId)
  {
    if user.id.None? {
      return None;
    }
    var i := FirstWhere(db.users, (u: User) => u.id == user.id);
    if i.None? {
      return None;
    }
    var row := db.users[i.value].(name := user.name, email := user.email, phone := user.phone, updateDate := Some(now));
    db.users := db.users[i.value := row];
    return Some(row);
  }

  /**
   * Adding a user without an id, when no stored row already has the next
   * id, makes `get_user` with that id return exactly the added row.
   */
  lemma {:induction false} AddedUserIsFound(users: seq<User>, added: User, nextId: int)
    requires added.id == Some(nextId)
    requires forall i :: 0 <= i < |users| ==> users[i].id != Some(nextId)
    ensures UserWithId(users + [added], nextId) == Some(|users|)
  {
    var all := users + [added];
    assert all[|users|] == added;
    assert forall j :: 0 <= j < |users| ==> all[j] == users[j];
  }

  /**
   * After an update the same id still finds the same position, now holding
   * the refreshed row: the update neither hides nor duplicates the user.
   */
  lemma {:induction false} UpdatedUserIsFound(users: seq<User>, user: User, now: Time)
    requires RowToUpdate(users, user).Some?
    ensures var i := RowToUpdate(users, user).value;
            UserWithId(users[i := Refreshed(users[i], user, now)], user.id.value) == Some(i)
  {
    var i := RowToUpdate(users, user).value;
    var id := user.id.value;
    var after := users[i := Refreshed(users[i], user, now)];
    assert after[i].id == Some(id);
    assert forall j :: 0 <= j < i ==> after[j] == users[j];
    assert forall j :: 0 <= j < i ==> after[j].id != Some(id);
  }
}
