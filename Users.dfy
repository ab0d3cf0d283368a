/**
 * service/user_service.py: `UserService` over the `user` and `device`
 * tables. The database session is modelled as a store object holding the
 * rows of both tables in insertion order; a query's `.first()` is the first
 * matching row. Fresh uuids, the clock and the random bytes are parameters.
 */
module Users {
  import opened Wrappers
  import opened Seqs
  import Bytes

  /** A point in time (`datetime.now(timezone.utc)`), as supplied by the caller. */
  type Time = int

  /** A `user` row; the id is None until the database assigns one. */
  datatype User = User(id: Option<int>, uuid: Option<string>, name: string, email: Option<string>, phone: string,
                       createDate: Option<Time>, updateDate: Option<Time>)

  /** `User()`: a record with no field set. */
  const EMPTY_USER: User := User(None, None, "", None, "", None, None)

  /** A `device` row (entity/device.py). */
  datatype Device = Device(uuid: Option<string>, userId: Option<int>, keyId: Option<string>, publicKey: Option<string>,
                           challenge: Option<string>, createDate: Option<Time>)

  /** `UserService.DeviceChallenge`. */
  datatype DeviceChallenge = DeviceChallenge(challenge: string, deviceUuid: string)

  /** Python truthiness of an optional string: present and non-empty. */
  predicate Truthy(s: Option<string>)
  {
    s.Some? && s.value != ""
  }

  /** The row that `select(User).where(User.uuid == uuid).first()` returns. */
  function UserWithUuid(users: seq<User>, uuid: string): Option<nat>
  {
    FirstWhere(users, (u: User) => u.uuid == Some(uuid))
  }

  /** The row that `session.get(User, id)` returns. */
  function UserWithId(users: seq<User>, id: int): Option<nat>
  {
    FirstWhere(users, (u: User) => u.id == Some(id))
  }

  /** The row that `select(Device).where(Device.uuid == uuid).first()` returns. */
  function DeviceWithUuid(devices: seq<Device>, uuid: string): Option<nat>
  {
    FirstWhere(devices, (d: Device) => d.uuid == Some(uuid))
  }

  /** The row `add_user` stores: both dates set to the same instant and a fresh uuid. */
  function Registered(user: User, uuid: string, now: Time): (r: User)
    ensures r.createDate == r.updateDate == Some(now) && r.uuid == Some(uuid)
    ensures r.id == user.id && r.name == user.name && r.email == user.email && r.phone == user.phone
  {
    user.(uuid := Some(uuid), createDate := Some(now), updateDate := Some(now))
  }

  /** The database: the rows of the `user` and `device` tables and the next id to assign. */
  class Store {
    var users: seq<User>
    var devices: seq<Device>
    var nextUserId: int

    constructor()
      ensures users == [] && devices == [] && nextUserId == 1
    {
      users := [];
      devices := [];
      nextUserId := 1;
    }

    /**
     * `session.add(user); session.commit()`: a row without an id gets the
     * next one; the stored row is returned as `refresh` reloads it.
     */
    method Insert(user: User) returns (stored: User)
      modifies this
      ensures stored == (if user.id.None? then user.(id := Some(old(nextUserId))) else user)
      ensures users == old(users) + [stored] && devices == old(devices)
      ensures nextUserId == (if user.id.None? then old(nextUserId) + 1 else old(nextUserId))
    {
      stored := user;
      if user.id.None? {
        stored := user.(id := Some(nextUserId));
        nextUserId := nextUserId + 1;
      }
      users := users + [stored];
    }
  }

  /** `UserService`, working on one store. */
  class UserService {
    const db: Store

    constructor(db: Store)
      ensures this.db == db
    {
      this.db := db;
    }

    /** `add_user`: stamps both dates with `now`, gives the user the fresh uuid, and stores it. */
    method AddUser(user: User, newUuid: string, now: Time) returns (added: User)
      modifies db
      ensures added == (var r := Registered(user, newUuid, now);
                        if r.id.None? then r.(id := Some(old(db.nextUserId))) else r)
      ensures db.users == old(db.users) + [added] && db.devices == old(db.devices)
      ensures db.nextUserId == (if user.id.None? then old(db.nextUserId) + 1 else old(db.nextUserId))
    {
      var u := user.(createDate := Some(now), updateDate := Some(now));
      u := u.(uuid := Some(newUuid));
      added := db.Insert(u);
    }

    /** `get_user_by_uuid`: the first user with that uuid, or an empty `User()` (never None). */
    method GetUserByUuid(uuid: string) returns (user: User)
      ensures UserWithUuid(db.users, uuid).Some? ==> user == db.users[UserWithUuid(db.users, uuid).value]
      ensures UserWithUuid(db.users, uuid).None? ==> user == EMPTY_USER
    {
      var found := FirstWhere(db.users, (u: User) => u.uuid == Some(uuid));
      if found.None? {
        user := EMPTY_USER;
      } else {
        user := db.users[found.value];
      }
    }

    /**
     * `generate_device_challenge`: resolves the user (looked up by uuid when
     * it has one, registered when it ends up without one), then stores a
     * device owned by that user with a fresh uuid and a challenge of 32
     * lower-case hex digits made from 16 random bytes. The clock is read
     * twice: `userNow` stamps a registered user, `deviceNow` the device.
     */
    method GenerateDeviceChallenge(user: User, userUuid: string, deviceUuid: string, random: seq<Bytes.byte>,
                                   userNow: Time, deviceNow: Time)
      returns (dc: DeviceChallenge)
      requires |random| == 16
      modifies db
      ensures dc == DeviceChallenge(Bytes.Hex(random), deviceUuid)
      ensures |dc.challenge| == 32 && Bytes.IsLowerHex(dc.challenge)
      ensures var owner := Owner(old(db.users), user, userUuid, userNow, old(db.nextUserId));
              && db.users == old(db.users) + owner.1
              && db.devices == old(db.devices) + [Device(Some(deviceUuid), owner.0.id, None, None, Some(dc.challenge), Some(deviceNow))]
      ensures var registers := if Truthy(user.uuid) then UserWithUuid(old(db.users), user.uuid.value).None? else user.id.None?;
              db.nextUserId == old(db.nextUserId) + (if registers then 1 else 0)
    {
      var u := user;
      if Truthy(user.uuid) {
        u := GetUserByUuid(user.uuid.value);
      }
      if !Truthy(u.uuid) {
        u := AddUser(u, userUuid, userNow);
      }
      var challenge := Bytes.Hex(random);
      var device := Device(Some(deviceUuid), u.id, None, None, Some(challenge), Some(deviceNow));
      db.devices := db.devices + [device];
      dc := DeviceChallenge(challenge, deviceUuid);
    }

    /** `update_device_challenge`: replaces only the challenge of the device with that uuid, or returns None. */
    method UpdateDeviceChallenge(deviceUuid: string, newChallenge: string) returns (r: Option<Device>)
      modifies db
      ensures db.users == old(db.users) && db.nextUserId == old(db.nextUserId)
      ensures var i := DeviceWithUuid(old(db.devices), deviceUuid);
              && (i.None? ==> r.None? && db.devices == old(db.devices))
              && (i.Some? ==> var d := old(db.devices)[i.value].(challenge := Some(newChallenge));
                              r == Some(d) && db.devices == old(db.devices)[i.value := d])
    {
      var i := FirstWhere(db.devices, (d: Device) => d.uuid == Some(deviceUuid));
      if i.None? {
        return None;
      }
      var device := db.devices[i.value].(challenge := Some(newChallenge));
      db.devices := db.devices[i.value := device];
      return Some(device);
    }

    /** `get_device`: the first device with that uuid, or None. */
    function GetDevice(deviceUuid: string): (r: Option<Device>)
      reads this, db
      ensures r.None? <==> forall i :: 0 <= i < |db.devices| ==> db.devices[i].uuid != Some(deviceUuid)
      ensures r.Some? ==> exists i :: 0 <= i < |db.devices| && r.value == db.devices[i]
                                      && db.devices[i].uuid == Some(deviceUuid)
                                      && forall j :: 0 <= j < i ==> db.devices[j].uuid != Some(deviceUuid)
    {
      var i := DeviceWithUuid(db.devices, deviceUuid);
      if i.None? then None else Some(db.devices[i.value])
    }

    /**
     * `set_device_key_info`: sets the key id and the public key of the device
     * with that uuid (its challenge stays), or returns None.
     */
    method SetDeviceKeyInfo(deviceUuid: string, keyId: string, keyPem: string) returns (r: Option<Device>)
      modifies db
      ensures db.users == old(db.users) && db.nextUserId == old(db.nextUserId)
      ensures var i := DeviceWithUuid(old(db.devices), deviceUuid);
              && (i.None? ==> r.None? && db.devices == old(db.devices))
              && (i.Some? ==> var d := old(db.devices)[i.value].(keyId := Some(keyId), publicKey := Some(keyPem));
                              r == Some(d) && db.devices == old(db.devices)[i.value := d])
    {
      var i := FirstWhere(db.devices, (d: Device) => d.uuid == Some(deviceUuid));
      if i.None? {
        return None;
      }
      var device := db.devices[i.value].(keyId := Some(keyId), publicKey := Some(keyPem));
      db.devices := db.devices[i.value := device];
      return Some(device);
    }

    /** `delete_user`: removes the user with that id and says whether there was one. */
    method DeleteUser(userId: int) returns (deleted: bool)
      modifies db
      ensures deleted <==> exists i :: 0 <= i < |old(db.users)| && old(db.users)[i].id == Some(userId)
      ensures db.devices == old(db.devices) && db.nextUserId == old(db.nextUserId)
      ensures var i := UserWithId(old(db.users), userId);
              db.users == if i.None? then old(db.users) else old(db.users)[..i.value] + old(db.users)[i.value + 1..]
    {
      var i := FirstWhere(db.users, (u: User) => u.id == Some(userId));
      if i.None? {
        return false;
      }
      db.users := db.users[..i.value] + db.users[i.value + 1..];
      return true;
    }
  }

  /**
   * Whom `generate_device_challenge` attaches the device to, and the rows it
   * adds to the user table: the stored user found by uuid (nothing added),
   * or else the newly registered user — the caller's record when it came
   * without a uuid, an empty record when its uuid was not found.
   */
  function Owner(users: seq<User>, user: User, userUuid: string, now: Time, nextId: int): (r: (User, seq<User>))
    ensures r.1 == [] || r.1 == [r.0]
    ensures r.1 == [] <==> Truthy(user.uuid) && UserWithUuid(users, user.uuid.value).Some?
    ensures r.1 == [] ==> r.0 in users && r.0.uuid == user.uuid
    ensures r.1 != [] ==> r.0.id.Some? && r.0.uuid == Some(userUuid) && r.0.createDate == r.0.updateDate == Some(now)
  {
    var looked := if Truthy(user.uuid) then
                    (var i := UserWithUuid(users, user.uuid.value); if i.None? then EMPTY_USER else users[i.value])
                  else user;
    if Truthy(looked.uuid) then (looked, [])
    else
      var r := Registered(looked, userUuid, now);
      var stored := if r.id.None? then r.(id := Some(nextId)) else r;
      (stored, [stored])
  }

  /** A user found by its uuid owns the new device, and no user is added. */
  lemma OwnerFound(users: seq<User>, user: User, userUuid: string, now: Time, nextId: int)
    requires Truthy(user.uuid) && UserWithUuid(users, user.uuid.value).Some?
    ensures var i := UserWithUuid(users, user.uuid.value).value;
            Owner(users, user, userUuid, now, nextId) == (users[i], [])
  {
  }

  /**
   * A uuid that is not found registers an empty user — the caller's other
   * fields are dropped — and that new user owns the device.
   */
  lemma OwnerNotFound(users: seq<User>, user: User, userUuid: string, now: Time, nextId: int)
    requires Truthy(user.uuid) && UserWithUuid(users, user.uuid.value).None?
    ensures var owner := User(Some(nextId), Some(userUuid), "", None, "", Some(now), Some(now));
            Owner(users, user, userUuid, now, nextId) == (owner, [owner])
  {
  }

  /** A caller's user without a uuid is registered as given, with the fresh uuid and the dates. */
  lemma OwnerWithoutUuid(users: seq<User>, user: User, userUuid: string, now: Time, nextId: int)
    requires !Truthy(user.uuid)
    ensures var r := Registered(user, userUuid, now);
            var stored := if user.id.None? then r.(id := Some(nextId)) else r;
            Owner(users, user, userUuid, now, nextId) == (stored, [stored])
  {
  }

  /** The challenge of `generate_device_challenge`: 32 lower-case hex digits that decode to the random bytes. */
  lemma ChallengeShape(random: seq<Bytes.byte>)
    requires |random| == 16
    ensures |Bytes.Hex(random)| == 32 && Bytes.IsLowerHex(Bytes.Hex(random))
    ensures Bytes.Unhex(Bytes.Hex(random)) == random
  {
    Bytes.HexRoundTrip(random);
  }
}
