/** The user directory: a users table with a unique index on the device UUID
    and an auto-incremented primary key. */
module Users {
  import opened Models

  /** The table invariant: device UUIDs and ids are unique, and every id lies
      in [1, nextId), the range the auto-increment counter has handed out. */
  ghost predicate ValidUsers(rows: seq<User>, nextId: nat) {
    && 1 <= nextId
    && UniqueKeys(rows, UuidOf)
    && UniqueKeys(rows, IdOf)
    && forall i :: 0 <= i < |rows| ==> 1 <= rows[i].id < nextId
  }

  /** `DB.Create(&user)` with only the device UUID set: the unique index on
      `device_uuid` rejects a duplicate (there is no check before the insert),
      otherwise one row is appended under the next id. */
  function CreateUser(rows: seq<User>, nextId: nat, deviceUuid: string)
    : (res: (Result<User>, seq<User>, nat))
    ensures res.0.Ok? <==> !Contains(rows, UuidOf, deviceUuid)
    ensures res.0.Err? ==> res == (Err(UniqueViolation), rows, nextId)
    ensures res.0.Ok? ==> res.0.value.deviceUuid == deviceUuid
                          && res.1 == rows + [res.0.value]
                          && res.2 == nextId + 1
  {
    if Contains(rows, UuidOf, deviceUuid) then (Err(UniqueViolation), rows, nextId)
    else
      var user := User(nextId, deviceUuid);
      (Ok(user), rows + [user], nextId + 1)
  }

  /** A successful insert hands out an id that no existing user holds, and
      the table invariant survives every insert, successful or not. */
  lemma CreateUserKeepsValid(rows: seq<User>, nextId: nat, deviceUuid: string)
    requires ValidUsers(rows, nextId)
    ensures var (r, rows', nextId') := CreateUser(rows, nextId, deviceUuid);
            && ValidUsers(rows', nextId')
            && (r.Ok? ==> !Contains(rows, IdOf, r.value.id))
  {
    var (r, rows', nextId') := CreateUser(rows, nextId, deviceUuid);
    if r.Ok? {
      assert forall i :: 0 <= i < |rows| ==> IdOf(rows[i]) != r.value.id;
      AppendKeepsUnique(rows, r.value, UuidOf);
      AppendKeepsUnique(rows, r.value, IdOf);
      assert forall i :: 0 <= i < |rows'| ==> 1 <= rows'[i].id < nextId' by {
        forall i | 0 <= i < |rows'| ensures 1 <= rows'[i].id < nextId' {
          if i < |rows| { assert rows'[i] == rows[i]; }
        }
      }
    }
  }

  /** Round trip: create a device UUID, then look it up, and the user just
      created comes back. */
  lemma CreateThenFindUser(rows: seq<User>, nextId: nat, deviceUuid: string)
    requires CreateUser(rows, nextId, deviceUuid).0.Ok?
    ensures var (r, rows', _) := CreateUser(rows, nextId, deviceUuid);
            Where(rows', UuidOf, deviceUuid) == r && r.value.id == nextId
  {
    WhereAfterAppend(rows, User(nextId, deviceUuid), UuidOf, deviceUuid);
  }

  /** A second creation with the same device UUID always fails. */
  lemma CreateUserTwiceFails(rows: seq<User>, nextId: nat, deviceUuid: string)
    requires CreateUser(rows, nextId, deviceUuid).0.Ok?
    ensures var (_, rows', nextId') := CreateUser(rows, nextId, deviceUuid);
            CreateUser(rows', nextId', deviceUuid).0 == Err(UniqueViolation)
  {
    var rows' := CreateUser(rows, nextId, deviceUuid).1;
    assert UuidOf(rows'[|rows|]) == deviceUuid;
  }

  /** `UserRepositoryImpl` over an in-memory users table. */
  class UserRepository {
    var rows: seq<User>
    var nextId: nat

    ghost predicate Valid()
      reads this
    {
      ValidUsers(rows, nextId)
    }

    constructor ()
      ensures Valid() && rows == [] && nextId == 1
    {
      rows := [];
      nextId := 1;
    }

    method CreateWithDeviceUUID(deviceUuid: string) returns (r: Result<User>)
      requires Valid()
      modifies this
      ensures Valid()
      ensures (r, rows, nextId) == CreateUser(old(rows), old(nextId), deviceUuid)
      ensures r.Ok? ==> FindByDeviceUUID(deviceUuid) == r
    {
      CreateUserKeepsValid(rows, nextId, deviceUuid);
      if Contains(rows, UuidOf, deviceUuid) {
        // the unique index on device_uuid rejects the insert
        return Err(UniqueViolation);
      }
      var user := User(nextId, deviceUuid);
      CreateThenFindUser(rows, nextId, deviceUuid);
      rows := rows + [user];
      nextId := nextId + 1;
      r := Ok(user);
    }

    function FindByDeviceUUID(deviceUuid: string): (r: Result<User>)
      reads this
      requires Valid()
      ensures r.Ok? <==> exists i :: 0 <= i < |rows| && rows[i].deviceUuid == deviceUuid
      ensures r.Ok? ==> r.value in rows && r.value.deviceUuid == deviceUuid
      ensures r.Err? ==> r.error == RecordNotFound
    {
      var r := Where(rows, UuidOf, deviceUuid);
      assert r.Ok? <==> exists i :: 0 <= i < |rows| && rows[i].deviceUuid == deviceUuid by {
        assert forall i :: 0 <= i < |rows| ==> UuidOf(rows[i]) == rows[i].deviceUuid;
      }
      r
    }
  }
}
