/**
 * The list-backed lessons (codigos/aula_02_e_03 and codigos/aulas_2_e_3): the
 * directory is the module-level list `db`, and a user's id is meant to be its
 * position in that list plus one.
 */
module MemoryStore {
  import opened Wrappers
  import opened Users
  import opened Distinct
  import opened Messages

  /** The guard of update_user and delete_user: user_id names a position of db, counting from 1. */
  predicate InRange(userId: int, size: nat) {
    1 <= userId <= size
  }

  class Directory {
    /** The module-level `db` list, in append order. */
    var db: seq<UserDB>

    /** db = list() */
    constructor ()
      ensures db == []
    {
      db := [];
    }

    /** GET /users/: every record in stored order, each without its password. */
    function ReadUsers(): (users: seq<UserPublic>)
      reads this
      ensures |users| == |db|
      ensures forall i :: 0 <= i < |db| ==> users[i] == ToPublic(db[i])
    {
      Publics(db)
    }

    /** POST /users/: append the body with id len(db) + 1; no uniqueness check. */
    method CreateUser(user: UserSchema) returns (created: UserPublic)
      modifies this
      ensures db == old(db) + [WithId(user, |old(db)| + 1)]
      ensures created == UserPublic(|old(db)| + 1, user.username, user.email)
      ensures ReadUsers() == old(ReadUsers()) + [created]
    {
      var userWithId := WithId(user, |db| + 1);
      db := db + [userWithId];
      created := ToPublic(userWithId);
    }

    /** PUT /users/{user_id}: replace position user_id - 1 with the body under id user_id. */
    method UpdateUser(user: UserSchema, userId: int) returns (r: Result<UserPublic, Error>)
      modifies this
      ensures !InRange(userId, |old(db)|) ==> r == Failure(NotFound) && db == old(db)
      ensures InRange(userId, |old(db)|) ==>
                && db == old(db)[userId - 1 := WithId(user, userId)]
                && r == Success(UserPublic(userId, user.username, user.email))
      ensures |db| == |old(db)|
      ensures forall i :: 0 <= i < |db| && i != userId - 1 ==> db[i] == old(db)[i]
    {
      if userId < 1 || userId > |db| {
        return Failure(NotFound);
      }
      var updated := WithId(user, userId);
      db := db[userId - 1 := updated];
      r := Success(ToPublic(updated));
    }

    /** DELETE /users/{user_id}: remove position user_id - 1; later records move down one place. */
    method DeleteUser(userId: int) returns (r: Result<string, Error>)
      modifies this
      ensures !InRange(userId, |old(db)|) ==> r == Failure(NotFound) && db == old(db)
      ensures InRange(userId, |old(db)|) ==>
                && db == old(db)[..userId - 1] + old(db)[userId..]
                && r == Success(DeletedMessage(userId))
      ensures InRange(userId, |old(db)|) ==>
                && |db| == |old(db)| - 1
                && (forall i :: 0 <= i < userId - 1 ==> db[i] == old(db)[i])
                && (forall i :: userId - 1 <= i < |db| ==> db[i] == old(db)[i + 1])
      ensures r.Success? ==> ParseDeletedMessage(r.value) == Some(userId)
    {
      if userId < 1 || userId > |db| {
        return Failure(NotFound);
      }
      db := db[..userId - 1] + db[userId..];
      r := Success(DeletedMessage(userId));
      DeletedMessageNamesId(userId);
    }

    /**
     * GET /users/unique_usernames (aula_02_e_03 only): fails on an empty list, otherwise
     * the usernames of db with repetitions dropped. The order of list(set(...)) is
     * Python's; only "no repeats, same names" is promised.
     */
    function UniqueUsernames(): (r: Result<seq<string>, Error>)
      reads this
      ensures r.Failure? <==> db == []
      ensures r.Failure? ==> r.error == NoUsers
      ensures r.Success? ==>
                && NoDuplicates(r.value)
                && (forall k :: 0 <= k < |r.value| ==> r.value[k] in Usernames(db))
                && (forall i :: 0 <= i < |db| ==> db[i].username in r.value)
    {
      if |db| == 0 then Failure(NoUsers)
      else
        Success(Dedup(Usernames(db)))
    }
  }

  /**
   * Ids are positions, not identities: after two creates and a delete of id 1, the next
   * create hands out id 2 again, and two live records carry the same id.
   */
  method IdRepeatsAfterDelete(a: UserSchema, b: UserSchema, c: UserSchema) returns (d: Directory)
    ensures d.db == [WithId(b, 2), WithId(c, 2)]
    ensures d.db[0].id == d.db[1].id
  {
    d := new Directory();
    var _ := d.CreateUser(a);
    var _ := d.CreateUser(b);
    var _ := d.DeleteUser(1);
    var _ := d.CreateUser(c);
  }

  /** Deleting id 1 twice succeeds twice when two users exist: the second call removes the other user. */
  method DeleteSameIdTwice(a: UserSchema, b: UserSchema) returns (first: Result<string, Error>, second: Result<string, Error>)
    ensures first == second == Success(DeletedMessage(1))
  {
    var d := new Directory();
    var _ := d.CreateUser(a);
    var _ := d.CreateUser(b);
    first := d.DeleteUser(1);
    second := d.DeleteUser(1);
  }

  /**
   * The sequence the aula_04 tests run against one shared list: create a user (kenan
   * there), list, update id 1 with a second body (chris there), list unique usernames,
   * delete id 1, list unique usernames again.
   */
  method LessonFourSession(first: UserSchema, second: UserSchema)
    returns (created: UserPublic, listed: seq<UserPublic>, updated: Result<UserPublic, Error>,
             unique: Result<seq<string>, Error>, deleted: Result<string, Error>,
             uniqueAfter: Result<seq<string>, Error>)
    ensures created == UserPublic(1, first.username, first.email)
    ensures listed == [created]
    ensures updated == Success(UserPublic(1, second.username, second.email))
    ensures unique == Success([second.username])
    ensures deleted == Success(DeletedMessage(1))
    ensures uniqueAfter == Failure(NoUsers)
  {
    var d := new Directory();
    created := d.CreateUser(first);
    listed := d.ReadUsers();
    updated := d.UpdateUser(second, 1);
    unique := d.UniqueUsernames();
    assert unique.value == [second.username];
    deleted := d.DeleteUser(1);
    uniqueAfter := d.UniqueUsernames();
  }
}
