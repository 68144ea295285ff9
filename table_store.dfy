/**
 * The handlers of the table-backed lessons over one users table. read_users,
 * update_user and delete_user are the same in codigos/aula_05 and codigos/aula_05_2;
 * create_user and get_unique_username differ and appear once per lesson.
 */
module TableStore {
  import opened Wrappers
  import opened Users
  import opened Distinct
  import opened Messages
  import opened TableRows

  class UserTable {
    /** The rows of the users table, in table order. */
    var rows: seq<UserDB>

    ghost predicate Valid()
      reads this
    {
      WellFormed(rows)
    }

    /** A freshly created, empty table. */
    constructor ()
      ensures Valid() && rows == []
    {
      rows := [];
    }

    /**
     * aula_05_2's POST /users/: rejects a body whose username or email some row already
     * has; otherwise inserts it under the id the database assigns (dbId).
     * The id-1 clause for an empty table comes from the requires (Admissible's rowid
     * rule for the database); the handler itself does nothing to bring it about.
     */
    method CreateUser(user: UserSchema, dbId: int) returns (r: Result<UserPublic, Error>)
      requires Valid() && Admissible(rows, dbId)
      modifies this
      ensures Valid()
      ensures r.Failure? <==> HasCollision(old(rows), user)
      ensures r.Failure? ==> r.error == AlreadyExists && rows == old(rows)
      ensures r.Success? ==>
                && rows == old(rows) + [WithId(user, dbId)]
                && r.value == UserPublic(dbId, user.username, user.email)
      ensures r.Success? && old(rows) == [] ==> r.value.id == 1
      ensures UniqueCredentials(old(rows)) ==> UniqueCredentials(rows)
    {
      var refused := CheckNew(rows, user);
      if refused.Some? {
        return Failure(refused.value);
      }
      var row := WithId(user, dbId);
      InsertWellFormed(rows, user, dbId);
      if UniqueCredentials(rows) {
        InsertKeepsCredentialsUnique(rows, user, dbId);
      }
      rows := rows + [row];
      r := Success(ToPublic(row));
    }

    /**
     * aula_05's POST /users/: the same check, but the error names the field the found
     * row matches, username first. As in CreateUser, id 1 for an empty table is the
     * database's rowid rule assumed by Admissible, not something the handler does.
     */
    method CreateUserByField(user: UserSchema, dbId: int) returns (r: Result<UserPublic, Error>)
      requires Valid() && Admissible(rows, dbId)
      modifies this
      ensures Valid()
      ensures r.Failure? <==> HasCollision(old(rows), user)
      ensures r.Failure? ==> rows == old(rows) && Some(r.error) == CheckNewByField(old(rows), user)
      ensures r == Failure(UsernameTaken) ==> exists k :: 0 <= k < |old(rows)| && old(rows)[k].username == user.username
      ensures r == Failure(EmailTaken) ==> exists k :: 0 <= k < |old(rows)| && old(rows)[k].email == user.email
      ensures r.Success? ==>
                && rows == old(rows) + [WithId(user, dbId)]
                && r.value == UserPublic(dbId, user.username, user.email)
      ensures r.Success? && old(rows) == [] ==> r.value.id == 1
      ensures UniqueCredentials(old(rows)) ==> UniqueCredentials(rows)
    {
      var refused := CheckNewByField(rows, user);
      if refused.Some? {
        return Failure(refused.value);
      }
      var row := WithId(user, dbId);
      InsertWellFormed(rows, user, dbId);
      if UniqueCredentials(rows) {
        InsertKeepsCredentialsUnique(rows, user, dbId);
      }
      rows := rows + [row];
      r := Success(UserPublic(row.id, row.username, row.email));
    }

    /** GET /users/?skip&limit: the page of rows, in table order, each without its password. */
    function ReadUsers(skip: int, limit: int): (users: seq<UserPublic>)
      reads this
      ensures Offset(skip) >= |rows| ==> users == []
      ensures Offset(skip) < |rows| ==>
                |users| == if 0 <= limit < |rows| - Offset(skip) then limit else |rows| - Offset(skip)
      ensures 0 <= limit ==> |users| <= limit
      ensures forall k :: 0 <= k < |users| ==>
                Offset(skip) + k < |rows| && users[k] == ToPublic(rows[Offset(skip) + k])
    {
      Publics(Page(rows, skip, limit))
    }

    /** PUT /users/{user_id}: overwrite username, email and password of that row; keep its id. */
    method UpdateUser(userId: int, user: UserSchema) returns (r: Result<UserPublic, Error>)
      requires Valid()
      modifies this
      ensures Valid()
      ensures r.Failure? <==> !HasId(old(rows), userId)
      ensures r.Failure? ==> r.error == NotFound && rows == old(rows)
      ensures r.Success? ==>
                && r.value == UserPublic(userId, user.username, user.email)
                && |rows| == |old(rows)|
                && (forall k :: 0 <= k < |rows| ==>
                      rows[k] == if old(rows)[k].id == userId then Overwrite(old(rows)[k], user) else old(rows)[k])
      ensures forall id :: HasId(rows, id) <==> HasId(old(rows), id)
    {
      var found := Lookup(rows, userId);
      if found.None? {
        return Failure(NotFound);
      }
      var i := found.value;
      OverwriteWellFormed(rows, i, user);
      var updated := Overwrite(rows[i], user);
      rows := rows[i := updated];
      r := Success(ToPublic(updated));
    }

    /** DELETE /users/{user_id}: remove that row only; a second call with the same id fails. */
    method DeleteUser(userId: int) returns (r: Result<string, Error>)
      requires Valid()
      modifies this
      ensures Valid()
      ensures r.Failure? <==> !HasId(old(rows), userId)
      ensures r.Failure? ==> r.error == NotFound && rows == old(rows)
      ensures r.Success? ==>
                && r.value == DeletedMessage(userId)
                && ParseDeletedMessage(r.value) == Some(userId)
                && |rows| == |old(rows)| - 1
                && (exists i :: 0 <= i < |old(rows)| && old(rows)[i].id == userId
                                && rows == old(rows)[..i] + old(rows)[i + 1..])
      ensures !HasId(rows, userId)
      ensures forall id :: id != userId ==> (HasId(rows, id) <==> HasId(old(rows), id))
    {
      var found := Lookup(rows, userId);
      if found.None? {
        return Failure(NotFound);
      }
      var i := found.value;
      RemoveDropsExactlyThatId(rows, userId);
      rows := Remove(rows, i);
      r := Success(DeletedMessage(userId));
      DeletedMessageNamesId(userId);
    }

    /**
     * aula_05_2's GET /users/unique_usernames?skip&limit: the usernames of the page, in
     * table order; an empty page is an error. Nothing is deduplicated by username.
     */
    function UsernamesPage(skip: int, limit: int): (r: Result<seq<string>, Error>)
      reads this
      ensures r.Failure? <==> Page(rows, skip, limit) == []
      ensures r.Failure? ==> r.error == NoUsers
      ensures r.Success? ==>
                && |r.value| == |Page(rows, skip, limit)|
                && forall k :: 0 <= k < |r.value| ==> r.value[k] == rows[Offset(skip) + k].username
      ensures rows == [] ==> r == Failure(NoUsers)
    {
      var page := Page(rows, skip, limit);
      if |page| == 0 then Failure(NoUsers) else Success(Usernames(page))
    }

    /**
     * aula_05's GET /users/unique_usernames: the distinct usernames of the whole table;
     * no usernames at all is an error. The order of SELECT DISTINCT is the engine's.
     */
    function DistinctUsernames(): (r: Result<seq<string>, Error>)
      reads this
      ensures r.Failure? <==> rows == []
      ensures r.Failure? ==> r.error == NoUsers
      ensures r.Success? ==>
                && NoDuplicates(r.value)
                && (forall k :: 0 <= k < |r.value| ==> r.value[k] in Usernames(rows))
                && (forall i :: 0 <= i < |rows| ==> rows[i].username in r.value)
      ensures r.Success? && UniqueCredentials(rows) ==> r.value == Usernames(rows)
    {
      var usernames := Dedup(Usernames(rows));
      DedupEmpty(Usernames(rows));
      assert UniqueCredentials(rows) ==> usernames == Usernames(rows) by {
        if UniqueCredentials(rows) {
          UniqueCredentialsUsernames(rows);
          DedupOfDistinct(Usernames(rows));
        }
      }
      if |usernames| == 0 then Failure(NoUsers) else Success(usernames)
    }
  }

  /**
   * The create, update and delete tests of the table-backed lessons, chained on one
   * fresh table: create kenan (id 1), update id 1 to chris, delete id 1, then list and
   * delete id 1 again.
   */
  method CreateUpdateDeleteScenario()
    returns (created: Result<UserPublic, Error>, updated: Result<UserPublic, Error>,
             deleted: Result<string, Error>, listed: seq<UserPublic>, again: Result<string, Error>)
    ensures created == Success(UserPublic(1, "kenan", "kenan@kel.com"))
    ensures updated == Success(UserPublic(1, "chris", "chris@market.com"))
    ensures deleted == Success(DeletedMessage(1))
    ensures listed == []
    ensures again == Failure(NotFound)
  {
    var t := new UserTable();
    created := t.CreateUser(UserSchema("kenan", "kenan@kel.com", "kel"), 1);
    assert t.rows[0].id == 1;
    updated := t.UpdateUser(1, UserSchema("chris", "chris@market.com", "water"));
    deleted := t.DeleteUser(1);
    listed := t.ReadUsers(0, 100);
    again := t.DeleteUser(1);
  }

  /**
   * The aula_05 duplicate tests: with the fixture user stored, a body reusing its
   * username is refused on username, one reusing only its email on email.
   */
  method DuplicateFieldScenario() returns (byName: Result<UserPublic, Error>, byEmail: Result<UserPublic, Error>)
    ensures byName == Failure(UsernameTaken)
    ensures byEmail == Failure(EmailTaken)
  {
    var t := new UserTable();
    var _ := t.CreateUserByField(UserSchema("miles_davis_1984", "milesdavis@music.org", "jazz10"), 1);
    assert t.rows[0].username == "miles_davis_1984";
    byName := t.CreateUserByField(UserSchema("miles_davis_1984", "kenan@kel.com", "kel"), 2);
    byEmail := t.CreateUserByField(UserSchema("robinson", "milesdavis@music.org", "kel"), 2);
  }
}
