/**
 * The users table of the table-backed lessons (codigos/aula_05 and codigos/aula_05_2),
 * seen as a sequence of rows in table order, and the queries and checks their
 * handlers run against it.
 */
module TableRows {
  import opened Wrappers
  import opened Users
  import opened Distinct

  /** Some row has this id (session.scalar(select(User).where(User.id == id)) finds one). */
  predicate HasId(rows: seq<UserDB>, id: int) {
    exists i :: 0 <= i < |rows| && rows[i].id == id
  }

  /** What the database keeps true of its primary key: positive and never shared by two rows. */
  predicate WellFormed(rows: seq<UserDB>) {
    && (forall i :: 0 <= i < |rows| ==> rows[i].id > 0)
    && (forall i, j :: 0 <= i < j < |rows| ==> rows[i].id != rows[j].id)
  }

  /**
   * An id the database may hand out on insert: positive and not held by a live row;
   * an empty table starts at 1. Nothing more of the database's policy is assumed.
   */
  predicate Admissible(rows: seq<UserDB>, id: int) {
    id > 0 && !HasId(rows, id) && (rows == [] ==> id == 1)
  }

  /** The where-clause of create_user: same username or same email. */
  predicate Collides(row: UserDB, user: UserSchema) {
    row.username == user.username || row.email == user.email
  }

  predicate HasCollision(rows: seq<UserDB>, user: UserSchema) {
    exists i :: 0 <= i < |rows| && Collides(rows[i], user)
  }

  /** No two rows share a username, and no two share an email. */
  predicate UniqueCredentials(rows: seq<UserDB>) {
    forall i, j :: 0 <= i < j < |rows| ==> rows[i].username != rows[j].username && rows[i].email != rows[j].email
  }

  /** The position of the row session.scalar returns for the collision query: the first match. */
  function FirstCollision(rows: seq<UserDB>, user: UserSchema): (r: Option<nat>)
    ensures r.None? <==> !HasCollision(rows, user)
    ensures r.Some? ==>
              && r.value < |rows|
              && Collides(rows[r.value], user)
              && forall k :: 0 <= k < r.value ==> !Collides(rows[k], user)
    decreases |rows|
  {
    if rows == [] then None
    else if Collides(rows[0], user) then Some(0)
    else
      match FirstCollision(rows[1..], user)
      case None => None
      case Some(k) => Some(k + 1)
  }

  /** The position of the row with this id, when there is one. */
  function Lookup(rows: seq<UserDB>, id: int): (r: Option<nat>)
    ensures r.None? <==> !HasId(rows, id)
    ensures r.Some? ==> r.value < |rows| && rows[r.value].id == id
    ensures r.Some? && WellFormed(rows) ==> forall k :: 0 <= k < |rows| && k != r.value ==> rows[k].id != id
    decreases |rows|
  {
    if rows == [] then None
    else if rows[0].id == id then Some(0)
    else
      match Lookup(rows[1..], id)
      case None => None
      case Some(k) => Some(k + 1)
  }

  /**
   * The uniqueness check of aula_05_2's create_user: both branches on the found row
   * raise the same "Usuário já existe".
   */
  function CheckNew(rows: seq<UserDB>, user: UserSchema): (e: Option<Error>)
    ensures e.Some? <==> HasCollision(rows, user)
    ensures e.Some? ==> e.value == AlreadyExists
  {
    match FirstCollision(rows, user)
    case None => None
    case Some(k) =>
      if rows[k].username == user.username then Some(AlreadyExists)
      else if rows[k].email == user.email then Some(AlreadyExists)
      else None
  }

  /**
   * The uniqueness check of aula_05's create_user: the found row (the first that matches
   * either field) is tested on username first, then on email.
   */
  function CheckNewByField(rows: seq<UserDB>, user: UserSchema): (e: Option<Error>)
    ensures e.Some? <==> HasCollision(rows, user)
    ensures e == Some(UsernameTaken) <==>
              exists k :: 0 <= k < |rows| && rows[k].username == user.username
                          && forall j :: 0 <= j < k ==> !Collides(rows[j], user)
    ensures e == Some(EmailTaken) <==>
              exists k :: 0 <= k < |rows| && rows[k].email == user.email && rows[k].username != user.username
                          && forall j :: 0 <= j < k ==> !Collides(rows[j], user)
    ensures e.Some? ==> e.value == UsernameTaken || e.value == EmailTaken
  {
    var found := FirstCollision(rows, user);
    match found
    case None => None
    case Some(k) =>
      if rows[k].username == user.username then Some(UsernameTaken)
      else if rows[k].email == user.email then Some(EmailTaken)
      else None
  }

  /** The offset SQLite applies: a negative OFFSET counts as zero. */
  function Offset(skip: int): nat {
    if skip < 0 then 0 else skip
  }

  /**
   * .offset(skip).limit(limit): the rows from position skip on, at most limit of them,
   * in table order; SQLite reads a negative LIMIT as no bound.
   */
  function Page<T>(s: seq<T>, skip: int, limit: int): (r: seq<T>)
    ensures Offset(skip) >= |s| ==> r == []
    ensures Offset(skip) < |s| ==>
              |r| == if 0 <= limit < |s| - Offset(skip) then limit else |s| - Offset(skip)
    ensures forall k :: 0 <= k < |r| ==> Offset(skip) + k < |s| && r[k] == s[Offset(skip) + k]
  {
    var tail := if Offset(skip) >= |s| then [] else s[Offset(skip)..];
    if 0 <= limit < |tail| then tail[..limit] else tail
  }

  /** The row after PUT: all three fields from the body, the id kept. */
  function Overwrite(row: UserDB, user: UserSchema): UserDB {
    row.(username := user.username, email := user.email, password := user.password)
  }

  /** session.delete of the row at position i: the others keep their order. */
  function Remove(rows: seq<UserDB>, i: nat): seq<UserDB>
    requires i < |rows|
  {
    rows[..i] + rows[i + 1..]
  }

  /** Consecutive pages tile the table: page [skip, skip+n) followed by [skip+n, skip+n+m). */
  lemma PagesCompose<T>(s: seq<T>, skip: nat, n: nat, m: nat)
    ensures Page(s, skip, n) + Page(s, skip + n, m) == Page(s, skip, n + m)
  {
  }

  /** With offset 0 and no effective bound the listing is the whole table. */
  lemma WholeTablePage<T>(s: seq<T>, limit: int)
    requires limit < 0 || limit >= |s|
    ensures Page(s, 0, limit) == s
  {
  }

  /** An insert with an admissible id keeps ids positive and distinct. */
  lemma InsertWellFormed(rows: seq<UserDB>, user: UserSchema, id: int)
    requires WellFormed(rows) && Admissible(rows, id)
    ensures WellFormed(rows + [WithId(user, id)])
  {
  }

  /** An insert that passed the uniqueness check keeps usernames and emails unique. */
  lemma InsertKeepsCredentialsUnique(rows: seq<UserDB>, user: UserSchema, id: int)
    requires UniqueCredentials(rows) && !HasCollision(rows, user)
    ensures UniqueCredentials(rows + [WithId(user, id)])
  {
  }

  /** Overwriting one row's fields leaves every id where it was. */
  lemma OverwriteWellFormed(rows: seq<UserDB>, i: nat, user: UserSchema)
    requires WellFormed(rows) && i < |rows|
    ensures WellFormed(rows[i := Overwrite(rows[i], user)])
    ensures forall id :: HasId(rows, id) <==> HasId(rows[i := Overwrite(rows[i], user)], id)
  {
    var after := rows[i := Overwrite(rows[i], user)];
    forall id ensures HasId(rows, id) <==> HasId(after, id) {
      if HasId(rows, id) {
        var k :| 0 <= k < |rows| && rows[k].id == id;
        assert after[k].id == id;
      }
      if HasId(after, id) {
        var k :| 0 <= k < |after| && after[k].id == id;
        assert rows[k].id == id;
      }
    }
  }

  /**
   * update_user re-checks nothing: overwriting one row with another row's username
   * puts two rows with one username in the table.
   */
  lemma OverwriteCanDuplicateUsername()
    ensures exists rows: seq<UserDB>, i: nat, user: UserSchema ::
              && i < |rows| && WellFormed(rows) && UniqueCredentials(rows)
              && !UniqueCredentials(rows[i := Overwrite(rows[i], user)])
  {
    var rows := [UserDB(1, "teste", "teste@test.com", "x"), UserDB(2, "kenan", "kenan@kel.com", "y")];
    var user := UserSchema("teste", "chris@market.com", "water");
    var after := rows[1 := Overwrite(rows[1], user)];
    assert after[0].username == after[1].username;
    assert !UniqueCredentials(after);
  }

  /** Where each remaining row of Remove(rows, i) came from. */
  lemma RemoveIndex(rows: seq<UserDB>, i: nat, k: nat)
    requires i < |rows| && k < |rows| - 1
    ensures |Remove(rows, i)| == |rows| - 1
    ensures Remove(rows, i)[k] == if k < i then rows[k] else rows[k + 1]
  {
  }

  /** Removing a row keeps the remaining ids positive and distinct. */
  lemma RemoveWellFormed(rows: seq<UserDB>, i: nat)
    requires WellFormed(rows) && i < |rows|
    ensures WellFormed(Remove(rows, i))
  {
  }

  /**
   * Removing the row with a given id: no row holds that id afterwards, every other id
   * survives, and the table stays well formed.
   */
  lemma RemoveDropsExactlyThatId(rows: seq<UserDB>, id: int)
    requires WellFormed(rows) && Lookup(rows, id).Some?
    ensures WellFormed(Remove(rows, Lookup(rows, id).value))
    ensures !HasId(Remove(rows, Lookup(rows, id).value), id)
    ensures forall other :: other != id ==> (HasId(rows, other) <==> HasId(Remove(rows, Lookup(rows, id).value), other))
  {
    var i := Lookup(rows, id).value;
    var after := Remove(rows, i);
    RemoveWellFormed(rows, i);
    forall k | 0 <= k < |after| ensures after[k].id != id {
      RemoveIndex(rows, i, k);
    }
    forall other | other != id && HasId(rows, other) ensures HasId(after, other) {
      var k :| 0 <= k < |rows| && rows[k].id == other;
      var j := if k < i then k else k - 1;
      RemoveIndex(rows, i, j);
      assert after[j].id == other;
    }
    forall other | HasId(after, other) ensures HasId(rows, other) {
      var k :| 0 <= k < |after| && after[k].id == other;
      RemoveIndex(rows, i, k);
    }
  }

  /** With unique usernames, the list of usernames repeats nothing. */
  lemma UniqueCredentialsUsernames(rows: seq<UserDB>)
    requires UniqueCredentials(rows)
    ensures NoDuplicates(Usernames(rows))
  {
  }

  /** An admissible id always exists, so requiring one never blocks an insert. */
  lemma {:induction false} SomeIdIsAdmissible(rows: seq<UserDB>)
    ensures exists id :: Admissible(rows, id)
  {
    if rows == [] {
      assert Admissible(rows, 1);
    } else {
      var top := MaxId(rows);
      assert Admissible(rows, top + 1);
    }
  }

  /** The largest id in the table, or 0 for none (used only to exhibit a fresh id). */
  function MaxId(rows: seq<UserDB>): (m: int)
    ensures m >= 0
    ensures forall k :: 0 <= k < |rows| ==> rows[k].id <= m
    decreases |rows|
  {
    if rows == [] then 0
    else
      var rest := MaxId(rows[1..]);
      if rows[0].id > rest then rows[0].id else rest
  }
}
