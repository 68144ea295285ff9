/**
 * The entities shared by all lessons: the request body (UserSchema), the stored
 * record (UserDB in the list-backed lessons, the User row in the table-backed ones),
 * the public projection (UserPublic) and the errors the handlers raise.
 */
module Users {

  /** Body of POST /users/ and PUT /users/{id}. */
  datatype UserSchema = UserSchema(username: string, email: string, password: string)

  /** A stored user, password included. */
  datatype UserDB = UserDB(id: int, username: string, email: string, password: string)

  /** What the handlers return: the stored user without its password. */
  datatype UserPublic = UserPublic(id: int, username: string, email: string)

  /**
   * The errors the handlers raise, one per distinct failure. The HTTP status and the
   * detail text are the web framework's business; where a lesson's wording differs
   * from another's it is noted beside the constructor.
   */
  datatype Error =
    | NotFound       // "Usuário não encontrado" (list-backed lessons and aula_05_2 add "--> ID inválido")
    | NoUsers        // "Não há usuários cadastrados." / "Não existem usuários cadastrados"
    | AlreadyExists  // aula_05_2: "Usuário já existe", whichever field collided
    | UsernameTaken  // aula_05: "username já existe."
    | EmailTaken     // aula_05: "email já existe."

  /** UserDB(id=..., **user.model_dump()): a stored record from a request body. */
  function WithId(user: UserSchema, id: int): UserDB {
    UserDB(id, user.username, user.email, user.password)
  }

  /** The response_model=UserPublic projection. */
  function ToPublic(u: UserDB): UserPublic {
    UserPublic(u.id, u.username, u.email)
  }

  /** The public projection of every record, in order (the UserList response). */
  function Publics(rows: seq<UserDB>): (r: seq<UserPublic>)
    ensures |r| == |rows| && forall i :: 0 <= i < |rows| ==> r[i] == ToPublic(rows[i])
  {
    seq(|rows|, i requires 0 <= i < |rows| => ToPublic(rows[i]))
  }

  /** [user.username for user in rows] */
  function Usernames(rows: seq<UserDB>): (r: seq<string>)
    ensures |r| == |rows| && forall i :: 0 <= i < |rows| ==> r[i] == rows[i].username
  {
    seq(|rows|, i requires 0 <= i < |rows| => rows[i].username)
  }

  /**
   * Two records look the same to a client exactly when they agree on id, username
   * and email: the password never reaches the response.
   */
  lemma PublicViewHidesPassword(u: UserDB, v: UserDB)
    ensures ToPublic(u) == ToPublic(v) <==> (u.id == v.id && u.username == v.username && u.email == v.email)
    ensures ToPublic(u) == ToPublic(u.(password := v.password))
  {
  }
}
