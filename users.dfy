/** The value types of the user directory: a row of the Users table, its
    redacted external view, a page of users, and the two request shapes the
    HTTP layer binds. */
module Users {

  datatype Option<+T> = None | Some(value: T)

  /** Go's int16, the type of the `offset` parameter of GetUsers. */
  newtype Int16 = x: int | -0x8000 <= x < 0x8000

  /** A row of the Users table. Once the row is stored, `password` holds the
      password hash; in the value handed to the store's AddUser it holds the
      plaintext. `id` and `createdAt` are assigned by the database. */
  datatype User = User(
    email: string,
    id: Option<string>,
    createdAt: Option<string>,
    notes: Option<string>,
    password: string,
    firstName: string,
    lastName: string)

  /** The external view of a user: every column except the password hash. */
  datatype RedactedUser = RedactedUser(
    email: string,
    id: Option<string>,
    createdAt: Option<string>,
    notes: Option<string>,
    firstName: string,
    lastName: string)

  /** A page of users together with the count of all users. */
  datatype GetUsersResult = GetUsersResult(users: seq<RedactedUser>, total: int)

  /** The body of PATCH /user. `notes` is a plain string, so an absent
      field binds as the empty string. */
  datatype UpdateUserRequest = UpdateUserRequest(
    id: Option<string>,
    email: string,
    firstName: string,
    lastName: string,
    notes: string)

  /** The body of POST /user. */
  datatype AddUserRequest = AddUserRequest(
    email: string,
    firstName: string,
    lastName: string,
    notes: Option<string>,
    password: string)

  /** Go's zero `User{}`: what GetUser answers when no row matches. */
  const EmptyUser := User("", None, None, None, "", "", "")

  /** Go's zero `RedactedUser{}`: what AddUser answers on failure. */
  const EmptyRedactedUser := RedactedUser("", None, None, None, "", "")

  /** Redaction: the external view keeps every column but the password hash. */
  function Redact(u: User): RedactedUser {
    RedactedUser(u.email, u.id, u.createdAt, u.notes, u.firstName, u.lastName)
  }

  /** Two rows have the same redacted view exactly when they differ at most
      in their password hash. */
  lemma RedactForgetsOnlyPassword(u: User, v: User)
    ensures Redact(u) == Redact(v) <==> u.(password := v.password) == v
  {
  }
}
