/** The HTTP handlers: each binds its request, calls the store, and maps the
    store's answer to a status code (section 15 of RFC 9110) and a body. The
    store is passed in directly. */
module Handlers {
  import opened Users
  import opened SqlLike
  import opened Table
  import opened Sql

  const StatusOK := 200                   // RFC 9110 section 15.3.1
  const StatusBadRequest := 400           // RFC 9110 section 15.5.1
  const StatusNotFound := 404             // RFC 9110 section 15.5.5
  const StatusConflict := 409             // RFC 9110 section 15.5.10
  const StatusInternalServerError := 500  // RFC 9110 section 15.6.1

  /** The largest offset GET /users accepts. */
  const MaxOffset := 1000

  /** A response body: none, one user, a page, the empty JSON object, or a
      JSON array of users. */
  datatype Body =
    | NoBody
    | UserBody(user: RedactedUser)
    | PageBody(page: GetUsersResult)
    | EmptyObject
    | UserList(users: seq<RedactedUser>)

  datatype Response = Response(status: int, body: Body)

  // ------------------------------------------------------------- binding
  // A JSON body or query string is given as the value it decodes to (None
  // when it does not decode); the binding tags are the predicates below, with
  // the e-mail format check an opaque parameter `isEmail`.

  /** The tags of AddUserRequest: `email` required and an e-mail address,
      names of 1 to 100 characters, `password` required. */
  predicate AddUserRequestValid(r: AddUserRequest, isEmail: string -> bool) {
    r.email != "" && isEmail(r.email)
    && 1 <= |r.firstName| <= 100 && 1 <= |r.lastName| <= 100
    && r.password != ""
  }

  /** The tags of UpdateUserRequest: `id` present, `email` required and an
      e-mail address, names of 1 to 100 characters. */
  predicate UpdateUserRequestValid(r: UpdateUserRequest, isEmail: string -> bool) {
    r.id.Some? && r.email != "" && isEmail(r.email)
    && 1 <= |r.firstName| <= 100 && 1 <= |r.lastName| <= 100
  }

  /** The tags of the email/id query of GET and DELETE /user: each may be
      absent (the empty string); a given email is an e-mail address; both at
      most 50 characters. */
  predicate KeyQueryValid(email: string, id: string, isEmail: string -> bool) {
    (email == "" || (isEmail(email) && |email| <= 50)) && |id| <= 50
  }

  /** The tags of the offset query: present, numeric, 0 to 1000. */
  predicate OffsetValid(offset: Option<int>) {
    offset.Some? && 0 <= offset.value <= MaxOffset
  }

  /** The body's fields as the store's AddUser receives them. */
  function NewUser(r: AddUserRequest): User {
    User(r.email, None, None, r.notes, r.password, r.firstName, r.lastName)
  }

  /** The view GET /user answers with: the notes are not copied. */
  function GetUserView(u: User): RedactedUser {
    RedactedUser(u.email, u.id, u.createdAt, None, u.firstName, u.lastName)
  }

  // ------------------------------------------------------------ handlers

  /** POST /user. gin's `BindJSON` answers 400 itself when the body does not
      bind (it aborts and writes the status at once), so the handler's own
      `c.Status(500)` after it has no effect. */
  method AddUser(store: MySQLDataStore, body: Option<AddUserRequest>, isEmail: string -> bool,
                 newId: string, newCreatedAt: string)
    returns (resp: Response)
    requires store.Valid()
    modifies store
    ensures store.Valid()
    ensures !(body.Some? && AddUserRequestValid(body.value, isEmail)) ==>
      resp == Response(StatusBadRequest, NoBody) && store.rows == old(store.rows)
    ensures body.Some? && AddUserRequestValid(body.value, isEmail) ==>
      var r := body.value;
      if AnyMatch(old(store.rows), r.email, "") || IdInUse(old(store.rows), newId) then
        resp == Response(StatusConflict, NoBody) && store.rows == old(store.rows)
      else
        store.rows == old(store.rows) + [Inserted(NewUser(r), store.hash, newId, newCreatedAt)]
        && resp == Response(StatusOK, UserBody(Redact(store.rows[|store.rows| - 1])))
  {
    if !(body.Some? && AddUserRequestValid(body.value, isEmail)) {
      return Response(StatusBadRequest, NoBody);
    }
    var newUser := body.value;
    var addUserResult, err := store.AddUser(NewUser(newUser), newId, newCreatedAt);
    if err.Some? {
      assert err.value.EmailExists? || err.value.DuplicateKey?;
      return Response(StatusConflict, NoBody);
    }
    resp := Response(StatusOK, UserBody(addUserResult));
  }

  /** DELETE /user. */
  method DeleteUser(store: MySQLDataStore, email: string, id: string, isEmail: string -> bool)
    returns (resp: Response)
    requires store.Valid()
    modifies store
    ensures store.Valid()
    ensures !KeyQueryValid(email, id, isEmail) || (email == "" && id == "") ==>
      resp == Response(StatusBadRequest, NoBody) && store.rows == old(store.rows)
    ensures KeyQueryValid(email, id, isEmail) && !(email == "" && id == "") ==>
      store.rows == Without(old(store.rows), email, id)
      && resp == Response(if MatchCount(old(store.rows), email, id) == 1
                          then StatusOK else StatusInternalServerError, NoBody)
  {
    if !KeyQueryValid(email, id, isEmail) {
      return Response(StatusBadRequest, NoBody);
    }
    if email == "" && id == "" {
      return Response(StatusBadRequest, NoBody);
    }
    var deleteUserResult := store.DeleteUser(email, id);
    if deleteUserResult {
      resp := Response(StatusOK, NoBody);
    } else {
      resp := Response(StatusInternalServerError, NoBody);
    }
  }

  /** GET /user. */
  method GetUser(store: MySQLDataStore, email: string, id: string, isEmail: string -> bool)
    returns (resp: Response)
    ensures !KeyQueryValid(email, id, isEmail) || (email == "" && id == "") ==>
      resp == Response(StatusBadRequest, NoBody)
    ensures KeyQueryValid(email, id, isEmail) && !(email == "" && id == "") ==>
      var u := Lookup(store.rows, email, id);
      resp == if u.id.None? then Response(StatusNotFound, NoBody)
              else Response(StatusOK, UserBody(GetUserView(u)))
    ensures resp.status == StatusOK ==>
      resp.body.UserBody? && resp.body.user.notes.None? && resp.body.user.id.Some?
  {
    if !KeyQueryValid(email, id, isEmail) {
      return Response(StatusBadRequest, NoBody);
    }
    if email == "" && id == "" {
      return Response(StatusBadRequest, NoBody);
    }
    var user := store.GetUser(email, id);
    if user.id.None? {
      return Response(StatusNotFound, NoBody);
    }
    var redactedUser := GetUserView(user);
    resp := Response(StatusOK, UserBody(redactedUser));
  }

  /** GET /users. */
  method GetUsers(store: MySQLDataStore, offset: Option<int>) returns (resp: Response)
    ensures !OffsetValid(offset) ==> resp == Response(StatusBadRequest, NoBody)
    ensures OffsetValid(offset) ==>
      var page := Page(store.rows, offset.value);
      resp == Response(StatusOK, if |page| >= 1
                                 then PageBody(GetUsersResult(page, |IdPositions(store.rows)|))
                                 else EmptyObject)
  {
    if !OffsetValid(offset) {
      return Response(StatusBadRequest, NoBody);
    }
    var users := store.GetUsers(offset.value as Int16);
    if |users.users| >= 1 {
      return Response(StatusOK, PageBody(users));
    }
    resp := Response(StatusOK, EmptyObject);
  }

  /** PATCH /user. */
  method UpdateUser(store: MySQLDataStore, body: Option<UpdateUserRequest>, isEmail: string -> bool)
    returns (resp: Response)
    requires store.Valid()
    modifies store
    ensures store.Valid()
    ensures !(body.Some? && UpdateUserRequestValid(body.value, isEmail)) ==>
      resp == Response(StatusBadRequest, NoBody) && store.rows == old(store.rows)
    ensures body.Some? && UpdateUserRequestValid(body.value, isEmail) ==>
      var r := body.value;
      if UniqueEmails(UpdateRows(old(store.rows), r)) then
        store.rows == UpdateRows(old(store.rows), r)
        && resp == Response(if ChangedCount(old(store.rows), r) == 1
                            then StatusOK else StatusInternalServerError, NoBody)
      else
        store.rows == old(store.rows) && resp == Response(StatusInternalServerError, NoBody)
  {
    if !(body.Some? && UpdateUserRequestValid(body.value, isEmail)) {
      return Response(StatusBadRequest, NoBody);
    }
    var updateUserResult := store.UpdateUser(body.value);
    if updateUserResult {
      resp := Response(StatusOK, NoBody);
    } else {
      resp := Response(StatusInternalServerError, NoBody);
    }
  }

  /** GET /search: always 200, with the matching users or an empty array. */
  method Search(store: MySQLDataStore, value: string) returns (resp: Response)
    ensures resp.status == StatusOK && resp.body.UserList?
    ensures resp.body.users == SearchRows(store.rows, Wrap(value))
  {
    var result := store.Search(value);
    if |result| >= 1 {
      return Response(StatusOK, UserList(result));
    }
    resp := Response(StatusOK, UserList([]));
  }

  // ----------------------------------------------------------- scenarios

  /** Add a user, add it again, read it back, delete it, read it again, on an
      empty table. */
  method AddGetDeleteScenario(hash: string -> string, isEmail: string -> bool,
                              id1: string, at1: string, id2: string, at2: string)
    returns (added: Response, again: Response, found: Response, deleted: Response, gone: Response)
    requires isEmail("a@b.com")
    ensures added.status == StatusOK && added.body.UserBody?
    ensures added.body.user.email == "a@b.com" && added.body.user.id == Some(id1)
    ensures again == Response(StatusConflict, NoBody)
    ensures found.status == StatusOK && found.body.UserBody?
    ensures found.body.user.id == added.body.user.id
    ensures deleted == Response(StatusOK, NoBody)
    ensures gone == Response(StatusNotFound, NoBody)
  {
    var store := new MySQLDataStore(hash, []);
    var request := AddUserRequest("a@b.com", "A", "B", None, "x");
    added := AddUser(store, Some(request), isEmail, id1, at1);
    again := AddUser(store, Some(request), isEmail, id2, at2);
    found := GetUser(store, "a@b.com", "", isEmail);
    deleted := DeleteUser(store, "a@b.com", "", isEmail);
    assert store.rows == [];
    gone := GetUser(store, "a@b.com", "", isEmail);
  }

  /** A delete whose email names one user and whose id names another removes
      both rows and answers 500. */
  method DeleteTwoUsersScenario(hash: string -> string, isEmail: string -> bool)
    returns (resp: Response, left: seq<User>)
    requires isEmail("a@b.com")
    ensures resp == Response(StatusInternalServerError, NoBody)
    ensures left == []
  {
    var a := User("a@b.com", Some("1"), Some("t"), None, "h1", "A", "A");
    var b := User("c@d.com", Some("2"), Some("t"), None, "h2", "B", "B");
    var store := new MySQLDataStore(hash, [a, b]);
    resp := DeleteUser(store, "a@b.com", "2", isEmail);
    left := store.rows;
  }
}
