/** MySQLDataStore with the MySQL Users table replaced by an in-memory
    sequence of rows, kept in table order. Each method performs the SQL
    statement of sql.go against that sequence. */
module Sql {
  import opened Users
  import opened SqlLike
  import opened Table

  /** Why AddUser refused: the existence pre-check found the email, or the
      insert hit a unique key (MySQL error 1062). */
  datatype AddUserError = EmailExists | DuplicateKey

  class MySQLDataStore {
    /** The Users table. */
    var rows: seq<User>
    /** The password hash function (bcrypt at cost 13 in the Go code). */
    const hash: string -> string

    /** The table's unique keys hold. */
    ghost predicate Valid()
      reads this
    {
      TableInvariant(rows)
    }

    /** A store over an existing table, which satisfies its own keys. */
    constructor (hash: string -> string, initial: seq<User>)
      requires TableInvariant(initial)
      ensures Valid()
      ensures rows == initial && this.hash == hash
    {
      this.hash := hash;
      rows := initial;
    }

    /** `SELECT EXISTS (SELECT 1 FROM Users WHERE email = ? OR id = ?)`. */
    method UserExists(email: string, id: string) returns (found: bool)
      ensures found <==> exists k | 0 <= k < |rows| :: rows[k].email == email || rows[k].id == Some(id)
    {
      found := FirstMatch(rows, email, id).Some?;
    }

    /** `SELECT * FROM Users WHERE email = ? OR id = ?`, first row scanned,
        or the zero user when none matches. */
    method GetUser(email: string, id: string) returns (u: User)
      ensures u == Lookup(rows, email, id)
    {
      var k := FirstMatch(rows, email, id);
      if k.None? {
        u := EmptyUser;
      } else {
        u := rows[k.value];
      }
    }

    /** Checks that no row has the email (nor the empty id), hashes the
        password, inserts the row if no unique key objects, and answers with
        the stored row's redacted view read back by email. */
    method AddUser(user: User, newId: string, newCreatedAt: string)
      returns (rd: RedactedUser, err: Option<AddUserError>)
      requires Valid()
      modifies this
      ensures Valid()
      ensures err == Some(EmailExists) <==> AnyMatch(old(rows), user.email, "")
      ensures err == Some(DuplicateKey) <==>
        !AnyMatch(old(rows), user.email, "") && IdInUse(old(rows), newId)
      ensures err.Some? ==> rd == EmptyRedactedUser && rows == old(rows)
      ensures err.None? ==> rows == old(rows) + [Inserted(user, hash, newId, newCreatedAt)]
      ensures err.None? ==> rd == Redact(rows[|rows| - 1])
    {
      var userExists := UserExists(user.email, "");
      if userExists {
        return EmptyRedactedUser, Some(EmailExists);
      }
      var row := Inserted(user, hash, newId, newCreatedAt);
      InsertKeepsKeys(rows, row);
      if !TableInvariant(rows + [row]) {
        return EmptyRedactedUser, Some(DuplicateKey);
      }
      LookupAppended(rows, row, user.email, "");
      rows := rows + [row];
      var u := GetUser(user.email, "");
      rd := Redact(u);
      err := None;
    }

    /** Deletes every row matching `email = ? OR ID = ?` after an existence
        check; succeeds only when exactly one row went. */
    method DeleteUser(email: string, id: string) returns (ok: bool)
      requires Valid()
      modifies this
      ensures Valid()
      ensures rows == Without(old(rows), email, id)
      ensures ok <==> MatchCount(old(rows), email, id) == 1
    {
      var userExists := UserExists(email, id);
      if !userExists {
        WithoutNoMatch(rows, email, id);
        return false;
      }
      WithoutKeepsKeys(rows, email, id);
      var before := |rows|;
      rows := Without(rows, email, id);
      var rowsAffected := before - |rows|;
      ok := rowsAffected == 1;
    }

    /** `SELECT COUNT(id) FROM Users`. */
    method GetTotalUserCount() returns (count: nat)
      ensures count == |IdPositions(rows)|
    {
      count := CountWithId(rows);
      CountWithIdIsIdPositions(rows);
    }

    /** `SELECT * FROM Users LIMIT 10 OFFSET ?`, each row redacted, with
        the total count. */
    method GetUsers(offset: Int16) returns (result: GetUsersResult)
      requires 0 <= offset
      ensures result.users == Page(rows, offset as nat)
      ensures result.total == |IdPositions(rows)|
    {
      var start := offset as nat;
      var stop := if start >= |rows| then start else Min(start + PageSize, |rows|);
      var users: seq<RedactedUser> := [];
      var k := start;
      while k < stop
        invariant start <= k <= stop
        invariant |users| == k - start
        invariant forall j | 0 <= j < |users| :: users[j] == Redact(rows[start + j])
      {
        users := users + [Redact(rows[k])];
        k := k + 1;
      }
      var total := GetTotalUserCount();
      result := GetUsersResult(users, total);
    }

    /** `UPDATE Users SET firstName = ?, lastName = ?, notes = ?, email = ?
        WHERE id = ?`; succeeds when MySQL reports exactly one changed row.
        An update that would give two rows one email is refused by the unique
        key and changes nothing. */
    method UpdateUser(req: UpdateUserRequest) returns (ok: bool)
      requires Valid()
      modifies this
      ensures Valid()
      ensures UniqueEmails(UpdateRows(old(rows), req)) ==>
        rows == UpdateRows(old(rows), req) && (ok <==> ChangedCount(old(rows), req) == 1)
      ensures !UniqueEmails(UpdateRows(old(rows), req)) ==> rows == old(rows) && !ok
    {
      var updated := UpdateRows(rows, req);
      if !UniqueEmails(updated) {
        return false;
      }
      UpdateKeepsIds(rows, req);
      var affected := ChangedCount(rows, req);
      rows := updated;
      ok := affected == 1;
    }

    /** The Search query with the value wrapped as `%value%`, each row's
        redacted view collected in table order. */
    method Search(value: string) returns (result: seq<RedactedUser>)
      ensures result == SearchRows(rows, Wrap(value))
    {
      var pattern := Wrap(value);
      result := [];
      var k := 0;
      while k < |rows|
        invariant 0 <= k <= |rows|
        invariant result == SearchRows(rows[..k], pattern)
      {
        assert rows[..k + 1][..k] == rows[..k];
        if SearchMatches(rows[k], pattern) {
          result := result + [Redact(rows[k])];
        }
        k := k + 1;
      }
      assert rows[..k] == rows;
    }
  }
}
