/** The Users table as a sequence of rows in table order, and the meaning of
    each SQL statement of the store as a function of that sequence. */
module Table {
  import opened Users
  import opened SqlLike

  /** The `LIMIT` of the GetUsers query. */
  const PageSize: nat := 10

  function Min(a: int, b: int): int {
    if a <= b then a else b
  }

  /** `WHERE email = ? OR id = ?`: a NULL id equals nothing. */
  predicate Matches(u: User, email: string, id: string) {
    u.email == email || u.id == Some(id)
  }

  /** Some row satisfies `email = ? OR id = ?`. */
  predicate AnyMatch(rows: seq<User>, email: string, id: string) {
    exists k | 0 <= k < |rows| :: Matches(rows[k], email, id)
  }

  /** Some row has the given id. */
  predicate IdInUse(rows: seq<User>, id: string) {
    exists k | 0 <= k < |rows| :: rows[k].id == Some(id)
  }

  /** The unique key on email. */
  predicate UniqueEmails(rows: seq<User>) {
    forall i, j | 0 <= i < j < |rows| :: rows[i].email != rows[j].email
  }

  /** The primary key on id (NULL ids do not collide). */
  predicate UniqueIds(rows: seq<User>) {
    forall i, j | 0 <= i < j < |rows| :: rows[i].id.Some? ==> rows[i].id != rows[j].id
  }

  /** The table's constraints, which every statement keeps. */
  predicate TableInvariant(rows: seq<User>) {
    UniqueEmails(rows) && UniqueIds(rows)
  }

  // ---------------------------------------------------------------- lookup

  /** The position of the first row matching `email = ? OR id = ?`. */
  function FirstMatch(rows: seq<User>, email: string, id: string): (k: Option<nat>)
    ensures k.None? <==> !AnyMatch(rows, email, id)
    ensures k.Some? ==> k.value < |rows| && Matches(rows[k.value], email, id)
    ensures k.Some? ==> forall j | 0 <= j < k.value :: !Matches(rows[j], email, id)
  {
    if rows == [] then None
    else if Matches(rows[0], email, id) then Some(0)
    else
      var rest := FirstMatch(rows[1..], email, id);
      assert forall j | 1 <= j < |rows| :: rows[j] == rows[1..][j - 1];
      match rest
      case None => None
      case Some(k) => Some(k + 1)
  }

  /** The row `SELECT * ... WHERE email = ? OR id = ?` scans first, or the
      zero user when none matches. */
  function Lookup(rows: seq<User>, email: string, id: string): (u: User)
    ensures !AnyMatch(rows, email, id) ==> u == EmptyUser
    ensures AnyMatch(rows, email, id) ==>
      exists k | 0 <= k < |rows| :: rows[k] == u && Matches(u, email, id)
        && forall j | 0 <= j < k :: !Matches(rows[j], email, id)
  {
    match FirstMatch(rows, email, id)
    case None => EmptyUser
    case Some(k) => rows[k]
  }

  /** When no old row matches, the first match after appending a matching row
      is that row. */
  lemma LookupAppended(rows: seq<User>, u: User, email: string, id: string)
    requires !AnyMatch(rows, email, id) && Matches(u, email, id)
    ensures Lookup(rows + [u], email, id) == u
  {
    var all := rows + [u];
    assert all[|rows|] == u;
    assert forall j | 0 <= j < |rows| :: all[j] == rows[j];
  }

  // ---------------------------------------------------------------- insert

  /** The row `INSERT INTO Users (email, passwordHash, firstName, lastName,
      notes)` stores, with the database's id and creation time. */
  function Inserted(user: User, hash: string -> string, newId: string, newCreatedAt: string): User {
    User(user.email, Some(newId), Some(newCreatedAt), user.notes, hash(user.password),
         user.firstName, user.lastName)
  }

  /** With no row holding the new email (nor the empty id), appending a row
      keeps the table's keys exactly when its id is not already taken. */
  lemma InsertKeepsKeys(rows: seq<User>, u: User)
    requires TableInvariant(rows)
    requires !AnyMatch(rows, u.email, "")
    requires u.id.Some?
    ensures TableInvariant(rows + [u]) <==> !IdInUse(rows, u.id.value)
  {
    var all := rows + [u];
    assert forall j | 0 <= j < |rows| :: all[j] == rows[j];
    if IdInUse(rows, u.id.value) {
      var k :| 0 <= k < |rows| && rows[k].id == u.id;
      assert all[k].id == all[|rows|].id;
    }
  }

  // ---------------------------------------------------------------- delete

  /** The rows `DELETE FROM Users WHERE email = ? OR ID = ?` leaves, in order. */
  function Without(rows: seq<User>, email: string, id: string): (r: seq<User>)
    ensures |r| <= |rows|
    ensures forall u :: u in r <==> u in rows && !Matches(u, email, id)
  {
    if rows == [] then []
    else if Matches(rows[0], email, id) then Without(rows[1..], email, id)
    else [rows[0]] + Without(rows[1..], email, id)
  }

  /** The delete keeps the remaining rows in table order: deleting from a
      table made of two parts leaves what is left of the first part followed
      by what is left of the second. */
  lemma {:induction false} WithoutAppend(a: seq<User>, b: seq<User>, email: string, id: string)
    ensures Without(a + b, email, id) == Without(a, email, id) + Without(b, email, id)
    decreases |a|
  {
    if a == [] {
      assert a + b == b;
    } else {
      assert (a + b)[0] == a[0] && (a + b)[1..] == a[1..] + b;
      WithoutAppend(a[1..], b, email, id);
    }
  }

  /** The number of rows the delete removes. */
  function MatchCount(rows: seq<User>, email: string, id: string): (n: nat)
    ensures n + |Without(rows, email, id)| == |rows|
    ensures n == 0 <==> !AnyMatch(rows, email, id)
  {
    if rows == [] then 0
    else
      assert forall j | 1 <= j < |rows| :: rows[j] == rows[1..][j - 1];
      (if Matches(rows[0], email, id) then 1 else 0) + MatchCount(rows[1..], email, id)
  }

  /** A delete that matches nothing leaves the table as it was. */
  lemma {:induction false} WithoutNoMatch(rows: seq<User>, email: string, id: string)
    requires !AnyMatch(rows, email, id)
    ensures Without(rows, email, id) == rows
  {
    if rows != [] {
      assert forall j | 1 <= j < |rows| :: rows[j] == rows[1..][j - 1];
      WithoutNoMatch(rows[1..], email, id);
    }
  }

  lemma UniqueEmailsCons(u: User, rest: seq<User>)
    ensures UniqueEmails([u] + rest) <==>
      (forall v | v in rest :: v.email != u.email) && UniqueEmails(rest)
  {
    var all := [u] + rest;
    assert forall j | 0 <= j < |rest| :: all[j + 1] == rest[j];
    if (forall v | v in rest :: v.email != u.email) && UniqueEmails(rest) {
      forall i, j | 0 <= i < j < |all| ensures all[i].email != all[j].email {
        if i > 0 {
          assert all[i] == rest[i - 1] && all[j] == rest[j - 1];
        } else {
          assert all[j] in rest;
        }
      }
    }
    if UniqueEmails(all) {
      forall v | v in rest ensures v.email != u.email {
        var j :| 0 <= j < |rest| && rest[j] == v;
        assert all[0] == u && all[j + 1] == v;
      }
      forall i, j | 0 <= i < j < |rest| ensures rest[i].email != rest[j].email {
        assert all[i + 1] == rest[i] && all[j + 1] == rest[j];
      }
    }
  }

  lemma UniqueIdsCons(u: User, rest: seq<User>)
    ensures UniqueIds([u] + rest) <==>
      (u.id.Some? ==> forall v | v in rest :: v.id != u.id) && UniqueIds(rest)
  {
    var all := [u] + rest;
    assert forall j | 0 <= j < |rest| :: all[j + 1] == rest[j];
    if (u.id.Some? ==> forall v | v in rest :: v.id != u.id) && UniqueIds(rest) {
      forall i, j | 0 <= i < j < |all| && all[i].id.Some? ensures all[i].id != all[j].id {
        if i > 0 {
          assert all[i] == rest[i - 1] && all[j] == rest[j - 1];
        } else {
          assert all[j] in rest;
        }
      }
    }
    if UniqueIds(all) {
      if u.id.Some? {
        forall v | v in rest ensures v.id != u.id {
          var j :| 0 <= j < |rest| && rest[j] == v;
          assert all[0] == u && all[j + 1] == v;
        }
      }
      forall i, j | 0 <= i < j < |rest| && rest[i].id.Some? ensures rest[i].id != rest[j].id {
        assert all[i + 1] == rest[i] && all[j + 1] == rest[j];
      }
    }
  }

  /** Deleting rows keeps the table's keys. */
  lemma {:induction false} WithoutKeepsKeys(rows: seq<User>, email: string, id: string)
    requires TableInvariant(rows)
    ensures TableInvariant(Without(rows, email, id))
  {
    if rows != [] {
      UniqueEmailsCons(rows[0], rows[1..]);
      UniqueIdsCons(rows[0], rows[1..]);
      assert [rows[0]] + rows[1..] == rows;
      WithoutKeepsKeys(rows[1..], email, id);
      var rest := Without(rows[1..], email, id);
      if !Matches(rows[0], email, id) {
        UniqueEmailsCons(rows[0], rest);
        UniqueIdsCons(rows[0], rest);
      }
    }
  }

  // ---------------------------------------------------------------- update

  /** `SET firstName = ?, lastName = ?, notes = ?, email = ?`. */
  function Updated(u: User, req: UpdateUserRequest): User {
    u.(firstName := req.firstName, lastName := req.lastName, notes := Some(req.notes),
       email := req.email)
  }

  /** `WHERE id = ?`: a NULL on either side matches nothing. */
  predicate Targets(u: User, req: UpdateUserRequest) {
    req.id.Some? && u.id == req.id
  }

  /** The table after `UPDATE Users SET ... WHERE id = ?`. */
  function UpdateRows(rows: seq<User>, req: UpdateUserRequest): seq<User> {
    seq(|rows|, k requires 0 <= k < |rows| =>
      if Targets(rows[k], req) then Updated(rows[k], req) else rows[k])
  }

  /** A targeted row the update actually changes. */
  predicate Changes(u: User, req: UpdateUserRequest) {
    Targets(u, req) && Updated(u, req) != u
  }

  /** MySQL's affected-rows count for an UPDATE: the rows it changed. */
  function ChangedCount(rows: seq<User>, req: UpdateUserRequest): (n: nat)
    ensures n <= |rows|
    ensures n == 0 <==> forall k | 0 <= k < |rows| :: !Changes(rows[k], req)
  {
    if rows == [] then 0
    else
      assert forall j | 1 <= j < |rows| :: rows[j] == rows[1..][j - 1];
      (if Changes(rows[0], req) then 1 else 0) + ChangedCount(rows[1..], req)
  }

  /** The update writes only the four columns it names, and only in the row
      whose id is the request's; id, creation time and password hash stay. */
  lemma UpdateTouchesFourColumns(rows: seq<User>, req: UpdateUserRequest, k: nat)
    requires k < |rows|
    ensures |UpdateRows(rows, req)| == |rows|
    ensures var v := UpdateRows(rows, req)[k];
      v.id == rows[k].id && v.createdAt == rows[k].createdAt && v.password == rows[k].password
    ensures !Targets(rows[k], req) ==> UpdateRows(rows, req)[k] == rows[k]
    ensures Targets(rows[k], req) ==> var v := UpdateRows(rows, req)[k];
      v.email == req.email && v.firstName == req.firstName && v.lastName == req.lastName
        && v.notes == Some(req.notes)
  {
  }

  /** The update leaves the ids where they were, so the primary key holds. */
  lemma UpdateKeepsIds(rows: seq<User>, req: UpdateUserRequest)
    requires UniqueIds(rows)
    ensures UniqueIds(UpdateRows(rows, req))
  {
  }

  /** Because ids are unique, an update changes at most one row, and reports
      exactly one changed row when some row with the id has a value to change. */
  lemma {:induction false} ChangedCountAtMostOne(rows: seq<User>, req: UpdateUserRequest)
    requires UniqueIds(rows)
    ensures ChangedCount(rows, req) <= 1
    ensures ChangedCount(rows, req) == 1 <==> exists k | 0 <= k < |rows| :: Changes(rows[k], req)
  {
    if rows != [] {
      UniqueIdsCons(rows[0], rows[1..]);
      assert [rows[0]] + rows[1..] == rows;
      assert forall j | 1 <= j < |rows| :: rows[j] == rows[1..][j - 1];
      ChangedCountAtMostOne(rows[1..], req);
      if Changes(rows[0], req) {
        forall j | 0 <= j < |rows[1..]| ensures !Changes(rows[1..][j], req) {
          assert rows[1..][j] in rows[1..];
        }
      }
    }
  }

  // ---------------------------------------------------------------- count

  /** `SELECT COUNT(id) FROM Users`: the rows whose id is not NULL. */
  function CountWithId(rows: seq<User>): (n: nat)
    ensures n <= |rows|
    ensures n == |rows| <==> forall k | 0 <= k < |rows| :: rows[k].id.Some?
  {
    if rows == [] then 0
    else
      var init := rows[..|rows| - 1];
      assert forall j | 0 <= j < |init| :: rows[j] == init[j];
      CountWithId(init) + (if rows[|rows| - 1].id.Some? then 1 else 0)
  }

  /** The positions of the rows that have an id. */
  function IdPositions(rows: seq<User>): set<nat> {
    set k: nat | k < |rows| && rows[k].id.Some?
  }

  /** The count is the number of positions holding a row with an id. */
  lemma {:induction false} CountWithIdIsIdPositions(rows: seq<User>)
    ensures CountWithId(rows) == |IdPositions(rows)|
  {
    if rows != [] {
      var init := rows[..|rows| - 1];
      var last := |rows| - 1;
      CountWithIdIsIdPositions(init);
      assert forall j | 0 <= j < |init| :: rows[j] == init[j];
      if rows[last].id.Some? {
        assert IdPositions(rows) == IdPositions(init) + {last};
      } else {
        assert IdPositions(rows) == IdPositions(init);
      }
    }
  }

  // ---------------------------------------------------------------- pages

  /** The rows `LIMIT 10 OFFSET offset` selects. */
  function Window(rows: seq<User>, offset: nat): seq<User> {
    if offset >= |rows| then [] else rows[offset..Min(offset + PageSize, |rows|)]
  }

  /** Redaction of every row, in order. */
  function RedactAll(rows: seq<User>): seq<RedactedUser> {
    seq(|rows|, k requires 0 <= k < |rows| => Redact(rows[k]))
  }

  /** The users in the page GetUsers returns. */
  function Page(rows: seq<User>, offset: nat): seq<RedactedUser> {
    RedactAll(Window(rows, offset))
  }

  /** A page holds at most ten users: those at positions offset, offset+1, ...
      in table order; an offset at or past the end gives an empty page. */
  lemma PageShape(rows: seq<User>, offset: nat)
    ensures |Page(rows, offset)| <= PageSize
    ensures |Page(rows, offset)| == if offset < |rows| then Min(PageSize, |rows| - offset) else 0
    ensures forall k | 0 <= k < |Page(rows, offset)| ::
      Page(rows, offset)[k] == Redact(rows[offset + k])
  {
  }

  /** The pages read from `offset` on, ten rows apart, up to the end. */
  function PagesFrom(rows: seq<User>, offset: nat): seq<RedactedUser>
    decreases |rows| - offset
  {
    if offset >= |rows| then [] else Page(rows, offset) + PagesFrom(rows, offset + PageSize)
  }

  lemma {:induction false} PagesFromSuffix(rows: seq<User>, offset: nat)
    requires offset <= |rows|
    ensures PagesFrom(rows, offset) == RedactAll(rows[offset..])
    decreases |rows| - offset
  {
    if offset < |rows| {
      var stop := Min(offset + PageSize, |rows|);
      if offset + PageSize <= |rows| {
        PagesFromSuffix(rows, offset + PageSize);
      } else {
        assert PagesFrom(rows, offset + PageSize) == [];
        assert rows[stop..] == [];
      }
      assert rows[offset..] == rows[offset..stop] + rows[stop..];
      assert RedactAll(rows[offset..]) == RedactAll(rows[offset..stop]) + RedactAll(rows[stop..]);
    }
  }

  /** Paging from offset 0 to exhaustion yields every user once, in table
      order; when every row has an id the number read is the total count. */
  lemma PagesCoverTable(rows: seq<User>)
    ensures PagesFrom(rows, 0) == RedactAll(rows)
    ensures (forall k | 0 <= k < |rows| :: rows[k].id.Some?) ==>
      |PagesFrom(rows, 0)| == |IdPositions(rows)|
  {
    PagesFromSuffix(rows, 0);
    CountWithIdIsIdPositions(rows);
    assert rows[0..] == rows;
  }

  // ---------------------------------------------------------------- search

  /** `email LIKE ? OR id LIKE ? OR passwordHash LIKE ? OR firstName LIKE ?
      OR lastName LIKE ? OR CAST(createdAt AS CHAR) LIKE ?`: a NULL column
      matches nothing. */
  predicate SearchMatches(u: User, pattern: string) {
    Like(u.email, pattern) || (u.id.Some? && Like(u.id.value, pattern))
    || Like(u.password, pattern) || Like(u.firstName, pattern) || Like(u.lastName, pattern)
    || (u.createdAt.Some? && Like(u.createdAt.value, pattern))
  }

  /** The redacted rows the Search query returns, in table order. */
  function SearchRows(rows: seq<User>, pattern: string): (r: seq<RedactedUser>)
    ensures |r| <= |rows|
    ensures forall u | u in rows && SearchMatches(u, pattern) :: Redact(u) in r
    ensures forall x | x in r :: exists u | u in rows :: SearchMatches(u, pattern) && x == Redact(u)
  {
    if rows == [] then []
    else
      var init := rows[..|rows| - 1];
      var last := rows[|rows| - 1];
      assert rows == init + [last];
      SearchRows(init, pattern) + (if SearchMatches(last, pattern) then [Redact(last)] else [])
  }

  /** Search keeps table order: the results from an earlier part of the table
      come before those from a later part. */
  lemma {:induction false} SearchRowsAppend(a: seq<User>, b: seq<User>, pattern: string)
    ensures SearchRows(a + b, pattern) == SearchRows(a, pattern) + SearchRows(b, pattern)
    decreases |b|
  {
    if b == [] {
      assert a + b == a;
    } else {
      var init := b[..|b| - 1];
      SearchRowsAppend(a, init, pattern);
      assert (a + b)[..|a + b| - 1] == a + init;
      assert (a + b)[|a + b| - 1] == b[|b| - 1];
    }
  }

  /** Searching for the empty value returns every user. */
  lemma {:induction false} SearchEmptyReturnsAll(rows: seq<User>)
    ensures SearchRows(rows, Wrap("")) == RedactAll(rows)
  {
    if rows != [] {
      var init := rows[..|rows| - 1];
      var last := rows[|rows| - 1];
      SearchEmptyReturnsAll(init);
      EmptyValueMatchesAll(last.email);
      assert RedactAll(rows) == RedactAll(init) + [Redact(last)];
    }
  }

  /** A user one of whose six searched columns contains the value is among
      the results of searching for it, whatever wildcards the value holds. */
  lemma SearchFindsSubstring(rows: seq<User>, u: User, v: string)
    requires u in rows
    requires Contains(u.email, v) || (u.id.Some? && Contains(u.id.value, v))
      || Contains(u.password, v) || Contains(u.firstName, v) || Contains(u.lastName, v)
      || (u.createdAt.Some? && Contains(u.createdAt.value, v))
    ensures Redact(u) in SearchRows(rows, Wrap(v))
  {
    if Contains(u.email, v) {
      ContainedMatchesWrapped(u.email, v);
    } else if u.id.Some? && Contains(u.id.value, v) {
      ContainedMatchesWrapped(u.id.value, v);
    } else if Contains(u.password, v) {
      ContainedMatchesWrapped(u.password, v);
    } else if Contains(u.firstName, v) {
      ContainedMatchesWrapped(u.firstName, v);
    } else if Contains(u.lastName, v) {
      ContainedMatchesWrapped(u.lastName, v);
    } else {
      ContainedMatchesWrapped(u.createdAt.value, v);
    }
  }
}
