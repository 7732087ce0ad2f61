/** The SQL store the package talks to: the four tables SetupDatabase creates
    (helpers.go), their UNIQUE constraints, and the meaning of the INSERT,
    UPDATE, DELETE and SELECT statements the package issues.  The store itself
    is a class whose fields are the tables. */
module Database {
  import opened Wrappers
  import opened Settings
  import opened Helpers

  // ---------------------------------------------------------------- users

  /** A row of the users table.  Columns declared NOT NULL hold plain values;
      last_login may be NULL. */
  datatype UserRow = UserRow(
    id: int,
    email: string,
    password: string,
    status: int,
    verified: int,
    resettable: int,
    roles: int,
    registered: int,
    lastLogin: NullInt64,
    forceLogout: int)

  /** The row an INSERT of email, password and registered creates: every other
      column takes its declared default. */
  function InsertedUser(id: int, email: string, password: string, registered: int): UserRow {
    UserRow(id, email, password, StatusNormal, 0, 1, RoleUser, registered, NullInt, 0)
  }

  /** A value bound to a statement parameter. */
  datatype Value = IntValue(number: int) | TextValue(text: string) | NullValue

  /** What database/sql sends for a nullable value: NULL when it is not valid. */
  function IntOrNull(n: NullInt64): Value { if n.valid then IntValue(n.value) else NullValue }
  function TextOrNull(s: NullString): Value { if s.valid then TextValue(s.text) else NullValue }

  /** One `column = value` pair of a SET list or a WHERE clause. */
  datatype FieldValuePair = FieldValuePair(column: string, value: Value)

  const UserColumns: set<string> :=
    {"id", "email", "password", "status", "verified", "resettable", "roles_mask",
     "registered", "last_login", "force_logout"}

  /** The columns an UPDATE may assign in this model (all but the key). */
  const AssignableColumns: set<string> := UserColumns - {"id"}

  /** The value a SELECT reads from one column of a row (NULL for a name the
      table does not have). */
  function Column(row: UserRow, name: string): Value {
    if name == "id" then IntValue(row.id)
    else if name == "email" then TextValue(row.email)
    else if name == "password" then TextValue(row.password)
    else if name == "status" then IntValue(row.status)
    else if name == "verified" then IntValue(row.verified)
    else if name == "resettable" then IntValue(row.resettable)
    else if name == "roles_mask" then IntValue(row.roles)
    else if name == "registered" then IntValue(row.registered)
    else if name == "last_login" then IntOrNull(row.lastLogin)
    else if name == "force_logout" then IntValue(row.forceLogout)
    else NullValue
  }

  /** One assignment `column = value` applied to a row: NULL is refused by the
      NOT NULL columns, and a value of the wrong kind by every column. */
  function SetColumn(row: UserRow, p: FieldValuePair): (r: Result<UserRow, Error>)
    requires p.column in AssignableColumns
    ensures r.Success? ==> r.value.id == row.id
    ensures r.Success? ==> Column(r.value, p.column) == p.value
    ensures r.Success? ==> forall c :: c != p.column ==> Column(r.value, c) == Column(row, c)
    ensures r.Failure? ==> r.error == NotNull || r.error == DatatypeMismatch
    ensures r.Failure? && r.error == NotNull <==> p.value.NullValue? && p.column != "last_login"
  {
    match p.value
    case NullValue =>
      if p.column == "last_login" then Success(row.(lastLogin := NullInt)) else Failure(NotNull)
    case TextValue(s) =>
      if p.column == "email" then Success(row.(email := s))
      else if p.column == "password" then Success(row.(password := s))
      else Failure(DatatypeMismatch)
    case IntValue(n) =>
      if p.column == "status" then Success(row.(status := n))
      else if p.column == "verified" then Success(row.(verified := n))
      else if p.column == "resettable" then Success(row.(resettable := n))
      else if p.column == "roles_mask" then Success(row.(roles := n))
      else if p.column == "registered" then Success(row.(registered := n))
      else if p.column == "last_login" then Success(row.(lastLogin := NewNullInt64(n)))
      else if p.column == "force_logout" then Success(row.(forceLogout := n))
      else Failure(DatatypeMismatch)
  }

  /** The value column `c` holds after the assignments `fields`, when it held
      `current` before them: the last assignment to `c` wins. */
  function Assigned(fields: seq<FieldValuePair>, c: string, current: Value): Value {
    if fields == [] then current
    else Assigned(fields[1..], c, if fields[0].column == c then fields[0].value else current)
  }

  /** A column that no assignment names keeps its value. */
  lemma {:induction false} UnassignedColumnKept(fields: seq<FieldValuePair>, c: string, current: Value)
    requires forall p <- fields :: p.column != c
    ensures Assigned(fields, c, current) == current
  {
    if fields != [] {
      UnassignedColumnKept(fields[1..], c, current);
    }
  }

  /** The SET list of an UPDATE applied to one row, left to right. */
  function SetColumns(row: UserRow, fields: seq<FieldValuePair>): (r: Result<UserRow, Error>)
    requires forall p <- fields :: p.column in AssignableColumns
    ensures r.Success? ==> r.value.id == row.id
    ensures r.Success? ==> forall c :: Column(r.value, c) == Assigned(fields, c, Column(row, c))
    decreases |fields|
  {
    if fields == [] then Success(row)
    else
      match SetColumn(row, fields[0])
      case Failure(e) => Failure(e)
      case Success(next) => SetColumns(next, fields[1..])
  }

  /** `WHERE id = ?` with that value bound: NULL and text match no row. */
  predicate IdMatches(row: UserRow, where: Value) {
    where == IntValue(row.id)
  }

  /** The SET list applied to every row the WHERE clause selects. */
  function UpdateRows(users: seq<UserRow>, where: Value, fields: seq<FieldValuePair>): (r: Result<seq<UserRow>, Error>)
    requires forall p <- fields :: p.column in AssignableColumns
    ensures r.Success? ==> |r.value| == |users|
    ensures r.Success? ==> forall i :: 0 <= i < |users| ==> r.value[i].id == users[i].id
    ensures r.Success? ==> forall i :: 0 <= i < |users| ==>
      if IdMatches(users[i], where) then SetColumns(users[i], fields) == Success(r.value[i])
      else r.value[i] == users[i]
    ensures r.Failure? ==>
      exists i :: 0 <= i < |users| && IdMatches(users[i], where) && SetColumns(users[i], fields) == Failure(r.error)
  {
    if users == [] then Success([])
    else
      var last := users[|users| - 1];
      match UpdateRows(users[..|users| - 1], where, fields)
      case Failure(e) => Failure(e)
      case Success(front) =>
        if IdMatches(last, where) then
          match SetColumns(last, fields)
          case Failure(e) => Failure(e)
          case Success(u) => Success(front + [u])
        else Success(front + [last])
  }

  predicate UniqueEmails(users: seq<UserRow>) {
    forall i, j | 0 <= i < j < |users| :: users[i].email != users[j].email
  }

  predicate UniqueIDs(users: seq<UserRow>) {
    forall i, j | 0 <= i < j < |users| :: users[i].id != users[j].id
  }

  /** The UNIQUE constraint on email covers every row, whatever its status. */
  predicate EmailTaken(users: seq<UserRow>, email: string) {
    exists u <- users :: u.email == email
  }

  /** `UPDATE users SET fields WHERE id = where` as one statement: an unknown
      column fails before anything is written; a refused value or a second row
      with the same e-mail address fails the whole statement. */
  function UpdateUsers(users: seq<UserRow>, where: Value, fields: seq<FieldValuePair>): (r: Result<seq<UserRow>, Error>)
    requires forall p <- fields :: p.column != "id"
    ensures (exists p <- fields :: p.column !in UserColumns) ==> r == Failure(NoSuchColumn)
    ensures r.Success? ==> UniqueEmails(r.value)
    ensures r.Success? ==> |r.value| == |users|
    ensures r.Success? ==> forall i :: 0 <= i < |users| ==> r.value[i].id == users[i].id
    ensures r.Success? ==> forall i :: 0 <= i < |users| ==>
      if IdMatches(users[i], where) then SetColumns(users[i], fields) == Success(r.value[i])
      else r.value[i] == users[i]
  {
    if exists p <- fields :: p.column !in UserColumns then Failure(NoSuchColumn)
    else
      match UpdateRows(users, where, fields)
      case Failure(e) => Failure(e)
      case Success(updated) => if UniqueEmails(updated) then Success(updated) else Failure(UniqueEmail)
  }

  /** The table with every row of that id replaced by `row`. */
  function ReplaceRow(users: seq<UserRow>, id: int, row: UserRow): seq<UserRow> {
    seq(|users|, i requires 0 <= i < |users| => if users[i].id == id then row else users[i])
  }

  /** An UPDATE by the id of an existing row replaces that row, and only it,
      by the row its SET list produces. */
  lemma UpdateOneRow(users: seq<UserRow>, u: UserRow, fields: seq<FieldValuePair>, u': UserRow)
    requires UniqueIDs(users) && u in users
    requires forall p <- fields :: p.column in AssignableColumns
    requires SetColumns(u, fields) == Success(u')
    requires UniqueEmails(ReplaceRow(users, u.id, u'))
    ensures UpdateUsers(users, IntValue(u.id), fields) == Success(ReplaceRow(users, u.id, u'))
  {
    OnlyRowWithID(users, u);
    var r := UpdateRows(users, IntValue(u.id), fields);
    assert r.Success?;
    assert r.value == ReplaceRow(users, u.id, u');
  }

  /** With unique ids, `u` is the only row `WHERE id = u.id` selects. */
  lemma OnlyRowWithID(users: seq<UserRow>, u: UserRow)
    requires UniqueIDs(users) && u in users
    ensures forall i :: 0 <= i < |users| && IdMatches(users[i], IntValue(u.id)) ==> users[i] == u
  {
    forall i | 0 <= i < |users| && IdMatches(users[i], IntValue(u.id))
      ensures users[i] == u
    {
      var k :| 0 <= k < |users| && users[k] == u;
      assert users[i].id == users[k].id;
    }
  }

  /** An UPDATE of one column of an existing row: the column's refusal of the
      value, or a clash with another row's address, or that row replaced. */
  lemma SingleColumnUpdate(users: seq<UserRow>, u: UserRow, p: FieldValuePair)
    requires UniqueIDs(users) && UniqueEmails(users) && u in users
    requires p.column in AssignableColumns
    ensures UpdateUsers(users, IntValue(u.id), [p]) ==
      match SetColumn(u, p)
      case Failure(e) => Failure(e)
      case Success(u') =>
        if p.column == "email" && EmailTakenByOther(users, u'.email, u.id) then Failure(UniqueEmail)
        else Success(ReplaceRow(users, u.id, u'))
  {
    assert SetColumns(u, [p]) == SetColumn(u, p);
    OnlyRowWithID(users, u);
    match SetColumn(u, p)
    case Failure(e) =>
    case Success(u') =>
      if p.column == "email" {
        ReplaceWithNewEmail(users, u, u');
      } else {
        assert Column(u', "email") == Column(u, "email");
        ReplaceKeepsEmails(users, u, u');
      }
      if UniqueEmails(ReplaceRow(users, u.id, u')) {
        UpdateOneRow(users, u, [p], u');
      } else {
        var r := UpdateRows(users, IntValue(u.id), [p]);
        assert r.Success?;
        assert r.value == ReplaceRow(users, u.id, u');
      }
  }

  /** An UPDATE whose WHERE clause selects no row changes nothing, whatever
      it assigns, once every column it names exists. */
  lemma NoMatchingRowUpdate(users: seq<UserRow>, where: Value, fields: seq<FieldValuePair>)
    requires UniqueEmails(users)
    requires forall p <- fields :: p.column in AssignableColumns
    requires forall u <- users :: !IdMatches(u, where)
    ensures UpdateUsers(users, where, fields) == Success(users)
  {
    var r := UpdateRows(users, where, fields);
    assert r.Success?;
    assert r.value == users;
  }

  /** A successful UPDATE keeps the users table valid. */
  lemma UpdateKeepsValid(users: seq<UserRow>, nextUserID: int, where: Value, fields: seq<FieldValuePair>)
    requires UsersValid(users, nextUserID) && forall p <- fields :: p.column != "id"
    requires UpdateUsers(users, where, fields).Success?
    ensures UsersValid(UpdateUsers(users, where, fields).value, nextUserID)
  {
    var t := UpdateUsers(users, where, fields).value;
    forall u <- t ensures u.id < nextUserID {
      var i :| 0 <= i < |t| && t[i] == u;
      assert users[i] in users;
    }
  }

  /** Inserting a row with a fresh address and the next id keeps the users
      table valid. */
  lemma AppendUserKeepsValid(users: seq<UserRow>, nextUserID: int, row: UserRow)
    requires UsersValid(users, nextUserID) && !EmailTaken(users, row.email) && row.id == nextUserID
    ensures UsersValid(users + [row], nextUserID + 1)
  {
    var t := users + [row];
    forall i, j | 0 <= i < j < |t| ensures t[i].email != t[j].email && t[i].id != t[j].id {
      if j == |users| {
        assert t[i] in users;
      }
    }
  }

  /** Replacing the row just appended, whose id no earlier row has, changes
      only the last position. */
  lemma ReplaceLastRow(users: seq<UserRow>, row: UserRow, row': UserRow)
    requires forall u <- users :: u.id != row.id
    ensures ReplaceRow(users + [row], row.id, row') == users + [row']
  {
    var t := users + [row];
    forall i | 0 <= i < |users| ensures t[i].id != row.id {
      assert users[i] in users;
    }
  }

  /** Inserting a row with a fresh selector keeps selectors unique. */
  lemma AppendKeepsSelectorsUnique(rows: seq<Credential>, c: Credential)
    requires UniqueSelectors(rows) && !SelectorTaken(rows, c.selector)
    ensures UniqueSelectors(rows + [c])
  {
    var t := rows + [c];
    forall i, j | 0 <= i < j < |t| ensures t[i].selector != t[j].selector {
      if j == |rows| {
        assert t[i] in rows;
      }
    }
  }

  /** What an UPDATE statement leaves behind: the new table and no error, or
      the error and the old table. */
  predicate UpdateApplied(before: seq<UserRow>, result: Result<seq<UserRow>, Error>, r: Outcome<Error>, after: seq<UserRow>) {
    match result
    case Success(t) => r == Pass && after == t
    case Failure(e) => r == Fail(e) && after == before
  }

  /** Replacing a row by one with the same address keeps addresses unique. */
  lemma ReplaceKeepsEmails(users: seq<UserRow>, u: UserRow, u': UserRow)
    requires UniqueEmails(users) && UniqueIDs(users) && u in users && u'.email == u.email
    ensures UniqueEmails(ReplaceRow(users, u.id, u'))
  {
    var r := ReplaceRow(users, u.id, u');
    forall i, j | 0 <= i < j < |r| ensures r[i].email != r[j].email {
      var k :| 0 <= k < |users| && users[k] == u;
      assert users[i].id == u.id ==> i == k;
      assert users[j].id == u.id ==> j == k;
    }
  }

  /** Giving a row a new address keeps addresses unique exactly when no other
      row holds that address. */
  lemma ReplaceWithNewEmail(users: seq<UserRow>, u: UserRow, u': UserRow)
    requires UniqueEmails(users) && UniqueIDs(users) && u in users && u'.id == u.id
    ensures UniqueEmails(ReplaceRow(users, u.id, u')) <==> !EmailTakenByOther(users, u'.email, u.id)
  {
    var r := ReplaceRow(users, u.id, u');
    var k :| 0 <= k < |users| && users[k] == u;
    if EmailTakenByOther(users, u'.email, u.id) {
      var o :| o in users && o.email == u'.email && o.id != u.id;
      var m :| 0 <= m < |users| && users[m] == o;
      assert r[m] == o && r[k] == u';
      assert m != k;
      if m < k { assert r[m].email == r[k].email; } else { assert r[k].email == r[m].email; }
    } else {
      forall i, j | 0 <= i < j < |r| ensures r[i].email != r[j].email {
        assert users[i].id == u.id ==> i == k;
        assert users[j].id == u.id ==> j == k;
      }
    }
  }

  /** Some row other than the one with id `id` holds the address. */
  predicate EmailTakenByOther(users: seq<UserRow>, email: string, id: int) {
    exists o <- users :: o.email == email && o.id != id
  }

  /** `SELECT * FROM users WHERE email = ? AND status = STATUS_NORMAL`, first row. */
  function UserWithEmail(users: seq<UserRow>, email: string): (r: Option<UserRow>)
    ensures r.Some? ==> r.value in users && r.value.email == email && r.value.status == StatusNormal
    ensures r.None? <==> forall u <- users :: !(u.email == email && u.status == StatusNormal)
  {
    if users == [] then None
    else if users[0].email == email && users[0].status == StatusNormal then Some(users[0])
    else UserWithEmail(users[1..], email)
  }

  /** `SELECT * FROM users WHERE id = ? AND status = STATUS_NORMAL`, first row. */
  function UserWithID(users: seq<UserRow>, id: int): (r: Option<UserRow>)
    ensures r.Some? ==> r.value in users && r.value.id == id && r.value.status == StatusNormal
    ensures r.None? <==> forall u <- users :: !(u.id == id && u.status == StatusNormal)
  {
    if users == [] then None
    else if users[0].id == id && users[0].status == StatusNormal then Some(users[0])
    else UserWithID(users[1..], id)
  }

  /** The account an INSERT creates under the next id with a fresh address is
      the one both lookups then find; it has status Normal and is unverified. */
  lemma InsertedUserIsFound(users: seq<UserRow>, nextUserID: int, email: string, password: string, registered: int)
    requires UsersValid(users, nextUserID) && !EmailTaken(users, email)
    ensures var row := InsertedUser(nextUserID, email, password, registered);
      UserWithEmail(users + [row], email) == Some(row) && UserWithID(users + [row], nextUserID) == Some(row)
      && row.status == StatusNormal && row.verified == 0
  {
    var row := InsertedUser(nextUserID, email, password, registered);
    var t := users + [row];
    assert row in t;
    assert forall u <- t :: u.email == email ==> u == row;
    assert forall u <- t :: u.id == nextUserID ==> u == row;
  }

  /** `DELETE FROM users WHERE id = ?`. */
  function DeleteUserRows(users: seq<UserRow>, where: Value): (r: seq<UserRow>)
    ensures forall u :: u in r <==> u in users && !IdMatches(u, where)
    ensures UniqueEmails(users) ==> UniqueEmails(r)
    ensures UniqueIDs(users) ==> UniqueIDs(r)
  {
    if users == [] then []
    else
      var rest := DeleteUserRows(users[1..], where);
      if IdMatches(users[0], where) then rest
      else
        HeadIsFresh(users, rest);
        [users[0]] + rest
  }

  /** Putting back the first row in front of a sub-table of the others keeps
      addresses and ids unique. */
  lemma HeadIsFresh(users: seq<UserRow>, rest: seq<UserRow>)
    requires users != [] && forall u <- rest :: u in users[1..]
    ensures UniqueEmails(users) && UniqueEmails(rest) ==> UniqueEmails([users[0]] + rest)
    ensures UniqueIDs(users) && UniqueIDs(rest) ==> UniqueIDs([users[0]] + rest)
  {
    var r := [users[0]] + rest;
    forall j | 1 <= j < |r| ensures exists k :: 1 <= k < |users| && r[j] == users[k] {
      assert r[j] == rest[j - 1] && rest[j - 1] in users[1..];
      var k :| 0 <= k < |users| - 1 && users[1..][k] == rest[j - 1];
      assert users[k + 1] == r[j];
    }
  }

  // ---------------------------------------------------------- credentials

  /** A row of one of the three credential tables: the selector names it, the
      token column holds the digest of the secret, and expires is a Unix time.
      A confirmation also carries the address it confirms.  `id` is NULL until
      the row has been inserted. */
  datatype Credential =
    | Confirmation(id: NullInt64, userID: int, email: string, selector: string, token: string, expires: int)
    | Remember(id: NullInt64, userID: int, selector: string, token: string, expires: int)
    | Reset(id: NullInt64, userID: int, selector: string, token: string, expires: int)
  {
    /** The record as stored under the key `n` the table gave it. */
    function WithID(n: int): Credential { this.(id := NewNullInt64(n)) }

    /** HasExpired of the three record types: a confirmation is dead from its
        expiry second on, a remember-me or reset credential only after it. */
    function HasExpired(now: int): (expired: bool)
      ensures expired ==> now >= expires
      ensures now > expires ==> expired
      ensures now == expires ==> (expired <==> Confirmation?)
    {
      match this
      case Confirmation(_, _, _, _, _, expires) => now >= expires
      case _ => now > expires
    }
  }

  /** A credential as its constructor returns it: the record to insert and
      the plaintext token, which lives only in memory. */
  datatype Issued = Issued(credential: Credential, plaintext: string) {
    /** The record stores the digest of the plaintext token, as every
        constructor leaves it. */
    predicate Sealed() { credential.token == HashPassword(plaintext) }

    /** The plaintext token: the stored digest verifies against it, and it is
        not what the table holds. */
    function GetToken(): (token: string)
      ensures Sealed() ==> VerifyHash(credential.token, token) && token != credential.token
    {
      DigestIsNotPlaintext(plaintext);
      plaintext
    }

    /** The selector: a lookup by it finds this record. */
    function GetSelector(): (selector: string)
      ensures FindBySelector([credential], selector) == Some(credential)
    {
      credential.selector
    }
  }

  predicate UniqueSelectors(rows: seq<Credential>) {
    forall i, j | 0 <= i < j < |rows| :: rows[i].selector != rows[j].selector
  }

  predicate SelectorTaken(rows: seq<Credential>, selector: string) {
    exists c <- rows :: c.selector == selector
  }

  /** `SELECT * WHERE selector = ?`, first row. */
  function FindBySelector(rows: seq<Credential>, selector: string): (r: Option<Credential>)
    ensures r.Some? ==> r.value in rows && r.value.selector == selector
    ensures r.None? <==> !SelectorTaken(rows, selector)
  {
    if rows == [] then None
    else if rows[0].selector == selector then Some(rows[0])
    else FindBySelector(rows[1..], selector)
  }

  /** With unique selectors a selector names at most one row. */
  lemma SelectorNamesOneRow(rows: seq<Credential>, c: Credential, d: Credential)
    requires UniqueSelectors(rows) && c in rows && d in rows && c.selector == d.selector
    ensures c == d
  {
    var i :| 0 <= i < |rows| && rows[i] == c;
    var j :| 0 <= j < |rows| && rows[j] == d;
    assert i == j;
  }

  /** `SELECT * WHERE user_id = ?`, in table order. */
  function RowsOfUser(rows: seq<Credential>, userID: int): (r: seq<Credential>)
    ensures forall c :: c in r <==> c in rows && c.userID == userID
  {
    if rows == [] then []
    else
      var last := rows[|rows| - 1];
      assert forall c :: c in rows <==> c in rows[..|rows| - 1] || c == last;
      RowsOfUser(rows[..|rows| - 1], userID) + (if last.userID == userID then [last] else [])
  }

  /** `SELECT COUNT(*) WHERE user_id = ?`: every row of the user, expired or not. */
  function CountOfUser(rows: seq<Credential>, userID: int): nat {
    if rows == [] then 0
    else CountOfUser(rows[..|rows| - 1], userID) + (if rows[|rows| - 1].userID == userID then 1 else 0)
  }

  /** The count never exceeds the table, and it is 0 exactly when the user
      owns no row. */
  lemma {:induction false} CountOfUserBounds(rows: seq<Credential>, userID: int)
    ensures CountOfUser(rows, userID) <= |rows|
    ensures CountOfUser(rows, userID) == 0 <==> forall c <- rows :: c.userID != userID
  {
    if rows != [] {
      CountOfUserBounds(rows[..|rows| - 1], userID);
      assert forall c :: c in rows <==> c in rows[..|rows| - 1] || c == rows[|rows| - 1];
    }
  }

  /** The count is the number of rows the select by user returns. */
  lemma {:induction false} CountIsRowsOfUser(rows: seq<Credential>, userID: int)
    ensures CountOfUser(rows, userID) == |RowsOfUser(rows, userID)|
  {
    if rows != [] {
      CountIsRowsOfUser(rows[..|rows| - 1], userID);
    }
  }

  /** Inserting a row adds one to its owner's count and nothing to anyone else's. */
  lemma CountAfterInsert(rows: seq<Credential>, c: Credential, userID: int)
    ensures CountOfUser(rows + [c], userID) == CountOfUser(rows, userID) + (if c.userID == userID then 1 else 0)
  {
    assert (rows + [c])[..|rows|] == rows;
  }

  /** `DELETE WHERE selector = ?`. */
  function WithoutSelector(rows: seq<Credential>, selector: string): (r: seq<Credential>)
    ensures forall c :: c in r <==> c in rows && c.selector != selector
    ensures UniqueSelectors(rows) ==> UniqueSelectors(r)
    ensures !SelectorTaken(rows, selector) ==> r == rows
  {
    if rows == [] then []
    else
      var rest := WithoutSelector(rows[1..], selector);
      if rows[0].selector == selector then rest
      else
        HeadKeepsSelectorsUnique(rows, rest);
        [rows[0]] + rest
  }

  /** Putting the first row back in front of rows drawn from the remainder
      keeps selectors unique. */
  lemma HeadKeepsSelectorsUnique(rows: seq<Credential>, rest: seq<Credential>)
    requires rows != [] && forall c <- rest :: c in rows[1..]
    ensures UniqueSelectors(rows) && UniqueSelectors(rest) ==> UniqueSelectors([rows[0]] + rest)
  {
    if UniqueSelectors(rows) && UniqueSelectors(rest) {
      var r := [rows[0]] + rest;
      forall j | 1 <= j < |r| ensures r[j].selector != rows[0].selector {
        assert r[j] == rest[j - 1] && rest[j - 1] in rows[1..];
        var k :| 0 <= k < |rows| - 1 && rows[1..][k] == rest[j - 1];
        assert rows[k + 1] == r[j];
      }
    }
  }

  /** With unique selectors the delete by selector removes exactly one row
      when the selector is present. */
  lemma {:induction false} WithoutSelectorRemovesOne(rows: seq<Credential>, selector: string)
    requires UniqueSelectors(rows) && SelectorTaken(rows, selector)
    ensures |WithoutSelector(rows, selector)| == |rows| - 1
  {
    if rows[0].selector == selector {
      assert !SelectorTaken(rows[1..], selector) by {
        forall c <- rows[1..] ensures c.selector != selector {
          var j :| 1 <= j < |rows| && rows[j] == c;
        }
      }
    } else {
      var c :| c in rows && c.selector == selector;
      assert c in rows[1..];
      WithoutSelectorRemovesOne(rows[1..], selector);
    }
  }

  /** `DELETE WHERE user_id = ?`. */
  function WithoutUser(rows: seq<Credential>, userID: int): (r: seq<Credential>)
    ensures forall c :: c in r <==> c in rows && c.userID != userID
    ensures UniqueSelectors(rows) ==> UniqueSelectors(r)
  {
    if rows == [] then []
    else
      var rest := WithoutUser(rows[1..], userID);
      if rows[0].userID == userID then rest
      else
        assert forall c <- rest :: c in rows[1..];
        [rows[0]] + rest
  }

  /** After the delete by user that user has no rows left, and everyone
      else keeps theirs. */
  lemma {:induction false} CountAfterDeleteUser(rows: seq<Credential>, userID: int, other: int)
    ensures CountOfUser(WithoutUser(rows, userID), other) ==
            if other == userID then 0 else CountOfUser(rows, other)
  {
    if rows != [] {
      CountAfterDeleteUser(rows[1..], userID, other);
      CountOfFront(rows, other);
      var rest := WithoutUser(rows[1..], userID);
      if rows[0].userID != userID {
        CountOfFront([rows[0]] + rest, other);
        assert ([rows[0]] + rest)[1..] == rest;
      }
    }
  }

  /** The count, read from the front of the table. */
  lemma {:induction false} CountOfFront(rows: seq<Credential>, userID: int)
    requires rows != []
    ensures CountOfUser(rows, userID) ==
            (if rows[0].userID == userID then 1 else 0) + CountOfUser(rows[1..], userID)
  {
    if |rows| > 1 {
      CountOfFront(rows[..|rows| - 1], userID);
      assert rows[..|rows| - 1][1..] == rows[1..][..|rows[1..]| - 1];
    }
  }

  /** The rows of one user, scanned one by one as the source's loop over the
      result set appends them. */
  method ScanByUserID(rows: seq<Credential>, userID: int) returns (found: seq<Credential>)
    ensures found == RowsOfUser(rows, userID)
  {
    found := [];
    for i := 0 to |rows|
      invariant found == RowsOfUser(rows[..i], userID)
    {
      assert rows[..i + 1][..i] == rows[..i];
      if rows[i].userID == userID {
        found := found + [rows[i]];
      }
    }
    assert rows[..|rows|] == rows;
  }

  // ---------------------------------------------------------------- store

  predicate UsersValid(users: seq<UserRow>, nextUserID: int) {
    UniqueEmails(users) && UniqueIDs(users) && forall u <- users :: u.id < nextUserID
  }

  predicate ConfirmationsValid(rows: seq<Credential>) {
    UniqueSelectors(rows) && forall c <- rows :: c.Confirmation?
  }

  predicate RememberedValid(rows: seq<Credential>) {
    UniqueSelectors(rows) && forall c <- rows :: c.Remember?
  }

  predicate ResetsValid(rows: seq<Credential>) {
    UniqueSelectors(rows) && forall c <- rows :: c.Reset?
  }

  /** The database a flow is handed: its connection state and its four tables,
      each with the id its AUTOINCREMENT key gives the next inserted row. */
  class Store {
    var connection: Connection
    var users: seq<UserRow>
    var nextUserID: int
    var confirmations: seq<Credential>
    var nextConfirmationID: int
    var remembered: seq<Credential>
    var nextRememberID: int
    var resets: seq<Credential>
    var nextResetID: int

    /** The UNIQUE constraints on users.email and on each table's selector,
        distinct user ids below the next one, and each table holding its kind. */
    ghost predicate Valid()
      reads this
    {
      UsersValid(users, nextUserID)
      && ConfirmationsValid(confirmations)
      && RememberedValid(remembered)
      && ResetsValid(resets)
    }

    /** A freshly set-up database: four empty tables. */
    constructor (connection: Connection)
      ensures Valid() && this.connection == connection
      ensures users == [] && confirmations == [] && remembered == [] && resets == []
    {
      this.connection := connection;
      users, confirmations, remembered, resets := [], [], [], [];
      nextUserID, nextConfirmationID, nextRememberID, nextResetID := 1, 1, 1, 1;
    }

    /** database.Update on the users table: `UPDATE users SET fields WHERE id = where`. */
    method UpdateWhere(where: Value, fields: seq<FieldValuePair>) returns (r: Outcome<Error>)
      requires Valid() && forall p <- fields :: p.column != "id"
      modifies this`users
      ensures Valid()
      ensures UpdateApplied(old(users), UpdateUsers(old(users), where, fields), r, users)
    {
      match UpdateUsers(users, where, fields)
      case Success(t) =>
        UpdateKeepsValid(users, nextUserID, where, fields);
        users := t;
        r := Pass;
      case Failure(e) =>
        r := Fail(e);
    }

    /** database.Delete on the users table: `DELETE FROM users WHERE id = where`. */
    method DeleteWhere(where: Value) returns (r: Outcome<Error>)
      requires Valid()
      modifies this`users
      ensures Valid()
      ensures r == Pass && users == DeleteUserRows(old(users), where)
    {
      users := DeleteUserRows(users, where);
      r := Pass;
    }
  }
}
