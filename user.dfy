/** The account record of user.go and its statements on the users table. */
module Users {
  import opened Wrappers
  import opened Settings
  import opened Helpers
  import opened Database

  /** An account as the package holds it in memory.  Every field is nullable;
      a field the constructor leaves unset is NULL. */
  class User {
    var id: NullInt64
    var email: NullString
    var password: NullString
    var status: NullInt64
    var verified: NullInt64
    var resettable: NullInt64
    var roles: NullInt64
    var registered: NullInt64
    var lastLogin: NullInt64
    var forceLogout: NullInt64

    /** NewUser: only the address, the password digest and the registration
        time are set. */
    constructor NewUser(email: string, password: string, registered: int)
      ensures this.email == NewNullString(email)
      ensures this.password == NewNullString(password)
      ensures this.registered == NewNullInt64(registered)
      ensures id == NullInt && status == NullInt && verified == NullInt && resettable == NullInt
      ensures roles == NullInt && lastLogin == NullInt && forceLogout == NullInt
    {
      id, status, verified, resettable, roles, lastLogin, forceLogout :=
        NullInt, NullInt, NullInt, NullInt, NullInt, NullInt, NullInt;
      this.email := NewNullString(email);
      this.password := NewNullString(password);
      this.registered := NewNullInt64(registered);
    }

    /** The record a lookup scans from a row: every column, none of them NULL
        except possibly last_login. */
    constructor FromRow(row: UserRow)
      ensures Loaded(row)
    {
      id := NewNullInt64(row.id);
      email := NewNullString(row.email);
      password := NewNullString(row.password);
      status := NewNullInt64(row.status);
      verified := NewNullInt64(row.verified);
      resettable := NewNullInt64(row.resettable);
      roles := NewNullInt64(row.roles);
      registered := NewNullInt64(row.registered);
      lastLogin := row.lastLogin;
      forceLogout := NewNullInt64(row.forceLogout);
    }

    /** The record holds exactly the columns of `row`. */
    ghost predicate Loaded(row: UserRow)
      reads this
    {
      id == NewNullInt64(row.id) && email == NewNullString(row.email)
      && password == NewNullString(row.password) && status == NewNullInt64(row.status)
      && verified == NewNullInt64(row.verified) && resettable == NewNullInt64(row.resettable)
      && roles == NewNullInt64(row.roles) && registered == NewNullInt64(row.registered)
      && lastLogin == row.lastLogin && forceLogout == NewNullInt64(row.forceLogout)
    }

    /** A second record with the same field values. */
    method ShallowClone() returns (c: User)
      ensures fresh(c)
      ensures c.id == id && c.email == email && c.password == password && c.status == status
      ensures c.verified == verified && c.resettable == resettable && c.roles == roles
      ensures c.registered == registered && c.lastLogin == lastLogin && c.forceLogout == forceLogout
    {
      c := new User.NewUser("", "", 0);
      c.id, c.email, c.password, c.status, c.verified := id, email, password, status, verified;
      c.resettable, c.roles, c.registered, c.lastLogin, c.forceLogout :=
        resettable, roles, registered, lastLogin, forceLogout;
    }

    /** True exactly when verified is the non-NULL value 1. */
    function IsVerified(): (v: bool)
      reads this
      ensures v <==> verified == NewNullInt64(1)
    {
      verified.valid && verified.value == 1
    }

    /** True exactly when resettable is the non-NULL value 1. */
    function IsResettable(): (v: bool)
      reads this
      ensures v <==> resettable == NewNullInt64(1)
    {
      resettable.valid && resettable.value == 1
    }

    /** Compares the registration timestamp with 1, as the source does. */
    function IsRegistered(): (v: bool)
      reads this
      ensures v <==> registered == NewNullInt64(1)
    {
      registered.valid && registered.value == 1
    }

    /** The id; a NULL id (a nil pointer in the source) reads as 0. */
    function GetID(): (n: int)
      reads this
      ensures id.valid ==> id == NewNullInt64(n)
      ensures !id.valid ==> n == 0
    {
      if id.valid then id.value else 0
    }

    method SetEmail(v: string)
      modifies this`email
      ensures email == NewNullString(v)
    {
      email := NewNullString(v);
    }

    method SetPassword(v: string)
      modifies this`password
      ensures password == NewNullString(v)
    {
      password := NewNullString(v);
    }

    method SetStatus(v: int)
      modifies this`status
      ensures status == NewNullInt64(v)
    {
      status := NewNullInt64(v);
    }

    method SetRoles(v: int)
      modifies this`roles
      ensures roles == NewNullInt64(v)
    {
      roles := NewNullInt64(v);
    }

    method SetLastLogin(v: int)
      modifies this`lastLogin
      ensures lastLogin == NewNullInt64(v)
    {
      lastLogin := NewNullInt64(v);
    }

    method SetRegistered(v: int)
      modifies this`registered
      ensures registered == NewNullInt64(v)
      ensures IsRegistered() <==> v == 1
    {
      registered := NewNullInt64(v);
    }

    method SetVerified(v: bool)
      modifies this`verified
      ensures verified == NewNullInt64(if v then 1 else 0)
      ensures IsVerified() == v
    {
      if v {
        verified := NewNullInt64(1);
        return;
      }
      verified := NewNullInt64(0);
    }

    method SetResettable(v: bool)
      modifies this`resettable
      ensures resettable == NewNullInt64(if v then 1 else 0)
      ensures IsResettable() == v
    {
      if v {
        resettable := NewNullInt64(1);
        return;
      }
      resettable := NewNullInt64(0);
    }

    method SetForceLogout(v: bool)
      modifies this`forceLogout
      ensures forceLogout == NewNullInt64(if v then 1 else 0)
    {
      if v {
        forceLogout := NewNullInt64(1);
        return;
      }
      forceLogout := NewNullInt64(0);
    }
  }

  /** A record loaded from a row reports the row's flags. */
  lemma LoadedFlags(u: User, row: UserRow)
    requires u.Loaded(row)
    ensures u.IsVerified() <==> row.verified == 1
    ensures u.IsResettable() <==> row.resettable == 1
    ensures u.GetID() == row.id
  {
  }

  // ------------------------------------------------------------ statements

  /** dbCreateUser: INSERT of the address, the password digest and the
      registration time.  A NULL among them violates NOT NULL; an address in
      use by any row, whatever its status, violates the UNIQUE constraint. */
  method CreateUser(db: Store, user: User) returns (r: Result<int, Error>)
    requires db.Valid()
    modifies db`users, db`nextUserID
    ensures db.Valid()
    ensures !(user.email.valid && user.password.valid && user.registered.valid) ==>
      r == Failure(NotNull) && unchanged(db)
    ensures user.email.valid && user.password.valid && user.registered.valid ==>
      if EmailTaken(old(db.users), user.email.text) then r == Failure(UniqueEmail) && unchanged(db)
      else
        r == Success(old(db.nextUserID))
        && db.users == old(db.users) + [InsertedUser(old(db.nextUserID), user.email.text, user.password.text, user.registered.value)]
        && db.nextUserID == old(db.nextUserID) + 1
  {
    if !(user.email.valid && user.password.valid && user.registered.valid) {
      return Failure(NotNull);
    }
    if EmailTaken(db.users, user.email.text) {
      return Failure(UniqueEmail);
    }
    var row := InsertedUser(db.nextUserID, user.email.text, user.password.text, user.registered.value);
    AppendUserKeepsValid(db.users, db.nextUserID, row);
    db.users := db.users + [row];
    r := Success(db.nextUserID);
    db.nextUserID := db.nextUserID + 1;
  }

  /** The SET list of the soft delete. */
  const ArchiveFields: seq<FieldValuePair> :=
    [FieldValuePair("status", IntValue(StatusArchived)), FieldValuePair("resettable", IntValue(1))]

  /** dbDeleteUser: a soft delete that archives the row and keeps it. */
  method DeleteUser(db: Store, user: User) returns (r: Outcome<Error>)
    requires db.Valid()
    modifies db`users
    ensures db.Valid()
    ensures UpdateApplied(old(db.users), UpdateUsers(old(db.users), IntOrNull(user.id), ArchiveFields), r, db.users)
  {
    r := db.UpdateWhere(IntOrNull(user.id), ArchiveFields);
  }

  /** The soft delete of an existing account always succeeds: the row stays
      with status Archived and resettable 1, the lookups no longer see it, and
      its address stays taken. */
  lemma SoftDeleteArchives(users: seq<UserRow>, nextUserID: int, u: UserRow)
    requires UsersValid(users, nextUserID) && u in users
    ensures UpdateUsers(users, IntValue(u.id), ArchiveFields) ==
            Success(ReplaceRow(users, u.id, u.(status := StatusArchived, resettable := 1)))
    ensures UserWithID(ReplaceRow(users, u.id, u.(status := StatusArchived, resettable := 1)), u.id) == None
    ensures UserWithEmail(ReplaceRow(users, u.id, u.(status := StatusArchived, resettable := 1)), u.email) == None
    ensures EmailTaken(ReplaceRow(users, u.id, u.(status := StatusArchived, resettable := 1)), u.email)
  {
    var a := u.(status := StatusArchived, resettable := 1);
    var s := u.(status := StatusArchived);
    var rest := [FieldValuePair("resettable", IntValue(1))];
    assert ArchiveFields[1..] == rest;
    assert SetColumn(u, ArchiveFields[0]) == Success(s);
    assert SetColumns(s, rest) == Success(a) by {
      assert SetColumn(s, rest[0]) == Success(a);
      assert SetColumns(a, rest[1..]) == Success(a);
    }
    ReplaceKeepsEmails(users, u, a);
    UpdateOneRow(users, u, ArchiveFields, a);
    var t := ReplaceRow(users, u.id, a);
    var k :| 0 <= k < |users| && users[k] == u;
    assert t[k] == a;
    forall v <- t ensures !(v.id == u.id && v.status == StatusNormal) {
      var i :| 0 <= i < |t| && t[i] == v;
      assert users[i].id == u.id ==> v == a;
    }
    forall v <- t ensures !(v.email == u.email && v.status == StatusNormal) {
      var i :| 0 <= i < |t| && t[i] == v;
      if users[i].id != u.id {
        assert users[i] in users && i != k;
        if i < k { assert users[i].email != users[k].email; } else { assert users[k].email != users[i].email; }
      }
    }
  }

  /** dbHardDeleteUser: the row is removed. */
  method HardDeleteUser(db: Store, user: User) returns (r: Outcome<Error>)
    requires db.Valid()
    modifies db`users
    ensures db.Valid()
    ensures r == Pass
    ensures forall u :: u in db.users <==> u in old(db.users) && !IdMatches(u, IntOrNull(user.id))
  {
    r := db.DeleteWhere(IntOrNull(user.id));
  }

  /** dbGetUserByEmail: the first Normal-status row with that address, or the
      driver's no-rows error. */
  method GetUserByEmail(db: Store, email: string) returns (r: Result<User, Error>)
    ensures UserWithEmail(db.users, email).None? ==> r == Failure(NoRows)
    ensures UserWithEmail(db.users, email).Some? ==>
      r.Success? && fresh(r.value) && r.value.Loaded(UserWithEmail(db.users, email).value)
  {
    var found := UserWithEmail(db.users, email);
    if found.None? {
      return Failure(NoRows);
    }
    var u := new User.FromRow(found.value);
    r := Success(u);
  }

  /** dbGetUserByID: the first Normal-status row with that id, or the driver's
      no-rows error. */
  method GetUserByID(db: Store, id: int) returns (r: Result<User, Error>)
    ensures UserWithID(db.users, id).None? ==> r == Failure(NoRows)
    ensures UserWithID(db.users, id).Some? ==>
      r.Success? && fresh(r.value) && r.value.Loaded(UserWithID(db.users, id).value)
  {
    var found := UserWithID(db.users, id);
    if found.None? {
      return Failure(NoRows);
    }
    var u := new User.FromRow(found.value);
    r := Success(u);
  }

  /** Only Normal-status accounts are found; any other account reads as absent. */
  lemma LookupsSeeOnlyNormal(users: seq<UserRow>, u: UserRow)
    requires UniqueEmails(users) && UniqueIDs(users) && u in users
    ensures UserWithEmail(users, u.email) == if u.status == StatusNormal then Some(u) else None
    ensures UserWithID(users, u.id) == if u.status == StatusNormal then Some(u) else None
  {
    var k :| 0 <= k < |users| && users[k] == u;
    match UserWithEmail(users, u.email)
    case None =>
    case Some(v) =>
      var i :| 0 <= i < |users| && users[i] == v;
      assert users[i].email == users[k].email;
    match UserWithID(users, u.id)
    case None =>
    case Some(v) =>
      var i :| 0 <= i < |users| && users[i] == v;
      assert users[i].id == users[k].id;
  }

  /** dbUpdateUser: the SET list applied to the row with that id. */
  method UpdateUser(db: Store, userID: int, fields: seq<FieldValuePair>) returns (r: Outcome<Error>)
    requires db.Valid() && forall p <- fields :: p.column != "id"
    modifies db`users
    ensures db.Valid()
    ensures UpdateApplied(old(db.users), UpdateUsers(old(db.users), IntValue(userID), fields), r, db.users)
  {
    r := db.UpdateWhere(IntValue(userID), fields);
  }

  /** dbUpdateUser by the id of an existing row changes exactly the named
      columns of that row and no other row. */
  lemma UpdateUserChangesNamedColumns(users: seq<UserRow>, u: UserRow, fields: seq<FieldValuePair>)
    requires UniqueIDs(users) && UniqueEmails(users) && u in users
    requires forall p <- fields :: p.column in AssignableColumns
    requires UpdateUsers(users, IntValue(u.id), fields).Success?
    ensures forall i :: 0 <= i < |users| && users[i].id != u.id ==>
      UpdateUsers(users, IntValue(u.id), fields).value[i] == users[i]
    ensures forall i, c :: 0 <= i < |users| && users[i].id == u.id ==>
      Column(UpdateUsers(users, IntValue(u.id), fields).value[i], c) == Assigned(fields, c, Column(u, c))
  {
    OnlyRowWithID(users, u);
  }

  // One-column updates.  Each names the row by the record's id, which is
  // NULL (and so selects nothing) for a record that was never loaded.

  function EmailFields(user: NullString): seq<FieldValuePair> { [FieldValuePair("email", TextOrNull(user))] }
  function PasswordFields(v: NullString): seq<FieldValuePair> { [FieldValuePair("password", TextOrNull(v))] }
  function VerifiedFields(v: NullInt64): seq<FieldValuePair> { [FieldValuePair("verified", IntOrNull(v))] }
  function ResettableFields(v: NullInt64): seq<FieldValuePair> { [FieldValuePair("resettable", IntOrNull(v))] }
  function RegisteredFields(v: NullInt64): seq<FieldValuePair> { [FieldValuePair("registered", IntOrNull(v))] }
  function LastLoginFields(v: NullInt64): seq<FieldValuePair> { [FieldValuePair("last_login", IntOrNull(v))] }
  function ForceLogoutFields(v: NullInt64): seq<FieldValuePair> { [FieldValuePair("force_logout", IntOrNull(v))] }
  function StatusFields(v: NullInt64): seq<FieldValuePair> { [FieldValuePair("status", IntOrNull(v))] }
  function RolesFields(v: NullInt64): seq<FieldValuePair> { [FieldValuePair("roles_mask", IntOrNull(v))] }
  /** The SET list dbUpdateUserStatus sends: the status value into last_login. */
  function StatusFieldsAsWritten(v: NullInt64): seq<FieldValuePair> { [FieldValuePair("last_login", IntOrNull(v))] }
  /** The SET list dbUpdateUserRoles sends: a column the table does not have. */
  function RolesFieldsAsWritten(v: NullInt64): seq<FieldValuePair> { [FieldValuePair("roles", IntOrNull(v))] }

  method UpdateUserEmail(db: Store, user: User) returns (r: Outcome<Error>)
    requires db.Valid()
    modifies db`users
    ensures db.Valid()
    ensures UpdateApplied(old(db.users), UpdateUsers(old(db.users), IntOrNull(user.id), EmailFields(user.email)), r, db.users)
  {
    r := db.UpdateWhere(IntOrNull(user.id), EmailFields(user.email));
  }

  method UpdateUserPassword(db: Store, user: User) returns (r: Outcome<Error>)
    requires db.Valid()
    modifies db`users
    ensures db.Valid()
    ensures UpdateApplied(old(db.users), UpdateUsers(old(db.users), IntOrNull(user.id), PasswordFields(user.password)), r, db.users)
  {
    r := db.UpdateWhere(IntOrNull(user.id), PasswordFields(user.password));
  }

  /** dbUpdateUserStatus as the source has it. */
  method UpdateUserStatusAsWritten(db: Store, user: User) returns (r: Outcome<Error>)
    requires db.Valid()
    modifies db`users
    ensures db.Valid()
    ensures UpdateApplied(old(db.users), UpdateUsers(old(db.users), IntOrNull(user.id), StatusFieldsAsWritten(user.status)), r, db.users)
  {
    r := db.UpdateWhere(IntOrNull(user.id), StatusFieldsAsWritten(user.status));
  }

  /** dbUpdateUserStatus as evidently intended: the status column. */
  method UpdateUserStatus(db: Store, user: User) returns (r: Outcome<Error>)
    requires db.Valid()
    modifies db`users
    ensures db.Valid()
    ensures UpdateApplied(old(db.users), UpdateUsers(old(db.users), IntOrNull(user.id), StatusFields(user.status)), r, db.users)
  {
    r := db.UpdateWhere(IntOrNull(user.id), StatusFields(user.status));
  }

  method UpdateUserVerified(db: Store, user: User) returns (r: Outcome<Error>)
    requires db.Valid()
    modifies db`users
    ensures db.Valid()
    ensures UpdateApplied(old(db.users), UpdateUsers(old(db.users), IntOrNull(user.id), VerifiedFields(user.verified)), r, db.users)
  {
    r := db.UpdateWhere(IntOrNull(user.id), VerifiedFields(user.verified));
  }

  method UpdateUserResettable(db: Store, user: User) returns (r: Outcome<Error>)
    requires db.Valid()
    modifies db`users
    ensures db.Valid()
    ensures UpdateApplied(old(db.users), UpdateUsers(old(db.users), IntOrNull(user.id), ResettableFields(user.resettable)), r, db.users)
  {
    r := db.UpdateWhere(IntOrNull(user.id), ResettableFields(user.resettable));
  }

  /** dbUpdateUserRoles as the source has it. */
  method UpdateUserRolesAsWritten(db: Store, user: User) returns (r: Outcome<Error>)
    requires db.Valid()
    modifies db`users
    ensures db.Valid()
    ensures UpdateApplied(old(db.users), UpdateUsers(old(db.users), IntOrNull(user.id), RolesFieldsAsWritten(user.roles)), r, db.users)
  {
    r := db.UpdateWhere(IntOrNull(user.id), RolesFieldsAsWritten(user.roles));
  }

  /** dbUpdateUserRoles as evidently intended: the roles_mask column. */
  method UpdateUserRoles(db: Store, user: User) returns (r: Outcome<Error>)
    requires db.Valid()
    modifies db`users
    ensures db.Valid()
    ensures UpdateApplied(old(db.users), UpdateUsers(old(db.users), IntOrNull(user.id), RolesFields(user.roles)), r, db.users)
  {
    r := db.UpdateWhere(IntOrNull(user.id), RolesFields(user.roles));
  }

  method UpdateUserRegistered(db: Store, user: User) returns (r: Outcome<Error>)
    requires db.Valid()
    modifies db`users
    ensures db.Valid()
    ensures UpdateApplied(old(db.users), UpdateUsers(old(db.users), IntOrNull(user.id), RegisteredFields(user.registered)), r, db.users)
  {
    r := db.UpdateWhere(IntOrNull(user.id), RegisteredFields(user.registered));
  }

  method UpdateUserLastLogin(db: Store, user: User) returns (r: Outcome<Error>)
    requires db.Valid()
    modifies db`users
    ensures db.Valid()
    ensures UpdateApplied(old(db.users), UpdateUsers(old(db.users), IntOrNull(user.id), LastLoginFields(user.lastLogin)), r, db.users)
  {
    r := db.UpdateWhere(IntOrNull(user.id), LastLoginFields(user.lastLogin));
  }

  method UpdateUserForceLogout(db: Store, user: User) returns (r: Outcome<Error>)
    requires db.Valid()
    modifies db`users
    ensures db.Valid()
    ensures UpdateApplied(old(db.users), UpdateUsers(old(db.users), IntOrNull(user.id), ForceLogoutFields(user.forceLogout)), r, db.users)
  {
    r := db.UpdateWhere(IntOrNull(user.id), ForceLogoutFields(user.forceLogout));
  }

  /** A new address for a loaded account is written to its row unless
      another account holds it. */
  lemma EmailUpdate(users: seq<UserRow>, u: UserRow, e: string)
    requires UniqueIDs(users) && UniqueEmails(users) && u in users
    ensures UpdateUsers(users, IntValue(u.id), EmailFields(NewNullString(e))) ==
      if EmailTakenByOther(users, e, u.id) then Failure(UniqueEmail)
      else Success(ReplaceRow(users, u.id, u.(email := e)))
  {
    SingleColumnUpdate(users, u, FieldValuePair("email", TextValue(e)));
  }

  /** A NULL address or password is refused and nothing is written. */
  lemma NullTextUpdateRefused(users: seq<UserRow>, u: UserRow)
    requires UniqueIDs(users) && UniqueEmails(users) && u in users
    ensures UpdateUsers(users, IntValue(u.id), EmailFields(NullText)) == Failure(NotNull)
    ensures UpdateUsers(users, IntValue(u.id), PasswordFields(NullText)) == Failure(NotNull)
  {
    SingleColumnUpdate(users, u, FieldValuePair("email", NullValue));
    SingleColumnUpdate(users, u, FieldValuePair("password", NullValue));
  }

  lemma PasswordUpdate(users: seq<UserRow>, u: UserRow, e: string)
    requires UniqueIDs(users) && UniqueEmails(users) && u in users
    ensures UpdateUsers(users, IntValue(u.id), PasswordFields(NewNullString(e))) ==
      Success(ReplaceRow(users, u.id, u.(password := e)))
  {
    SingleColumnUpdate(users, u, FieldValuePair("password", TextValue(e)));
  }

  lemma VerifiedUpdate(users: seq<UserRow>, u: UserRow, n: int)
    requires UniqueIDs(users) && UniqueEmails(users) && u in users
    ensures UpdateUsers(users, IntValue(u.id), VerifiedFields(NewNullInt64(n))) ==
      Success(ReplaceRow(users, u.id, u.(verified := n)))
    ensures UpdateUsers(users, IntValue(u.id), VerifiedFields(NullInt)) == Failure(NotNull)
  {
    SingleColumnUpdate(users, u, FieldValuePair("verified", IntValue(n)));
    SingleColumnUpdate(users, u, FieldValuePair("verified", NullValue));
  }

  lemma ResettableUpdate(users: seq<UserRow>, u: UserRow, n: int)
    requires UniqueIDs(users) && UniqueEmails(users) && u in users
    ensures UpdateUsers(users, IntValue(u.id), ResettableFields(NewNullInt64(n))) ==
      Success(ReplaceRow(users, u.id, u.(resettable := n)))
  {
    SingleColumnUpdate(users, u, FieldValuePair("resettable", IntValue(n)));
  }

  lemma RegisteredUpdate(users: seq<UserRow>, u: UserRow, n: int)
    requires UniqueIDs(users) && UniqueEmails(users) && u in users
    ensures UpdateUsers(users, IntValue(u.id), RegisteredFields(NewNullInt64(n))) ==
      Success(ReplaceRow(users, u.id, u.(registered := n)))
  {
    SingleColumnUpdate(users, u, FieldValuePair("registered", IntValue(n)));
  }

  /** last_login is the one nullable column: NULL is written as NULL. */
  lemma LastLoginUpdate(users: seq<UserRow>, u: UserRow, n: NullInt64)
    requires UniqueIDs(users) && UniqueEmails(users) && u in users
    ensures UpdateUsers(users, IntValue(u.id), LastLoginFields(n)) ==
      Success(ReplaceRow(users, u.id, u.(lastLogin := if n.valid then n else NullInt)))
  {
    SingleColumnUpdate(users, u, FieldValuePair("last_login", IntOrNull(n)));
  }

  lemma ForceLogoutUpdate(users: seq<UserRow>, u: UserRow, n: int)
    requires UniqueIDs(users) && UniqueEmails(users) && u in users
    ensures UpdateUsers(users, IntValue(u.id), ForceLogoutFields(NewNullInt64(n))) ==
      Success(ReplaceRow(users, u.id, u.(forceLogout := n)))
  {
    SingleColumnUpdate(users, u, FieldValuePair("force_logout", IntValue(n)));
  }

  /** The SET list ConfirmEmail sends. */
  function ConfirmedFields(email: string): seq<FieldValuePair> {
    [FieldValuePair("email", TextValue(email)), FieldValuePair("verified", IntValue(1))]
  }

  /** Confirming an address writes it and verified = 1 into the account's row,
      unless another account holds that address. */
  lemma ConfirmedUpdate(users: seq<UserRow>, u: UserRow, e: string)
    requires UniqueIDs(users) && UniqueEmails(users) && u in users
    ensures UpdateUsers(users, IntValue(u.id), ConfirmedFields(e)) ==
      if EmailTakenByOther(users, e, u.id) then Failure(UniqueEmail)
      else Success(ReplaceRow(users, u.id, u.(email := e, verified := 1)))
  {
    var fields := ConfirmedFields(e);
    var m := u.(email := e);
    var a := u.(email := e, verified := 1);
    var rest := [FieldValuePair("verified", IntValue(1))];
    assert fields[1..] == rest;
    assert SetColumn(u, fields[0]) == Success(m);
    assert SetColumns(m, rest) == Success(a) by {
      assert SetColumn(m, rest[0]) == Success(a);
      assert SetColumns(a, rest[1..]) == Success(a);
    }
    ReplaceWithNewEmail(users, u, a);
    if EmailTakenByOther(users, e, u.id) {
      OnlyRowWithID(users, u);
      var r := UpdateRows(users, IntValue(u.id), fields);
      assert r.Success?;
      assert r.value == ReplaceRow(users, u.id, a);
    } else {
      UpdateOneRow(users, u, fields, a);
    }
  }

  /** An update of a record that was never loaded (NULL id) selects no row
      and changes nothing. */
  lemma UnloadedRecordUpdatesNothing(users: seq<UserRow>, fields: seq<FieldValuePair>)
    requires UniqueEmails(users)
    requires forall p <- fields :: p.column in AssignableColumns
    ensures UpdateUsers(users, IntOrNull(NullInt), fields) == Success(users)
  {
    NoMatchingRowUpdate(users, NullValue, fields);
  }

  /** As written, dbUpdateUserStatus leaves the status of the account as it
      was and overwrites its last login time with the status value. */
  lemma StatusUpdateAsWrittenMissesStatus(users: seq<UserRow>, u: UserRow, s: int)
    requires UniqueIDs(users) && UniqueEmails(users) && u in users
    ensures UpdateUsers(users, IntValue(u.id), StatusFieldsAsWritten(NewNullInt64(s))) ==
            Success(ReplaceRow(users, u.id, u.(lastLogin := NewNullInt64(s))))
  {
    SingleColumnUpdate(users, u, FieldValuePair("last_login", IntValue(s)));
  }

  /** The corrected dbUpdateUserStatus sets the status and nothing else. */
  lemma StatusUpdateSetsStatus(users: seq<UserRow>, u: UserRow, s: int)
    requires UniqueIDs(users) && UniqueEmails(users) && u in users
    ensures UpdateUsers(users, IntValue(u.id), StatusFields(NewNullInt64(s))) ==
            Success(ReplaceRow(users, u.id, u.(status := s)))
  {
    SingleColumnUpdate(users, u, FieldValuePair("status", IntValue(s)));
  }

  /** As written, dbUpdateUserRoles fails on every table, for every account
      and every value, because the users table has no column `roles`. */
  lemma RolesUpdateAsWrittenAlwaysFails(users: seq<UserRow>, where: Value, roles: NullInt64)
    ensures UpdateUsers(users, where, RolesFieldsAsWritten(roles)) == Failure(NoSuchColumn)
  {
    assert RolesFieldsAsWritten(roles)[0].column !in UserColumns;
  }

  /** The corrected dbUpdateUserRoles sets the role mask and nothing else. */
  lemma RolesUpdateSetsRoles(users: seq<UserRow>, u: UserRow, m: int)
    requires UniqueIDs(users) && UniqueEmails(users) && u in users
    ensures UpdateUsers(users, IntValue(u.id), RolesFields(NewNullInt64(m))) ==
            Success(ReplaceRow(users, u.id, u.(roles := m)))
  {
    SingleColumnUpdate(users, u, FieldValuePair("roles_mask", IntValue(m)));
  }
}
