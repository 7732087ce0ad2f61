# Selector/token credential manager of `auth`, in Dafny

This project models the core of the Go package `auth`:
- account registration, e-mail confirmation, login, remember-me cookies and password resets;
- the credential records behind them. Each credential is a short public *selector* that names a row, plus a secret *token* of which only a bcrypt digest is stored.

The model has one module per source file:
- `Settings` (settings.go): error identifiers, statuses, roles, table names, lifetimes and the reset limit.
- `Helpers` (helpers.go): nullable SQL values, the alphanumeric check, `randomString` as an array loop, the token authenticator, the hasher seen from outside, and `checkDatabase`.
- `Database`: the four tables `SetupDatabase` creates, as sequences of rows in a `Store` class.
  - `Store.Valid()` holds the schema's UNIQUE constraints: email, and selector in each credential table.
  - Pure functions give the meaning of the INSERT, UPDATE, DELETE and SELECT statements the package issues: NOT NULL, unknown columns, a unique-address violation that fails the whole UPDATE, and AUTOINCREMENT keys.
  - The `db*` functions build their INSERT, UPDATE and DELETE statements through an external `database` package that is not part of this model. The model assumes the statement shape listed under "## Left out".
- `Users` (user.go):
  - the `User` class with its nullable fields, predicates and setters;
  - the `db*` statements on the users table.
- `Confirmations`, `Remembers`, `Resets`: the three credential files. Each has its constructor, expiry, and create / delete / delete-by-user / lookup statements. `Resets` also has the count.
- `Auth` (auth.go): the thirteen flows. Each is a method taking the store, whose `modifies` names the fields it writes (none for `ConfirmReset` and `ReconfirmPassword`). Its `ensures` follow the flow's guard order and state the new tables exactly.
- `Scenarios`: properties that span several flows:
  - register, then log in, verified or not yet confirmed;
  - register, then confirm;
  - three reset requests;
  - a burned remember-me cookie;
  - a retried confirmation.

Parameters stand in for the outside world:
- the clock is `now`;
- `net/mail.ParseAddress` is an `AddressParser` predicate;
- the two `math/rand` generators of one authenticator are an `Entropy` (two draw streams, each draw reduced modulo 62);
- notification callbacks are Dafny functions returning `Outcome<Error>`.

The hasher is `HashPassword(p) = "$2a$04$" + p` with `VerifyHash(h, p) = (h == HashPassword(p))`. This is enough to state that a digest verifies against its own password and no other, and is never the plaintext.

Where the code does something other than its names and error texts suggest, the model follows the code:
- Login reports a missing account with the driver's no-rows error, not a package error.
- The reset limit counts every reset row of the account, expired ones included.
- A selector collision is not retried. It surfaces as the store's UNIQUE error, and the account created just before it is kept.
- `Remember` takes an absolute expiry from its caller.
- The status guard in `ResetPassword` / `ResetPasswordWithID` asks for a NULL status, which a loaded account never has. The guard therefore never fires; the model proves this with `assert false` in that branch.
- `IsRegistered` compares the registration timestamp with 1.
- Credentials do not all expire the same way. A remember-me or reset record still passes at its expiry second (`>` at user_remember.go:39 and user_reset.go:39), while a confirmation is already expired then (`>=` at user_confirmation.go:40).

## Model

| member | source | states |
|---|---|---|
| Settings.MessagesIdentifyErrors | settings.go:5-19 | `Message` gives each package error its constant's text, and no two share one, so callers can tell them apart by message |
| Settings.GetTable | settings.go:39-52 | the four table names map to themselves; any other name is refused (the panic) |
| Settings.ConfirmationExpiry | settings.go:53-55 | a confirmation issued at `now` expires one hour (3600 seconds) later |
| Settings.RememberedExpiry | settings.go:56-59 | the default remember-me expiry is 672 hours (28 days) after `now` |
| Settings.ResetExpiry | settings.go:60-62 | a reset issued at `now` expires 24 hours (86400 seconds) later |
| Helpers.NullConstructorsHoldValue | helpers.go:116-121 | `newNullInt64` and `newNullString` give a non-NULL value holding exactly their argument, never NULL |
| Helpers.ValidateAlphanumericString | helpers.go:14-20 | accepts exactly the strings whose every character is in a-z, A-Z, 0-9 (the empty string included) |
| Helpers.CharsetIsAlphanumericClass | helpers.go:34 | the generator's 62-character alphabet is exactly the alphanumeric class |
| Helpers.CharsetRanges | helpers.go:34 | the alphabet is the lower-case letters, then the upper-case letters, then the digits |
| Helpers.RandomString | helpers.go:33-41 | the buffer loop yields exactly `length` characters, character i chosen by draw i from the alphabet |
| Helpers.RandomChars | helpers.go:33-41 | the string the generator builds has exactly `length` characters |
| Helpers.RandomCharsAreAlphanumeric | helpers.go:33-41 | every generated string passes the alphanumeric check |
| Helpers.HashVerifies | helpers.go:22-28 | a digest verifies against the password it was made from |
| Helpers.VerifyHashReadsDigest | helpers.go:22-28 | a hash verifies against a password exactly when it is the bcrypt header of cost 4 followed by that password |
| Helpers.HashBindsPassword | helpers.go:22-28 | a digest of the model verifies against no other password (real bcrypt reads only the first 72 bytes) |
| Helpers.DigestIsNotPlaintext | helpers.go:22-25 | the stored digest differs from the plaintext |
| Helpers.ValidateSelector | helpers.go:123-125 | accepts exactly the strings of length 16 whose every character is alphanumeric |
| Helpers.ValidateToken | helpers.go:126-128 | accepts exactly the strings of length 16 whose every character is alphanumeric |
| Helpers.CreateTokenAuthenticator | helpers.go:108-114 | selector and token pass their validators, and the digest verifies against the token and differs from it |
| Helpers.CheckDatabase | helpers.go:98-107 | passes iff the handle is live; nil gives the no-connection error, a failed ping the ping error |
| Database.SetColumn | helpers.go:45-57 | a NULL is refused exactly by the NOT NULL columns (all but last_login); on success the column holds the value and every other column is unchanged |
| Database.SetColumns | helpers.go:45-57 | each column ends with the last value assigned to it, and the id is kept |
| Database.UnassignedColumnKept | user.go:173-181 | a column no pair names keeps its value |
| Database.UpdateRows | user.go:173-181 | rows selected by the id get the SET list; the others are kept; a failure comes from a selected row |
| Database.UpdateUsers | helpers.go:56 | an unknown column fails; success keeps addresses unique, keeps ids, and changes only the selected rows |
| Database.UpdateOneRow | user.go:173-181 | an UPDATE by the id of an existing row replaces that row alone by the one its SET list produces |
| Database.SingleColumnUpdate | user.go:183-281 | a one-column UPDATE of an existing row either is refused by the column, or clashes on the address, or replaces only that row |
| Database.NoMatchingRowUpdate | user.go:173-181 | an UPDATE that selects no row changes nothing |
| Database.UpdateKeepsValid | helpers.go:44-57 | a successful UPDATE keeps ids and addresses unique |
| Database.AppendUserKeepsValid | user.go:90-104 | inserting a fresh address under the next id keeps the table valid |
| Database.InsertedUserIsFound | helpers.go:45-57 | the row an INSERT creates with the column defaults is found by address and by id, has status Normal and is unverified |
| Database.AppendKeepsSelectorsUnique | helpers.go:65 | inserting a fresh selector keeps selectors unique |
| Database.ReplaceWithNewEmail | helpers.go:56 | a new address for one row keeps addresses unique iff no other row holds it |
| Database.UserWithEmail | user.go:125-148 | finds a row with that address and status Normal, and finds none iff no such row exists |
| Database.UserWithID | user.go:149-172 | finds a row with that id and status Normal, and finds none iff no such row exists |
| Database.DeleteUserRows | user.go:117-124 | removes exactly the rows with that id and keeps uniqueness |
| Database.FindBySelector | user_confirmation.go:77-100 | finds a row with that selector, and finds none iff no row has it |
| Database.SelectorNamesOneRow | helpers.go:65 | under the UNIQUE constraint a selector names at most one row |
| Database.Credential.HasExpired | user_confirmation.go:39-41 | no credential is dead before its expiry second and every one is dead after it; at that second only a confirmation is dead (`>=` against `>` in user_remember.go:38-40 and user_reset.go:38-40) |
| Database.Issued.GetToken | user_confirmation.go:33-35 | the token handed out verifies against the stored digest and is not the stored value |
| Database.Issued.GetSelector | user_confirmation.go:36-38 | returns the record's own selector, which names this record (the lookup in a stored table is `Scenarios.FindAppended`) |
| Database.RowsOfUser | user_confirmation.go:101-135 | holds exactly the rows with that user id |
| Database.CountIsRowsOfUser | user_reset.go:75-98 | the COUNT equals the number of rows the select by user returns |
| Database.CountOfUserBounds | user_reset.go:75-98 | the COUNT never exceeds the table and is 0 exactly when the user owns no row |
| Database.CountAfterInsert | user_reset.go:42-58 | an insert adds one to its owner's count and nothing to other users' counts |
| Database.WithoutSelector | user_confirmation.go:61-68 | removes exactly the row with that selector and keeps selectors unique |
| Database.WithoutSelectorRemovesOne | user_reset.go:59-66 | deleting a present selector removes exactly one row |
| Database.WithoutUser | user_confirmation.go:69-76 | removes exactly that user's rows |
| Database.CountAfterDeleteUser | user_reset.go:67-74 | after the delete by user that user's count is 0 and other users' counts are kept |
| Database.ScanByUserID | user_confirmation.go:114-122 | the row loop returns exactly the select by user, in order |
| Database.Store.UpdateWhere | user.go:173-181 | applies the UPDATE's result, or reports its error and keeps the table |
| Database.Store.constructor | helpers.go:42-97 | a freshly set-up database holds four empty tables and satisfies the UNIQUE constraints |
| Database.Store.DeleteWhere | user.go:117-124 | the DELETE by id removes exactly the rows with that id and keeps the table valid |
| Users.User.NewUser | user.go:23-29 | sets address, password and registration time; every other field is NULL |
| Users.User.FromRow | user.go:135-136 | the scanned record holds exactly the row's columns |
| Users.User.ShallowClone | user.go:31-34 | a fresh record with equal fields |
| Users.User.SetVerified | user.go:68-74 | stores 1 or 0, so IsVerified equals the argument; only this field changes |
| Users.User.SetResettable | user.go:75-81 | stores 1 or 0, so IsResettable equals the argument; only this field changes |
| Users.User.SetForceLogout | user.go:82-88 | stores 1 or 0; only this field changes |
| Users.User.SetRegistered | user.go:65-67 | stores the value; IsRegistered then holds iff it is 1 |
| Users.User.SetEmail | user.go:50-52 | stores the value as non-NULL; only this field changes |
| Users.User.SetPassword | user.go:53-55 | stores the value as non-NULL; only this field changes |
| Users.User.SetStatus | user.go:56-58 | stores the value as non-NULL; only this field changes |
| Users.User.SetRoles | user.go:59-61 | stores the value as non-NULL; only this field changes |
| Users.User.SetLastLogin | user.go:62-64 | stores the value as non-NULL; only this field changes |
| Users.LoadedFlags | user.go:36-48 | a loaded record is verified or resettable iff the row's column is 1, and its id is the row's |
| Users.User.IsVerified | user.go:36-38 | true exactly when verified is the non-NULL value 1 |
| Users.User.IsResettable | user.go:39-41 | true exactly when resettable is the non-NULL value 1 |
| Users.User.IsRegistered | user.go:42-44 | true exactly when the registration time is the non-NULL value 1 |
| Users.User.GetID | user.go:46-48 | the id when it is non-NULL, and 0 (the zero value) when it is NULL |
| Users.CreateUser | user.go:90-104 | a NULL field fails NOT NULL; a taken address fails UNIQUE; otherwise the default row is appended under the next id, which is returned |
| Users.DeleteUser | user.go:105-116 | soft delete: the UPDATE setting Archived and resettable 1 |
| Users.SoftDeleteArchives | user.go:105-116 | the soft delete keeps the row with status Archived; the lookups no longer find it; its address stays taken |
| Users.HardDeleteUser | user.go:117-124 | removes exactly the rows with that id |
| Users.GetUserByEmail | user.go:125-148 | the Normal-status row with that address as a record, or the no-rows error |
| Users.GetUserByID | user.go:149-172 | the Normal-status row with that id as a record, or the no-rows error |
| Users.LookupsSeeOnlyNormal | user.go:126-133 | an account is found by address and by id iff its status is Normal |
| Users.UpdateUser | user.go:173-181 | applies the SET list to the row with that id |
| Users.UpdateUserChangesNamedColumns | user.go:173-181 | only the named columns of that row change, and no other row changes |
| Users.UpdateUserEmail | user.go:183-193 | the one-column UPDATE of email by the record's id |
| Users.EmailUpdate | user.go:183-193 | a new address is written unless another account holds it |
| Users.NullTextUpdateRefused | user.go:183-204 | a NULL address or password is refused |
| Users.UpdateUserPassword | user.go:194-204 | the one-column UPDATE of password |
| Users.PasswordUpdate | user.go:194-204 | writes the password of that row only |
| Users.UpdateUserVerified | user.go:216-226 | the one-column UPDATE of verified |
| Users.VerifiedUpdate | user.go:216-226 | writes the flag of that row only; NULL is refused |
| Users.UpdateUserResettable | user.go:227-237 | the one-column UPDATE of resettable |
| Users.ResettableUpdate | user.go:227-237 | writes the flag of that row only |
| Users.UpdateUserRegistered | user.go:249-259 | the one-column UPDATE of registered |
| Users.RegisteredUpdate | user.go:249-259 | writes the time of that row only |
| Users.UpdateUserLastLogin | user.go:260-270 | the one-column UPDATE of last_login |
| Users.LastLoginUpdate | user.go:260-270 | writes the time, or NULL, of that row only |
| Users.UpdateUserForceLogout | user.go:271-281 | the one-column UPDATE of force_logout |
| Users.ForceLogoutUpdate | user.go:271-281 | writes the flag of that row only |
| Users.UpdateUserStatusAsWritten | user.go:205-215 | the UPDATE the source sends: the status value into last_login |
| Users.StatusUpdateAsWrittenMissesStatus | user.go:205-215 | as written, the status stays and last_login receives the status |
| Users.UpdateUserStatus | user.go:205-215 | the corrected UPDATE of the status column |
| Users.StatusUpdateSetsStatus | user.go:205-215 | the corrected update sets the status of that row only |
| Users.UpdateUserRolesAsWritten | user.go:238-248 | the UPDATE the source sends, naming column `roles` |
| Users.RolesUpdateAsWrittenAlwaysFails | user.go:238-248 | as written, every call fails with no-such-column |
| Users.UpdateUserRoles | user.go:238-248 | the corrected UPDATE of roles_mask |
| Users.RolesUpdateSetsRoles | user.go:238-248 | the corrected update sets the role mask of that row only |
| Users.ConfirmedUpdate | auth.go:95-102 | confirming writes the address and verified = 1, unless another account holds the address |
| Users.UnloadedRecordUpdatesNothing | user.go:183-193 | an update by a NULL id selects nothing |
| Confirmations.NewUserConfirmation | user_confirmation.go:21-38 | the record stores the digest of the returned token; the selector and token are valid 16-character strings |
| Confirmations.ConfirmationLifetime | user_confirmation.go:39-41 | a confirmation is expired from its expiry second on (`>=`): live for the hour after issue |
| Confirmations.CreateUserConfirmation | user_confirmation.go:43-60 | a taken selector fails and changes nothing; otherwise one row is appended under the next key |
| Confirmations.DeleteUserConfirmation | user_confirmation.go:61-68 | removes exactly the row with that selector |
| Confirmations.DeleteUserConfirmationAllByUserID | user_confirmation.go:69-76 | removes exactly that user's rows |
| Confirmations.GetUserConfirmationBySelector | user_confirmation.go:77-100 | the row with that selector iff one exists, otherwise no-rows |
| Confirmations.GetUserConfirmationByUserID | user_confirmation.go:101-135 | exactly that user's rows |
| Remembers.NewUserRemember | user_remember.go:21-37 | the record stores the digest of the returned token; the selector and token are valid |
| Remembers.RememberLifetime | user_remember.go:38-40 | a remember-me record is live at its expiry second and expired after it (`>`) |
| Remembers.CreateUserRemember | user_remember.go:42-58 | a taken selector fails and changes nothing; otherwise one row is appended |
| Remembers.DeleteUserRemember | user_remember.go:59-66 | removes exactly the row with that selector |
| Remembers.DeleteAllUserRememberedByUserID | user_remember.go:67-74 | removes exactly that user's rows |
| Remembers.GetUserRememberBySelector | user_remember.go:75-98 | the row with that selector iff one exists, otherwise no-rows |
| Remembers.GetUserRememberByUserID | user_remember.go:99-133 | exactly that user's rows |
| Resets.NewUserReset | user_reset.go:21-37 | the record stores the digest of the returned token; the selector and token are valid |
| Resets.ResetLifetime | user_reset.go:38-40 | a reset is live through its expiry second (`>`): live for the day after issue |
| Resets.CreateUserReset | user_reset.go:42-58 | a taken selector fails and changes nothing; otherwise one row is appended |
| Resets.CreateCountsOne | user_reset.go:42-58 | creating a reset raises its user's count by one and no other user's |
| Resets.DeleteUserReset | user_reset.go:59-66 | removes exactly the row with that selector, one row when it is present |
| Resets.DeleteUserResetByUserID | user_reset.go:67-74 | removes that user's rows; their count becomes 0 and other users' counts are kept |
| Resets.GetUserResetCount | user_reset.go:75-98 | the number of that user's rows, equal to the length of the select by user |
| Resets.CountIncludesExpired | user_reset.go:75-98 | an expired row still counts |
| Resets.GetUserResetBySelector | user_reset.go:99-122 | the row with that selector iff one exists, otherwise no-rows |
| Resets.GetUserResetByUserID | user_reset.go:123-157 | exactly that user's rows, as many as the count |
| Auth.Register | auth.go:10-38 | on a failed check the store is unchanged; a bad or taken address fails; otherwise one verified account is appended |
| Auth.RegisterWithConfirmation | auth.go:39-68 | one unverified account and one confirmation (new id, address, now + 3600); the callback's result is returned; a selector clash keeps the account |
| Auth.IssueConfirmation | auth.go:55-67 | a taken selector fails and changes nothing; otherwise one confirmation for the account expiring an hour on, and the callback's result |
| Auth.CallbackTokenVerifies | auth.go:55-62 | the token passed to the callback verifies against the stored digest |
| Auth.ConfirmEmail | auth.go:69-113 | guards in order: no row, wrong token (before expiry), expired, unknown user, address clash; none changes the store; success writes address and verified and deletes only that confirmation |
| Auth.ApplyConfirmation | auth.go:79-112 | wrong token, then expired, then unknown account, then address clash, each changing nothing; otherwise the account gets the address and verified 1 and the confirmation is deleted |
| Auth.Login | auth.go:114-152 | the id only for a valid address whose Normal-status account is verified and whose password verifies; only last_login changes; never reports user blocked |
| Auth.Remember | auth.go:153-171 | one remember-me row with the given expiry; the cookie callback's result is returned |
| Auth.DeleteRemember | auth.go:172-182 | removes exactly that remember-me row |
| Auth.ConfirmRemember | auth.go:183-214 | a wrong token or expiry deletes the row and reports the error; success changes nothing |
| Auth.ResetPasswordWithConfirmation | auth.go:215-262 | guards in order: bad or unknown address, unverified, not resettable, two or more rows (the limit of settings.go:63-65), selector clash; otherwise one reset (now + 86400) and the user's count goes up by one |
| Auth.IssueReset | auth.go:232-261 | the guards after the lookup and the insert of the reset |
| Auth.ConfirmReset | auth.go:263-282 | the user id for a matching, live reset; the store is only read |
| Auth.DeleteReset | auth.go:283-293 | removes exactly that reset row |
| Auth.ResetPassword | auth.go:294-328 | a new password digest for the verified, resettable account; no-rows for an unknown address; never reports user blocked |
| Auth.ResetPasswordWithID | auth.go:329-366 | as ResetPassword, by id; an unknown id reports the invalid-user-id error |
| Auth.UpdatePasswordOf | auth.go:304-327 | the shared guards and password update; the status guard never fires |
| Auth.ReconfirmPassword | auth.go:367-382 | no-rows, invalid password or success; the store is only read |
| Scenarios.FindAppended | user_confirmation.go:77-100 | a credential inserted under a fresh selector is the row the lookup by that selector finds |
| Scenarios.RegisterThenLogin | auth.go:10-152 | `Register` (lines 10-38) then `Login` (lines 114-152): registering and then logging in with the same address and password succeeds with the new account's id and records the login time |
| Scenarios.RegisterThenLoginUnconfirmed | auth.go:39-152 | `RegisterWithConfirmation` (lines 39-68) then `Login` (lines 114-152): logging in after registering with confirmation, before confirming, is refused as not verified and leaves the new account as registered |
| Scenarios.RegisterThenConfirm | auth.go:39-113 | confirming within the hour with the callback's selector and token verifies the new account and uses up the confirmation |
| Scenarios.ResetRequestsAreLimited | auth.go:240-247 | two resets are issued and the third request is refused |
| Scenarios.WrongTokenBurnsRemember | auth.go:193-201 | after a wrong token the same selector is no longer found, even with the right token |
| Scenarios.WrongTokenKeepsConfirmation | auth.go:79-81 | a wrong token leaves the confirmation in place for the right one |

## Left out

- Salt, cost and one-wayness of bcrypt: the digest is modelled as the header plus the plaintext. bcrypt's 72-byte password limit is also not modelled; with it, `hashPassword` would return an empty digest.
- `net/mail.ParseAddress`: a parameter. Its RFC 5322 grammar is not modelled.
- `math/rand` seeding from the clock: the generator's answers are parameters, so two calls in the same nanosecond giving the same string is not modelled.
- `time.Now`: one `now` per flow. The flows' separate clock readings, such as expiry versus registration time, are taken to be the same instant.
- A negative `length` in `randomString`, which panics in Go: the length is a `nat`.
- The SQL text of `SetupDatabase` and its execution: only the tables, the defaults, the NOT NULL and UNIQUE constraints and AUTOINCREMENT are modelled. The CHECK (`>= 0`) constraints, the indexes and SQLite's type affinity are left out; a value of the wrong kind is refused outright.
- Users.UpdateUser: its precondition excludes assigning the id column, which no caller in the package does.
- Concurrency: each flow is modelled as one uninterrupted step over the store, while the source runs every statement on its own, with no transaction. Two concurrent `ResetPasswordWithConfirmation` calls can both pass the count check and leave three resets, so `Scenarios.ResetRequestsAreLimited` holds for sequential calls only. Other writers can also run between the insert and the `verified = 1` update of `Register`, and between the steps of `RegisterWithConfirmation`, `ConfirmEmail`, `Login`, `ConfirmRemember`, `ResetPassword` and `ResetPasswordWithID`.
- int64 width: ids, timestamps, counters and the expiry sums are unbounded integers, so wrap-around of the AUTOINCREMENT keys and of `now + lifetime` is not modelled. This affects every flow that issues a credential or inserts an account.
- Byte strings: Go strings are byte sequences, while the model's strings are sequences of characters. The alphanumeric check, `ValidateSelector` and `ValidateToken` reject any non-ASCII input either way, but address and password lengths and comparisons are made on characters rather than bytes.
- The external `database` package (imported at user.go:7 and user_remember.go:7 as `server/internal/database`, and at auth.go:6, user_confirmation.go:7 and user_reset.go:7 as `github.com/stockholmr/database`) is not part of this model. The model assumes that `database.Insert`, `database.Update` and `database.Delete` issue `INSERT INTO <table> (<cols>) VALUES (?, …)`, `UPDATE <table> SET <col> = ?, … WHERE <col> = ?` and `DELETE FROM <table> WHERE <col> = ?`, and that `NewFieldValuePair` passes the column name into the SQL verbatim. `SetColumn`, `UpdateUsers`, `DeleteUserRows`, `WithoutSelector`, `WithoutUser` and the `roles` finding rest on that assumption.
- Users.User.ShallowClone: Go's clone copies the field pointers, so the clone and the original share their NullInt64 and NullString cells. The model copies the values. Behaviour is the same because the setters store new cells instead of writing through the shared ones.
- I/O, prepare and close errors of individual statements on a live connection, and the connection changing during a flow. So `GetUserResetCount` returns the count without an error case.
- The `-999` id Go returns beside an error: the model returns `Failure`.
- Nil-pointer dereferences, such as `IsVerified` on a `NewUser` record that has no verified field: nil is modelled as NULL.
- The `getTable` panic: modelled as `None`. Every call in the package passes a known name, so the flows use the table fields directly.
- userRepository.go, controller.go, middleware.go, templates.go, styles.go, events/ and user/user.go are not part of this model: they are HTTP handling, sessions, a separate repository and plain data.
- `InvalidSelector`, `SendConfirm` and `SetCookie` are defined but not returned by any modelled flow, as in the source.

## Findings

| source | as written | input that shows it | evidently intended | confidence | as-written member | corrected member |
|---|---|---|---|---|---|---|
| user.go:205-215 | dbUpdateUserStatus writes `user.Status` into the `last_login` column | an existing account and a record with status 2: the row keeps its status and gets last_login 2 | write the `status` column | not executed | Users.StatusUpdateAsWrittenMissesStatus | Users.StatusUpdateSetsStatus |
| user.go:238-248 | dbUpdateUserRoles names column `roles`; the table has `roles_mask` | any account and any role value: the UPDATE fails with no such column | write the `roles_mask` column | not executed; assumes the external `database` package passes column names into the SQL verbatim | Users.RolesUpdateAsWrittenAlwaysFails | Users.RolesUpdateSetsRoles |
