/** The flows of auth.go.  Each takes the database handle, checks that it is
    usable, and then runs its chain of guards and statements; the clock
    reading, the address parser, the generator's answers and the callbacks
    are parameters. */
module Auth {
  import opened Wrappers
  import opened Settings
  import opened Helpers
  import opened Database
  import opened Users
  import opened Confirmations
  import opened Remembers
  import opened Resets

  /** net/mail.ParseAddress succeeds on the string. */
  type AddressParser = string -> bool

  /** The error a flow reports for a failed lookup: the no-rows error, when
      the flow maps it, becomes the flow's own error. */
  function NotFoundAs(e: Error, mapped: Error): Error {
    if e == NoRows then mapped else e
  }

  /** Register: a new account, marked verified at once. */
  method Register(db: Store, email: string, password: string, now: int, validEmail: AddressParser)
    returns (r: Outcome<Error>)
    requires db.Valid()
    modifies db`users, db`nextUserID
    ensures db.Valid()
    ensures !db.connection.Live? ==> r == CheckDatabase(db.connection) && unchanged(db)
    ensures db.connection.Live? ==>
      if !validEmail(email) then r == Fail(InvalidEmail) && unchanged(db)
      else if EmailTaken(old(db.users), email) then r == Fail(UniqueEmail) && unchanged(db)
      else
        r == Pass
        && db.users == old(db.users) + [InsertedUser(old(db.nextUserID), email, HashPassword(password), now).(verified := 1)]
        && db.nextUserID == old(db.nextUserID) + 1
  {
    var check := CheckDatabase(db.connection);
    if check.Fail? {
      return check;
    }
    if !validEmail(email) {
      return Fail(InvalidEmail);
    }
    var user := new User.NewUser(email, HashPassword(password), now);
    var created := CreateUser(db, user);
    if created.Failure? {
      return Fail(created.error);
    }
    ghost var row := InsertedUser(created.value, email, HashPassword(password), now);
    ReplaceLastRow(old(db.users), row, row.(verified := 1));
    VerifiedUpdate(db.users, row, 1);
    r := UpdateUser(db, created.value, [FieldValuePair("verified", IntValue(1))]);
  }

  /** RegisterWithConfirmation: a new unverified account and one confirmation
      for its address, whose selector and token go to the callback.  Neither
      is withdrawn when a later step fails. */
  method RegisterWithConfirmation(db: Store, email: string, password: string, confirmEmail: SelectorTokenCallBack,
                                  now: int, validEmail: AddressParser, entropy: Entropy)
    returns (r: Outcome<Error>)
    requires db.Valid()
    modifies db`users, db`nextUserID, db`confirmations, db`nextConfirmationID
    ensures db.Valid()
    ensures !db.connection.Live? ==> r == CheckDatabase(db.connection) && unchanged(db)
    ensures db.connection.Live? ==>
      if !validEmail(email) then r == Fail(InvalidEmail) && unchanged(db)
      else if EmailTaken(old(db.users), email) then r == Fail(UniqueEmail) && unchanged(db)
      else
        db.users == old(db.users) + [InsertedUser(old(db.nextUserID), email, HashPassword(password), now)]
        && db.nextUserID == old(db.nextUserID) + 1
        && if SelectorTaken(old(db.confirmations), SelectorFrom(entropy)) then
             r == Fail(UniqueSelector) && db.confirmations == old(db.confirmations)
             && db.nextConfirmationID == old(db.nextConfirmationID)
           else
             r == confirmEmail(SelectorFrom(entropy), TokenFrom(entropy))
             && db.confirmations == old(db.confirmations) +
                [Confirmation(NewNullInt64(old(db.nextConfirmationID)), old(db.nextUserID), email,
                              SelectorFrom(entropy), HashPassword(TokenFrom(entropy)), ConfirmationExpiry(now))]
             && db.nextConfirmationID == old(db.nextConfirmationID) + 1
  {
    var check := CheckDatabase(db.connection);
    if check.Fail? {
      return check;
    }
    if !validEmail(email) {
      return Fail(InvalidEmail);
    }
    var user := new User.NewUser(email, HashPassword(password), now);
    var created := CreateUser(db, user);
    if created.Failure? {
      return Fail(created.error);
    }
    r := IssueConfirmation(db, created.value, email, confirmEmail, now, entropy);
  }

  /** The steps of RegisterWithConfirmation after the account insert: one
      confirmation for the new account, whose selector and token go to the
      callback. */
  method IssueConfirmation(db: Store, userID: int, email: string, confirmEmail: SelectorTokenCallBack,
                           now: int, entropy: Entropy)
    returns (r: Outcome<Error>)
    requires db.Valid()
    modifies db`confirmations, db`nextConfirmationID
    ensures db.Valid()
    ensures
      if SelectorTaken(old(db.confirmations), SelectorFrom(entropy)) then
        r == Fail(UniqueSelector) && unchanged(db)
      else
        r == confirmEmail(SelectorFrom(entropy), TokenFrom(entropy))
        && db.confirmations == old(db.confirmations) +
           [Confirmation(NewNullInt64(old(db.nextConfirmationID)), userID, email,
                         SelectorFrom(entropy), HashPassword(TokenFrom(entropy)), ConfirmationExpiry(now))]
        && db.nextConfirmationID == old(db.nextConfirmationID) + 1
  {
    var confirm := NewUserConfirmation(userID, email, ConfirmationExpiry(now), entropy);
    var stored := CreateUserConfirmation(db, confirm);
    if stored.Failure? {
      return Fail(stored.error);
    }
    r := confirmEmail(confirm.GetSelector(), confirm.GetToken());
  }

  /** The token handed to the callback is the one the stored digest verifies. */
  lemma CallbackTokenVerifies(entropy: Entropy)
    ensures VerifyHash(HashPassword(TokenFrom(entropy)), TokenFrom(entropy))
    ensures ValidateSelector(SelectorFrom(entropy)) && ValidateToken(TokenFrom(entropy))
  {
    HashVerifies(TokenFrom(entropy));
    RandomCharsAreAlphanumeric(SelectorLength, entropy.selectorDraws);
    RandomCharsAreAlphanumeric(TokenLength, entropy.tokenDraws);
  }

  /** ConfirmEmail: the token is checked before the expiry; a live, matching
      confirmation writes its address and verified = 1 into its account and is
      then deleted. */
  method ConfirmEmail(db: Store, selector: string, token: string, now: int) returns (r: Outcome<Error>)
    requires db.Valid()
    modifies db`users, db`confirmations
    ensures db.Valid()
    ensures !db.connection.Live? ==> r == CheckDatabase(db.connection) && unchanged(db)
    ensures db.connection.Live? && !SelectorTaken(old(db.confirmations), selector) ==>
      r == Fail(NoRows) && unchanged(db)
    ensures db.connection.Live? && SelectorTaken(old(db.confirmations), selector) ==>
      var c := FindBySelector(old(db.confirmations), selector).value;
      if !VerifyHash(c.token, token) then r == Fail(InvalidToken) && unchanged(db)
      else if c.HasExpired(now) then r == Fail(TokenExpired) && unchanged(db)
      else if UserWithID(old(db.users), c.userID).None? then r == Fail(InvalidUserID) && unchanged(db)
      else if EmailTakenByOther(old(db.users), c.email, c.userID) then r == Fail(UniqueEmail) && unchanged(db)
      else
        r == Pass
        && db.users == ReplaceRow(old(db.users), c.userID,
                                  UserWithID(old(db.users), c.userID).value.(email := c.email, verified := 1))
        && db.confirmations == WithoutSelector(old(db.confirmations), selector)
  {
    var check := CheckDatabase(db.connection);
    if check.Fail? {
      return check;
    }
    var found := GetUserConfirmationBySelector(db, selector);
    if found.Failure? {
      return Fail(found.error);
    }
    var confirm := found.value;
    SelectorNamesOneRow(db.confirmations, confirm, FindBySelector(db.confirmations, selector).value);
    r := ApplyConfirmation(db, confirm, selector, token, now);
  }

  /** The steps of ConfirmEmail once the confirmation with that selector has
      been loaded: token, expiry, account, then the update and the delete. */
  method ApplyConfirmation(db: Store, confirm: Credential, selector: string, token: string, now: int)
    returns (r: Outcome<Error>)
    requires db.Valid() && confirm in db.confirmations && confirm.selector == selector
    modifies db`users, db`confirmations
    ensures db.Valid()
    ensures
      if !VerifyHash(confirm.token, token) then r == Fail(InvalidToken) && unchanged(db)
      else if confirm.HasExpired(now) then r == Fail(TokenExpired) && unchanged(db)
      else if UserWithID(old(db.users), confirm.userID).None? then r == Fail(InvalidUserID) && unchanged(db)
      else if EmailTakenByOther(old(db.users), confirm.email, confirm.userID) then r == Fail(UniqueEmail) && unchanged(db)
      else
        r == Pass
        && db.users == ReplaceRow(old(db.users), confirm.userID,
                                  UserWithID(old(db.users), confirm.userID).value.(email := confirm.email, verified := 1))
        && db.confirmations == WithoutSelector(old(db.confirmations), selector)
  {
    if !VerifyHash(confirm.token, token) {
      return Fail(InvalidToken);
    }
    if confirm.HasExpired(now) {
      return Fail(TokenExpired);
    }
    var loaded := GetUserByID(db, confirm.userID);
    if loaded.Failure? {
      return Fail(NotFoundAs(loaded.error, InvalidUserID));
    }
    var user := loaded.value;
    ghost var row := UserWithID(db.users, confirm.userID).value;
    LoadedFlags(user, row);
    ConfirmedUpdate(db.users, row, confirm.email);
    r := UpdateUser(db, user.GetID(), ConfirmedFields(confirm.email));
    if r.Fail? {
      return;
    }
    r := DeleteUserConfirmation(db, selector);
  }

  /** Login: the id of the Normal-status, verified account whose password
      verifies; the only change is its last login time. */
  method Login(db: Store, email: string, password: string, now: int, validEmail: AddressParser)
    returns (r: Result<int, Error>)
    requires db.Valid()
    modifies db`users
    ensures db.Valid()
    ensures r != Failure(UserBlocked)
    ensures !db.connection.Live? ==> r == Failure(CheckDatabase(db.connection).error) && unchanged(db)
    ensures db.connection.Live? ==>
      if !validEmail(email) then r == Failure(InvalidEmail) && unchanged(db)
      else if UserWithEmail(old(db.users), email).None? then r == Failure(NoRows) && unchanged(db)
      else
        var u := UserWithEmail(old(db.users), email).value;
        if u.verified != 1 then r == Failure(EmailNotVerified) && unchanged(db)
        else if !VerifyHash(u.password, password) then r == Failure(InvalidPassword) && unchanged(db)
        else r == Success(u.id) && db.users == ReplaceRow(old(db.users), u.id, u.(lastLogin := NewNullInt64(now)))
  {
    var check := CheckDatabase(db.connection);
    if check.Fail? {
      return Failure(check.error);
    }
    if !validEmail(email) {
      return Failure(InvalidEmail);
    }
    var loaded := GetUserByEmail(db, email);
    if loaded.Failure? {
      return Failure(loaded.error);
    }
    var user := loaded.value;
    ghost var row := UserWithEmail(db.users, email).value;
    LoadedFlags(user, row);
    if !user.IsVerified() {
      return Failure(EmailNotVerified);
    }
    if user.status.value != StatusNormal {
      // the lookup only returns Normal-status accounts
      assert false;
      return Failure(UserBlocked);
    }
    if !VerifyHash(user.password.text, password) {
      return Failure(InvalidPassword);
    }
    LastLoginUpdate(db.users, row, NewNullInt64(now));
    var updated := UpdateUser(db, user.GetID(), [FieldValuePair("last_login", IntValue(now))]);
    r := match updated
      case Pass => Success(user.GetID())
      case Fail(e) => Failure(e);
  }

  /** Remember: one remember-me record for the user, whose selector and token
      go to the cookie callback; nothing checks that the user exists. */
  method Remember(db: Store, userID: int, expires: int, setCookie: SelectorTokenCallBack, entropy: Entropy)
    returns (r: Outcome<Error>)
    requires db.Valid()
    modifies db`remembered, db`nextRememberID
    ensures db.Valid()
    ensures !db.connection.Live? ==> r == CheckDatabase(db.connection) && unchanged(db)
    ensures db.connection.Live? ==>
      if SelectorTaken(old(db.remembered), SelectorFrom(entropy)) then r == Fail(UniqueSelector) && unchanged(db)
      else
        r == setCookie(SelectorFrom(entropy), TokenFrom(entropy))
        && db.remembered == old(db.remembered) +
           [Credential.Remember(NewNullInt64(old(db.nextRememberID)), userID, SelectorFrom(entropy), HashPassword(TokenFrom(entropy)), expires)]
        && db.nextRememberID == old(db.nextRememberID) + 1
  {
    var check := CheckDatabase(db.connection);
    if check.Fail? {
      return check;
    }
    var remember := NewUserRemember(userID, expires, entropy);
    var stored := CreateUserRemember(db, remember);
    if stored.Failure? {
      return Fail(stored.error);
    }
    r := setCookie(remember.GetSelector(), remember.GetToken());
  }

  /** DeleteRemember: the record with that selector goes. */
  method DeleteRemember(db: Store, selector: string) returns (r: Outcome<Error>)
    requires db.Valid()
    modifies db`remembered
    ensures db.Valid()
    ensures !db.connection.Live? ==> r == CheckDatabase(db.connection) && unchanged(db)
    ensures db.connection.Live? ==> r == Pass && db.remembered == WithoutSelector(old(db.remembered), selector)
  {
    var check := CheckDatabase(db.connection);
    if check.Fail? {
      return check;
    }
    r := DeleteUserRemember(db, selector);
  }

  /** ConfirmRemember: a wrong token or an expired record deletes the record;
      a good one leaves everything as it was. */
  method ConfirmRemember(db: Store, selector: string, token: string, now: int) returns (r: Outcome<Error>)
    requires db.Valid()
    modifies db`remembered
    ensures db.Valid()
    ensures !db.connection.Live? ==> r == CheckDatabase(db.connection) && unchanged(db)
    ensures db.connection.Live? && !SelectorTaken(old(db.remembered), selector) ==>
      r == Fail(NoRows) && unchanged(db)
    ensures db.connection.Live? && SelectorTaken(old(db.remembered), selector) ==>
      var c := FindBySelector(old(db.remembered), selector).value;
      if !VerifyHash(c.token, token) then
        r == Fail(InvalidToken) && db.remembered == WithoutSelector(old(db.remembered), selector)
      else if c.HasExpired(now) then
        r == Fail(TokenExpired) && db.remembered == WithoutSelector(old(db.remembered), selector)
      else r == Pass && unchanged(db)
  {
    var check := CheckDatabase(db.connection);
    if check.Fail? {
      return check;
    }
    var found := GetUserRememberBySelector(db, selector);
    if found.Failure? {
      return Fail(found.error);
    }
    var remember := found.value;
    SelectorNamesOneRow(db.remembered, remember, FindBySelector(db.remembered, selector).value);
    if !VerifyHash(remember.token, token) {
      r := DeleteUserRemember(db, selector);
      if r.Fail? {
        return;
      }
      return Fail(InvalidToken);
    }
    if remember.HasExpired(now) {
      r := DeleteUserRemember(db, selector);
      if r.Fail? {
        return;
      }
      return Fail(TokenExpired);
    }
    r := Pass;
  }

  /** ResetPasswordWithConfirmation: for a verified, resettable account with
      fewer than two reset rows of any age, one reset record whose selector and
      token go to the callback. */
  method ResetPasswordWithConfirmation(db: Store, email: string, confirmEmail: SelectorTokenCallBack,
                                       now: int, validEmail: AddressParser, entropy: Entropy)
    returns (r: Outcome<Error>)
    requires db.Valid()
    modifies db`resets, db`nextResetID
    ensures db.Valid()
    ensures !db.connection.Live? ==> r == CheckDatabase(db.connection) && unchanged(db)
    ensures db.connection.Live? ==>
      if !validEmail(email) || UserWithEmail(db.users, email).None? then r == Fail(InvalidEmail) && unchanged(db)
      else
        var u := UserWithEmail(db.users, email).value;
        if u.verified != 1 then r == Fail(EmailNotVerified) && unchanged(db)
        else if u.resettable != 1 then r == Fail(ResetDisabled) && unchanged(db)
        else if CountOfUser(old(db.resets), u.id) >= MaxUserResetRequests then r == Fail(TooManyRequests) && unchanged(db)
        else if SelectorTaken(old(db.resets), SelectorFrom(entropy)) then r == Fail(UniqueSelector) && unchanged(db)
        else
          r == confirmEmail(SelectorFrom(entropy), TokenFrom(entropy))
          && db.resets == old(db.resets) +
             [Reset(NewNullInt64(old(db.nextResetID)), u.id, SelectorFrom(entropy), HashPassword(TokenFrom(entropy)), ResetExpiry(now))]
          && db.nextResetID == old(db.nextResetID) + 1
          && CountOfUser(db.resets, u.id) == CountOfUser(old(db.resets), u.id) + 1
  {
    var check := CheckDatabase(db.connection);
    if check.Fail? {
      return check;
    }
    if !validEmail(email) {
      return Fail(InvalidEmail);
    }
    var loaded := GetUserByEmail(db, email);
    if loaded.Failure? {
      return Fail(NotFoundAs(loaded.error, InvalidEmail));
    }
    var user := loaded.value;
    ghost var row := UserWithEmail(db.users, email).value;
    r := IssueReset(db, user, row, confirmEmail, now, entropy);
  }

  /** The guards and the insert of ResetPasswordWithConfirmation once the
      account has been loaded from `row`. */
  method IssueReset(db: Store, user: User, ghost row: UserRow, confirmEmail: SelectorTokenCallBack, now: int, entropy: Entropy)
    returns (r: Outcome<Error>)
    requires db.Valid() && user.Loaded(row)
    modifies db`resets, db`nextResetID
    ensures db.Valid()
    ensures
      if row.verified != 1 then r == Fail(EmailNotVerified) && unchanged(db)
      else if row.resettable != 1 then r == Fail(ResetDisabled) && unchanged(db)
      else if CountOfUser(old(db.resets), row.id) >= MaxUserResetRequests then r == Fail(TooManyRequests) && unchanged(db)
      else if SelectorTaken(old(db.resets), SelectorFrom(entropy)) then r == Fail(UniqueSelector) && unchanged(db)
      else
        r == confirmEmail(SelectorFrom(entropy), TokenFrom(entropy))
        && db.resets == old(db.resets) +
           [Reset(NewNullInt64(old(db.nextResetID)), row.id, SelectorFrom(entropy), HashPassword(TokenFrom(entropy)), ResetExpiry(now))]
        && db.nextResetID == old(db.nextResetID) + 1
        && CountOfUser(db.resets, row.id) == CountOfUser(old(db.resets), row.id) + 1
  {
    LoadedFlags(user, row);
    if !user.IsVerified() {
      return Fail(EmailNotVerified);
    }
    if !user.IsResettable() {
      return Fail(ResetDisabled);
    }
    var resetCount := GetUserResetCount(db, user.GetID());
    if resetCount >= MaxUserResetRequests {
      return Fail(TooManyRequests);
    }
    var reset := NewUserReset(user.GetID(), ResetExpiry(now), entropy);
    CreateCountsOne(db.resets, reset.credential, db.nextResetID, user.GetID());
    var stored := CreateUserReset(db, reset);
    if stored.Failure? {
      return Fail(stored.error);
    }
    r := confirmEmail(reset.GetSelector(), reset.GetToken());
  }

  /** ConfirmReset: the id of the user a matching, live reset belongs to; the
      store is only read. */
  method ConfirmReset(db: Store, selector: string, token: string, now: int) returns (r: Result<int, Error>)
    requires db.Valid()
    ensures !db.connection.Live? ==> r == Failure(CheckDatabase(db.connection).error)
    ensures db.connection.Live? && !SelectorTaken(db.resets, selector) ==> r == Failure(NoRows)
    ensures db.connection.Live? && SelectorTaken(db.resets, selector) ==>
      var c := FindBySelector(db.resets, selector).value;
      if !VerifyHash(c.token, token) then r == Failure(InvalidToken)
      else if c.HasExpired(now) then r == Failure(TokenExpired)
      else r == Success(c.userID)
  {
    var check := CheckDatabase(db.connection);
    if check.Fail? {
      return Failure(check.error);
    }
    var found := GetUserResetBySelector(db, selector);
    if found.Failure? {
      return Failure(found.error);
    }
    var reset := found.value;
    SelectorNamesOneRow(db.resets, reset, FindBySelector(db.resets, selector).value);
    if !VerifyHash(reset.token, token) {
      return Failure(InvalidToken);
    }
    if reset.HasExpired(now) {
      return Failure(TokenExpired);
    }
    r := Success(reset.userID);
  }

  /** DeleteReset: the reset with that selector goes. */
  method DeleteReset(db: Store, selector: string) returns (r: Outcome<Error>)
    requires db.Valid()
    modifies db`resets
    ensures db.Valid()
    ensures !db.connection.Live? ==> r == CheckDatabase(db.connection) && unchanged(db)
    ensures db.connection.Live? ==> r == Pass && db.resets == WithoutSelector(old(db.resets), selector)
  {
    var check := CheckDatabase(db.connection);
    if check.Fail? {
      return check;
    }
    r := DeleteUserReset(db, selector);
  }

  /** ResetPassword: a new password for the verified, resettable Normal-status
      account with that address; no token is asked for. */
  method ResetPassword(db: Store, email: string, password: string) returns (r: Outcome<Error>)
    requires db.Valid()
    modifies db`users
    ensures db.Valid()
    ensures r != Fail(UserBlocked)
    ensures !db.connection.Live? ==> r == CheckDatabase(db.connection) && unchanged(db)
    ensures db.connection.Live? ==>
      if UserWithEmail(old(db.users), email).None? then r == Fail(NoRows) && unchanged(db)
      else
        var u := UserWithEmail(old(db.users), email).value;
        if u.verified != 1 then r == Fail(EmailNotVerified) && unchanged(db)
        else if u.resettable != 1 then r == Fail(ResetDisabled) && unchanged(db)
        else r == Pass && db.users == ReplaceRow(old(db.users), u.id, u.(password := HashPassword(password)))
  {
    var check := CheckDatabase(db.connection);
    if check.Fail? {
      return check;
    }
    var loaded := GetUserByEmail(db, email);
    if loaded.Failure? {
      return Fail(loaded.error);
    }
    var user := loaded.value;
    ghost var row := UserWithEmail(db.users, email).value;
    LoadedFlags(user, row);
    r := UpdatePasswordOf(db, user, row, password);
  }

  /** ResetPasswordWithID: as ResetPassword, for the account with that id; an
      unknown id is reported as an invalid user id. */
  method ResetPasswordWithID(db: Store, userID: int, password: string) returns (r: Outcome<Error>)
    requires db.Valid()
    modifies db`users
    ensures db.Valid()
    ensures r != Fail(UserBlocked)
    ensures !db.connection.Live? ==> r == CheckDatabase(db.connection) && unchanged(db)
    ensures db.connection.Live? ==>
      if UserWithID(old(db.users), userID).None? then r == Fail(InvalidUserID) && unchanged(db)
      else
        var u := UserWithID(old(db.users), userID).value;
        if u.verified != 1 then r == Fail(EmailNotVerified) && unchanged(db)
        else if u.resettable != 1 then r == Fail(ResetDisabled) && unchanged(db)
        else r == Pass && db.users == ReplaceRow(old(db.users), userID, u.(password := HashPassword(password)))
  {
    var check := CheckDatabase(db.connection);
    if check.Fail? {
      return check;
    }
    var loaded := GetUserByID(db, userID);
    if loaded.Failure? {
      return Fail(NotFoundAs(loaded.error, InvalidUserID));
    }
    var user := loaded.value;
    ghost var row := UserWithID(db.users, userID).value;
    LoadedFlags(user, row);
    r := UpdatePasswordOf(db, user, row, password);
  }

  /** The guards and the update ResetPassword and ResetPasswordWithID share,
      on an account loaded from `row`.  Its status guard asks for a NULL status,
      which a loaded account never has. */
  method UpdatePasswordOf(db: Store, user: User, ghost row: UserRow, password: string) returns (r: Outcome<Error>)
    requires db.Valid() && row in db.users && user.Loaded(row)
    modifies db`users
    ensures db.Valid()
    ensures r != Fail(UserBlocked)
    ensures
      if row.verified != 1 then r == Fail(EmailNotVerified) && unchanged(db)
      else if row.resettable != 1 then r == Fail(ResetDisabled) && unchanged(db)
      else r == Pass && db.users == ReplaceRow(old(db.users), row.id, row.(password := HashPassword(password)))
  {
    LoadedFlags(user, row);
    if !user.IsVerified() {
      return Fail(EmailNotVerified);
    }
    if !user.IsResettable() {
      return Fail(ResetDisabled);
    }
    var status := user.status;
    if !status.valid && status.value != StatusNormal {
      assert false;
      return Fail(UserBlocked);
    }
    PasswordUpdate(db.users, row, HashPassword(password));
    r := UpdateUser(db, user.GetID(), [FieldValuePair("password", TextValue(HashPassword(password)))]);
  }

  /** ReconfirmPassword: whether the password verifies for the Normal-status
      account with that address; the store is only read. */
  method ReconfirmPassword(db: Store, email: string, password: string) returns (r: Outcome<Error>)
    ensures !db.connection.Live? ==> r == CheckDatabase(db.connection)
    ensures db.connection.Live? ==>
      if UserWithEmail(db.users, email).None? then r == Fail(NoRows)
      else if !VerifyHash(UserWithEmail(db.users, email).value.password, password) then r == Fail(InvalidPassword)
      else r == Pass
  {
    var check := CheckDatabase(db.connection);
    if check.Fail? {
      return check;
    }
    var loaded := GetUserByEmail(db, email);
    if loaded.Failure? {
      return Fail(loaded.error);
    }
    var user := loaded.value;
    if !VerifyHash(user.password.text, password) {
      return Fail(InvalidPassword);
    }
    r := Pass;
  }
}
