/** Properties of the flows that only show over several calls. */
module Scenarios {
  import opened Wrappers
  import opened Settings
  import opened Helpers
  import opened Database
  import opened Users
  import opened Auth

  /** A row appended under a fresh selector is what the lookup by that
      selector finds. */
  lemma FindAppended(rows: seq<Credential>, c: Credential)
    requires !SelectorTaken(rows, c.selector)
    ensures FindBySelector(rows + [c], c.selector) == Some(c)
  {
    var found := FindBySelector(rows + [c], c.selector);
    assert found.Some? by {
      assert (rows + [c])[|rows|] == c;
    }
    assert found.value !in rows;
  }

  /** Registering with confirmation and then confirming, before the
      confirmation expires, with the selector and token the callback was
      given: the account is found by its address, verified, and the
      confirmation is used up. */
  method RegisterThenConfirm(db: Store, email: string, password: string, confirmEmail: SelectorTokenCallBack,
                             now: int, later: int, validEmail: AddressParser, entropy: Entropy)
    returns (registered: Outcome<Error>, confirmed: Outcome<Error>)
    requires db.Valid() && db.connection.Live? && validEmail(email)
    requires !EmailTaken(db.users, email) && !SelectorTaken(db.confirmations, SelectorFrom(entropy))
    requires now <= later < ConfirmationExpiry(now)
    modifies db`users, db`nextUserID, db`confirmations, db`nextConfirmationID
    ensures db.Valid()
    ensures registered == confirmEmail(SelectorFrom(entropy), TokenFrom(entropy))
    ensures confirmed == Pass
    ensures UserWithEmail(db.users, email).Some?
    ensures UserWithEmail(db.users, email).value.id == old(db.nextUserID)
    ensures UserWithEmail(db.users, email).value.verified == 1
    ensures !SelectorTaken(db.confirmations, SelectorFrom(entropy))
  {
    ghost var id := db.nextUserID;
    ghost var users0 := db.users;
    registered := RegisterWithConfirmation(db, email, password, confirmEmail, now, validEmail, entropy);
    ghost var row := InsertedUser(id, email, HashPassword(password), now);
    ghost var c := db.confirmations[|db.confirmations| - 1];
    assert db.confirmations == old(db.confirmations) + [c];
    FindAppended(old(db.confirmations), c);
    assert row in db.users;
    LookupsSeeOnlyNormal(db.users, row);
    assert !EmailTakenByOther(db.users, email, id) by {
      forall o <- db.users | o.email == email ensures o.id == id {
        assert o !in users0;
        assert o == row;
      }
    }
    ghost var users1 := db.users;
    confirmed := ConfirmEmail(db, SelectorFrom(entropy), TokenFrom(entropy), later);
    ghost var row' := row.(email := email, verified := 1);
    ReplaceLastRow(users0, row, row');
    assert row' in db.users;
    LookupsSeeOnlyNormal(db.users, row');
  }

  /** Registering and then logging in with the same credentials: the account
      is created verified, so the login succeeds with its new id and records
      the login time. */
  method RegisterThenLogin(db: Store, email: string, password: string, now: int, later: int, validEmail: AddressParser)
    returns (registered: Outcome<Error>, loggedIn: Result<int, Error>)
    requires db.Valid() && db.connection.Live? && validEmail(email) && !EmailTaken(db.users, email)
    modifies db`users, db`nextUserID
    ensures db.Valid()
    ensures registered == Pass
    ensures loggedIn == Success(old(db.nextUserID))
    ensures UserWithEmail(db.users, email).Some?
    ensures UserWithEmail(db.users, email).value.lastLogin == NewNullInt64(later)
  {
    ghost var id := db.nextUserID;
    ghost var users0 := db.users;
    registered := Register(db, email, password, now, validEmail);
    ghost var row := InsertedUser(id, email, HashPassword(password), now).(verified := 1);
    assert db.users == users0 + [row];
    LookupsSeeOnlyNormal(db.users, row);
    HashVerifies(password);
    loggedIn := Login(db, email, password, later, validEmail);
    ghost var row' := row.(lastLogin := NewNullInt64(later));
    ReplaceLastRow(users0, row, row');
    LookupsSeeOnlyNormal(db.users, row');
  }

  /** Registering with confirmation and logging in before confirming: the
      account exists but is not verified, so the login is refused and the
      store keeps the account as registered. */
  method RegisterThenLoginUnconfirmed(db: Store, email: string, password: string, confirmEmail: SelectorTokenCallBack,
                                      now: int, later: int, validEmail: AddressParser, entropy: Entropy)
    returns (registered: Outcome<Error>, loggedIn: Result<int, Error>)
    requires db.Valid() && db.connection.Live? && validEmail(email) && !EmailTaken(db.users, email)
    modifies db`users, db`nextUserID, db`confirmations, db`nextConfirmationID
    ensures db.Valid()
    ensures loggedIn == Failure(EmailNotVerified)
    ensures db.users == old(db.users) + [InsertedUser(old(db.nextUserID), email, HashPassword(password), now)]
  {
    InsertedUserIsFound(db.users, db.nextUserID, email, HashPassword(password), now);
    registered := RegisterWithConfirmation(db, email, password, confirmEmail, now, validEmail, entropy);
    loggedIn := Login(db, email, password, later, validEmail);
  }

  /** Three reset requests in a row for a verified, resettable account with
      no reset on file: the first two are issued and the third is refused. */
  method ResetRequestsAreLimited(db: Store, email: string, confirmEmail: SelectorTokenCallBack, now: int,
                                 validEmail: AddressParser, e1: Entropy, e2: Entropy, e3: Entropy)
    returns (r1: Outcome<Error>, r2: Outcome<Error>, r3: Outcome<Error>)
    requires db.Valid() && db.connection.Live? && validEmail(email)
    requires UserWithEmail(db.users, email).Some?
    requires UserWithEmail(db.users, email).value.verified == 1
    requires UserWithEmail(db.users, email).value.resettable == 1
    requires CountOfUser(db.resets, UserWithEmail(db.users, email).value.id) == 0
    requires !SelectorTaken(db.resets, SelectorFrom(e1)) && !SelectorTaken(db.resets, SelectorFrom(e2))
    requires SelectorFrom(e1) != SelectorFrom(e2)
    modifies db`resets, db`nextResetID
    ensures db.Valid()
    ensures r1 == confirmEmail(SelectorFrom(e1), TokenFrom(e1))
    ensures r2 == confirmEmail(SelectorFrom(e2), TokenFrom(e2))
    ensures r3 == Fail(TooManyRequests)
    ensures CountOfUser(db.resets, UserWithEmail(db.users, email).value.id) == MaxUserResetRequests
  {
    ghost var u := UserWithEmail(db.users, email).value;
    ghost var resets0 := db.resets;
    r1 := ResetPasswordWithConfirmation(db, email, confirmEmail, now, validEmail, e1);
    assert UserWithEmail(db.users, email).value == u;
    ghost var added := Reset(NewNullInt64(old(db.nextResetID)), u.id, SelectorFrom(e1), HashPassword(TokenFrom(e1)), ResetExpiry(now));
    assert db.resets == resets0 + [added];
    assert CountOfUser(db.resets, u.id) == 1;
    assert !SelectorTaken(db.resets, SelectorFrom(e2)) by {
      forall c <- db.resets ensures c.selector != SelectorFrom(e2) {
        if c !in resets0 {
          assert c == added;
        }
      }
    }
    r2 := ResetPasswordWithConfirmation(db, email, confirmEmail, now, validEmail, e2);
    assert CountOfUser(db.resets, u.id) == 2;
    r3 := ResetPasswordWithConfirmation(db, email, confirmEmail, now, validEmail, e3);
  }

  /** A remember-me cookie presented with a wrong token is burned: presenting
      the selector again, even with the right token, finds nothing. */
  method WrongTokenBurnsRemember(db: Store, selector: string, wrong: string, right: string, now: int, later: int)
    returns (first: Outcome<Error>, second: Outcome<Error>)
    requires db.Valid() && db.connection.Live? && SelectorTaken(db.remembered, selector)
    requires !VerifyHash(FindBySelector(db.remembered, selector).value.token, wrong)
    modifies db`remembered
    ensures db.Valid()
    ensures first == Fail(InvalidToken)
    ensures second == Fail(NoRows)
    ensures !SelectorTaken(db.remembered, selector)
  {
    first := ConfirmRemember(db, selector, wrong, now);
    second := ConfirmRemember(db, selector, right, later);
  }

  /** A confirmation presented with a wrong token stays on file: the right
      token still confirms it afterwards. */
  method WrongTokenKeepsConfirmation(db: Store, selector: string, wrong: string, right: string, now: int)
    returns (first: Outcome<Error>, second: Outcome<Error>)
    requires db.Valid() && db.connection.Live? && SelectorTaken(db.confirmations, selector)
    requires !VerifyHash(FindBySelector(db.confirmations, selector).value.token, wrong)
    modifies db`users, db`confirmations
    ensures db.Valid()
    ensures first == Fail(InvalidToken)
    ensures second == old(ConfirmEmailOutcome(db.users, db.confirmations, selector, right, now))
  {
    first := ConfirmEmail(db, selector, wrong, now);
    second := ConfirmEmail(db, selector, right, now);
  }

  /** The result `Auth.ConfirmEmail` reports, by its ensures, on a live
      database holding these tables: the guard chain of that contract with
      the store's changes left out, so that a scenario can compare two calls. */
  function ConfirmEmailOutcome(users: seq<UserRow>, confirmations: seq<Credential>, selector: string, token: string, now: int): Outcome<Error>
    requires ConfirmationsValid(confirmations)
  {
    match FindBySelector(confirmations, selector)
    case None => Fail(NoRows)
    case Some(c) =>
      if !VerifyHash(c.token, token) then Fail(InvalidToken)
      else if c.HasExpired(now) then Fail(TokenExpired)
      else if UserWithID(users, c.userID).None? then Fail(InvalidUserID)
      else if EmailTakenByOther(users, c.email, c.userID) then Fail(UniqueEmail)
      else Pass
  }
}
