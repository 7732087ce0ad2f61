/** E-mail confirmations (user_confirmation.go): the record, its expiry and
    its statements on the users_confirmations table. */
module Confirmations {
  import opened Wrappers
  import opened Settings
  import opened Helpers
  import opened Database

  /** NewUserConfirmation: a fresh selector and token; the record keeps the
      token's digest and only the returned value keeps the token itself. */
  method NewUserConfirmation(userID: int, email: string, expires: int, entropy: Entropy) returns (c: Issued)
    ensures c.credential == Confirmation(NullInt, userID, email, SelectorFrom(entropy), HashPassword(TokenFrom(entropy)), expires)
    ensures c.GetToken() == TokenFrom(entropy) && c.GetSelector() == SelectorFrom(entropy)
    ensures ValidateSelector(c.GetSelector()) && ValidateToken(c.GetToken())
    ensures VerifyHash(c.credential.token, c.GetToken()) && c.credential.token != c.GetToken()
  {
    var selector, token, hash := CreateTokenAuthenticator(entropy);
    c := Issued(Confirmation(NullInt, userID, email, selector, hash, expires), token);
  }

  /** A confirmation issued with the default lifetime at `now` is live up to
      the second before now + 3600 and expired from that second on. */
  lemma ConfirmationLifetime(c: Credential, now: int, t: int)
    requires c.Confirmation? && c.expires == ConfirmationExpiry(now)
    ensures c.HasExpired(t) <==> t >= now + 3600
    ensures !c.HasExpired(now) && c.HasExpired(c.expires)
  {
  }

  /** dbCreateUserConfirmation: the INSERT fails on a selector already in the
      table and otherwise appends the record under the next key. */
  method CreateUserConfirmation(db: Store, c: Issued) returns (r: Result<int, Error>)
    requires db.Valid() && c.credential.Confirmation?
    modifies db`confirmations, db`nextConfirmationID
    ensures db.Valid()
    ensures SelectorTaken(old(db.confirmations), c.GetSelector()) ==> r == Failure(UniqueSelector) && unchanged(db)
    ensures !SelectorTaken(old(db.confirmations), c.GetSelector()) ==>
      r == Success(old(db.nextConfirmationID))
      && db.confirmations == old(db.confirmations) + [c.credential.WithID(old(db.nextConfirmationID))]
      && db.nextConfirmationID == old(db.nextConfirmationID) + 1
  {
    if SelectorTaken(db.confirmations, c.GetSelector()) {
      return Failure(UniqueSelector);
    }
    var row := c.credential.WithID(db.nextConfirmationID);
    AppendKeepsSelectorsUnique(db.confirmations, row);
    db.confirmations := db.confirmations + [row];
    r := Success(db.nextConfirmationID);
    db.nextConfirmationID := db.nextConfirmationID + 1;
  }

  /** dbDeleteUserConfirmation: the row with that selector goes, the others stay. */
  method DeleteUserConfirmation(db: Store, selector: string) returns (r: Outcome<Error>)
    requires db.Valid()
    modifies db`confirmations
    ensures db.Valid()
    ensures r == Pass && db.confirmations == WithoutSelector(old(db.confirmations), selector)
    ensures forall c :: c in db.confirmations <==> c in old(db.confirmations) && c.selector != selector
  {
    db.confirmations := WithoutSelector(db.confirmations, selector);
    r := Pass;
  }

  /** dbDeleteUserConfirmationAllByUserID: every row of that user goes. */
  method DeleteUserConfirmationAllByUserID(db: Store, userID: int) returns (r: Outcome<Error>)
    requires db.Valid()
    modifies db`confirmations
    ensures db.Valid()
    ensures r == Pass && db.confirmations == WithoutUser(old(db.confirmations), userID)
    ensures forall c :: c in db.confirmations <==> c in old(db.confirmations) && c.userID != userID
  {
    db.confirmations := WithoutUser(db.confirmations, userID);
    r := Pass;
  }

  /** dbGetUserConfirmationBySelector: the row with that selector, or the
      driver's no-rows error. */
  method GetUserConfirmationBySelector(db: Store, selector: string) returns (r: Result<Credential, Error>)
    requires db.Valid()
    ensures r.Success? <==> SelectorTaken(db.confirmations, selector)
    ensures r.Success? ==> r.value in db.confirmations && r.value.selector == selector && r.value.Confirmation?
    ensures r.Failure? ==> r.error == NoRows
  {
    match FindBySelector(db.confirmations, selector)
    case None => r := Failure(NoRows);
    case Some(c) => r := Success(c);
  }

  /** dbGetUserConfirmationByUserID: exactly the rows of that user, in table order. */
  method GetUserConfirmationByUserID(db: Store, userID: int) returns (rows: seq<Credential>)
    ensures rows == RowsOfUser(db.confirmations, userID)
    ensures forall c :: c in rows <==> c in db.confirmations && c.userID == userID
  {
    rows := ScanByUserID(db.confirmations, userID);
  }
}
