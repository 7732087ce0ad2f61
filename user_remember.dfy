/** Remember-me credentials (user_remember.go): the record, its expiry and
    its statements on the users_remembered table. */
module Remembers {
  import opened Wrappers
  import opened Settings
  import opened Helpers
  import opened Database

  /** NewUserRemember: a fresh selector and token; the record keeps the
      token's digest and only the returned value keeps the token itself. */
  method NewUserRemember(userID: int, expires: int, entropy: Entropy) returns (c: Issued)
    ensures c.credential == Remember(NullInt, userID, SelectorFrom(entropy), HashPassword(TokenFrom(entropy)), expires)
    ensures c.GetToken() == TokenFrom(entropy) && c.GetSelector() == SelectorFrom(entropy)
    ensures ValidateSelector(c.GetSelector()) && ValidateToken(c.GetToken())
    ensures VerifyHash(c.credential.token, c.GetToken()) && c.credential.token != c.GetToken()
  {
    var selector, token, hash := CreateTokenAuthenticator(entropy);
    c := Issued(Remember(NullInt, userID, selector, hash, expires), token);
  }

  /** A remember-me record is still live at its expiry second and expired
      only after it, unlike a confirmation. */
  lemma RememberLifetime(c: Credential, t: int)
    requires c.Remember?
    ensures c.HasExpired(t) <==> t > c.expires
    ensures !c.HasExpired(c.expires) && c.HasExpired(c.expires + 1)
    ensures !c.(expires := RememberedExpiry(t)).HasExpired(t + 672 * 3600)
  {
  }

  /** dbCreateUserRemember: the INSERT fails on a selector already in the
      table and otherwise appends the record under the next key. */
  method CreateUserRemember(db: Store, c: Issued) returns (r: Result<int, Error>)
    requires db.Valid() && c.credential.Remember?
    modifies db`remembered, db`nextRememberID
    ensures db.Valid()
    ensures SelectorTaken(old(db.remembered), c.GetSelector()) ==> r == Failure(UniqueSelector) && unchanged(db)
    ensures !SelectorTaken(old(db.remembered), c.GetSelector()) ==>
      r == Success(old(db.nextRememberID))
      && db.remembered == old(db.remembered) + [c.credential.WithID(old(db.nextRememberID))]
      && db.nextRememberID == old(db.nextRememberID) + 1
  {
    if SelectorTaken(db.remembered, c.GetSelector()) {
      return Failure(UniqueSelector);
    }
    var row := c.credential.WithID(db.nextRememberID);
    AppendKeepsSelectorsUnique(db.remembered, row);
    db.remembered := db.remembered + [row];
    r := Success(db.nextRememberID);
    db.nextRememberID := db.nextRememberID + 1;
  }

  /** dbDeleteUserRemember: the row with that selector goes, the others stay. */
  method DeleteUserRemember(db: Store, selector: string) returns (r: Outcome<Error>)
    requires db.Valid()
    modifies db`remembered
    ensures db.Valid()
    ensures r == Pass && db.remembered == WithoutSelector(old(db.remembered), selector)
    ensures forall c :: c in db.remembered <==> c in old(db.remembered) && c.selector != selector
  {
    db.remembered := WithoutSelector(db.remembered, selector);
    r := Pass;
  }

  /** dbDeleteAllUserRememberedByUserID: every row of that user goes. */
  method DeleteAllUserRememberedByUserID(db: Store, userID: int) returns (r: Outcome<Error>)
    requires db.Valid()
    modifies db`remembered
    ensures db.Valid()
    ensures r == Pass && db.remembered == WithoutUser(old(db.remembered), userID)
    ensures forall c :: c in db.remembered <==> c in old(db.remembered) && c.userID != userID
  {
    db.remembered := WithoutUser(db.remembered, userID);
    r := Pass;
  }

  /** dbGetUserRememberBySelector: the row with that selector, or the
      driver's no-rows error. */
  method GetUserRememberBySelector(db: Store, selector: string) returns (r: Result<Credential, Error>)
    requires db.Valid()
    ensures r.Success? <==> SelectorTaken(db.remembered, selector)
    ensures r.Success? ==> r.value in db.remembered && r.value.selector == selector && r.value.Remember?
    ensures r.Failure? ==> r.error == NoRows
  {
    match FindBySelector(db.remembered, selector)
    case None => r := Failure(NoRows);
    case Some(c) => r := Success(c);
  }

  /** dbGetUserRememberByUserID: exactly the rows of that user, in table order. */
  method GetUserRememberByUserID(db: Store, userID: int) returns (rows: seq<Credential>)
    ensures rows == RowsOfUser(db.remembered, userID)
    ensures forall c :: c in rows <==> c in db.remembered && c.userID == userID
  {
    rows := ScanByUserID(db.remembered, userID);
  }
}
